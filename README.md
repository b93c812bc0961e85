# Go rules engine (druidgo) in Dafny

This project models the rules engine of druidgo, a small Go board built on the
druid GUI toolkit. The engine lives in `src/game.rs`. It keeps a `size × size`
board of optional stones and a capture tally per colour. It also keeps whose
turn it is and a stack of earlier states. Its one mutating operation,
`try_place_stone`, does the following:

- ignores a point that is off the board or occupied;
- pushes a snapshot of the current state;
- places the stone;
- removes every surrounded opponent group next to it;
- removes the placed stone's own group if that group is surrounded (suicide);
- compares the board with the board two history entries back (ko). On a repeat it restores the snapshot; otherwise it passes the turn.

The files:

- `option.dfy`: the `Option` datatype.
- `position.dfy` (module `Position`): `Pos`, bounds (`OnBoard`, `AndValid`), row-major `Index` and its inverse `PosAt`, and `Neighbors`, which filters the four orthogonal candidates in the order left, right, up, down.
- `stone.dfy` (module `Stones`): the two colours and their negation.
- `rules.dfy` (module `Rules`): the reference definitions of the rules, as functions on the `GameState` value.
  - `StoneAt` reads a cell.
  - `GroupOf` is the group of a point: the least set that contains the point and is closed under same-colour adjacency, i.e. the intersection of all such sets.
  - `Surrounded` is what `is_surrounded` must answer.
  - `RemoveGroup` is what `remove_if_surrounded` does.
  - `CaptureAll` is the loop over the neighbours, and `PlaceAndCapture` is a whole placement before the ko check.
  - The lemmas about these functions come after them.
- `game.dfy` (module `Engine`): the `Game` class with the fields `size`, `turn`, `state` and `history`. Its methods are imperative, like the source:
  - `IsSurrounded` is the work-list flood fill with its early exit.
  - `RemoveIfSurrounded` clears cells one at a time in a loop.
  - `TryPlaceStone` pushes and pops `history` and reassigns `state` and `turn`.

  Each method is proved to compute exactly the corresponding `Rules` function.

The board is a `seq<Option<Stone>>` that the methods reassign. A Rust `Vec` that is cloned into `history` behaves as a value, and a sequence models that directly. Coordinates are unbounded `int`s and sizes are `nat`s.

Two consequences of the code as written:

- **Capture tally.** `captures[color] += num_captures` (src/game.rs:146) uses the colour of the group that was removed. So capturing opponent stones raises the captured colour's counter, and a suicide raises the mover's own counter. `RemoveGroupEffect`, `OpponentCapturesExactly`, `PlaceAndCaptureSpec` and `LoneStoneCaptured` state this. `RemoveGroupConserves`, `CaptureAllConserves` and `PlaceAndCaptureConserves` state it as a conservation law: for each colour, the stones on the board plus that colour's tally stay the same, except for the one stone that was just placed.
- **Order of the opponent captures.** The loop over the neighbours (src/game.rs:159-163) removes groups one at a time, each judged on the board left by the previous removals. `CaptureAllRemovesDoomed` shows that the result is the same as judging every group on the board right after the stone is placed: distinct groups of one colour are never adjacent, so removing one never gives another a liberty. The loop therefore removes exactly the union (`Doomed`) of the liberty-less opponent groups next to the placed stone, including several groups at once.

## Model

| member | source | states |
|---|---|---|
| Position.AndValid | src/game.rs:26-32 | the result is `Some(p)` exactly when `p` is on the board (`Pos::valid`, lines 22-24), and `None` otherwise |
| Position.Index | src/game.rs:22-40 | an index exists exactly when `0 <= x < size` and `0 <= y < size`, and it is below `size * size` |
| Position.IndexRoundTrip | src/game.rs:34-40 | reading the row-major offset of a valid position back with `PosAt` gives the position again |
| Position.PosAtRoundTrip | src/game.rs:34-40 | every offset below `size * size` is the index of exactly one valid position, so indexing is onto the board |
| Position.IndexInjective | src/game.rs:34-40 | two valid positions with the same index are equal, so distinct points never share a cell |
| Position.Candidates | src/game.rs:10-15 | the four candidates are exactly the points at Manhattan distance 1, listed in strictly increasing direction (left, right, up, down) |
| Position.KeepValid | src/game.rs:16-19 | the filter keeps exactly the on-board elements, and never more elements than it was given |
| Position.KeepValidOrdered | src/game.rs:16-19 | filtering preserves the left/right/up/down order |
| Position.Neighbors | src/game.rs:9-20 | at most 4 results; a point is among them iff it is on the board and orthogonally adjacent to `p`; they come in the order left, right, up, down, so there are no repeats |
| Position.NeighborsSymmetric | src/game.rs:9-20 | every on-board point is among the neighbours of each of its neighbours |
| Stones.Stone.Neg | src/game.rs:55-64 | negation gives the other colour: White becomes Black and Black becomes White |
| Stones.NegInvolutive | src/game.rs:55-64 | `-(-c) == c` and `-c != c` |
| Rules.NewState | src/game.rs:76-85 | a fresh state has `size * size` cells, every point is empty, and both tallies are 0 |
| Rules.StoneAt | src/game.rs:180-182 | an off-board point holds no stone; an on-board point holds the board cell at its index |
| Rules.GameState.Credit | src/game.rs:146 | `captures[c] += n` raises the tally of `c` by `n` and changes neither the other tally nor the board |
| Rules.GroupOfSpec | src/game.rs:107-136 | the group of an occupied `p` contains `p`, holds only `p`'s colour, is closed under same-colour adjacency, and lies inside every such closed set: it is the connected group of `p` |
| Rules.LeastClosedIsGroup | src/game.rs:107-136 | a closed set that contains `p` and lies inside every closed set containing `p` is the group of `p`; this is how the flood fill's result is identified |
| Rules.SurroundedSpec | src/game.rs:107-136 | a surrounded answer names `p`'s colour and its whole group, which holds only that colour, is closed and has no empty on-board neighbour; a `None` answer means `p` is empty or a member of its group has an empty neighbour |
| Rules.LoneStoneSurrounded | src/game.rs:107-136 | a stone whose every on-board neighbour holds the other colour is surrounded, and its group is that stone alone |
| Rules.ClearedAt | src/game.rs:141-145 | after the clearing loop, the cells of the group are empty and every other cell is unchanged |
| Rules.ClearedAdd | src/game.rs:141-145 | clearing one more member is one write of `None` at that member's index (no write at all for an off-board member) |
| Rules.DistinctCard | src/game.rs:140 | for a group listed without repeats, `structure.len()` is the number of its points |
| Rules.RemoveGroupEffect | src/game.rs:138-148 | either nothing changes, or exactly the cells of the surrounded group become empty, the tally of the group's own colour rises by the group's size, and the other tally is unchanged |
| Rules.RemoveGroupOnlyRemoves | src/game.rs:138-148 | removal only empties cells, never lowers a tally, and never touches a stone of another colour than the one at `p` |
| Rules.ClearedCount | src/game.rs:141-146 | emptying `k` cells of colour `c` lowers the count of `c` stones on the board by `k` and leaves the other colour's count alone |
| Rules.CountAfterEmptying | src/game.rs:143 | emptying one cell of colour `c` lowers the count of `c` by one and changes no other count |
| Rules.RemoveGroupConserves | src/game.rs:138-148 | for each colour, the number of its stones on the board plus its tally is the same before and after a removal |
| Rules.Placed | src/game.rs:158 | placing keeps the board one cell per point |
| Rules.PlacedAt | src/game.rs:158 | the placed point holds the mover's colour and every other point is unchanged |
| Rules.CaptureAll | src/game.rs:159-163 | the neighbour loop keeps the board one cell per point |
| Rules.CaptureAllAppend | src/game.rs:159-163 | running the loop over two consecutive stretches of neighbours is running it over both |
| Rules.CaptureAllSpec | src/game.rs:159-163 | the opponent-capture loop only empties cells, never touches a stone that is not the opponent's, and leaves the mover's tally unchanged, because captures go to the tally of the captured colour |
| Rules.CaptureAllConserves | src/game.rs:159-163 | the loop conserves stones on the board plus tally, colour by colour |
| Rules.StepClearsRingedStone | src/game.rs:160-161 | one loop step at an opponent stone ringed by the mover's stones leaves that point empty |
| Rules.PlaceAndCapture | src/game.rs:156-164 | a placement keeps the board one cell per point |
| Rules.OpponentCapturesSpareMover | src/game.rs:158-163 | the opponent-capture loop never removes the stone just played or any other stone of the mover, only empties cells, and leaves the mover's tally unchanged |
| Rules.PlaceAndCaptureSpec | src/game.rs:156-164 | the stone just played stays iff its group has a liberty once the opponent captures are done; otherwise every point of its group is emptied and the group's size goes to the mover's own tally; other points only lose stones; tallies never fall |
| Rules.PlacedCount | src/game.rs:158 | placing on an empty point adds one stone of the mover's colour and changes no other count |
| Rules.PlaceAndCaptureConserves | src/game.rs:156-164 | every stone is on the board or in its own colour's tally: a placement adds exactly one to the mover's sum and leaves the opponent's sum unchanged |
| Rules.CaptureAllStep | src/game.rs:159-163 | the loop over the first `k + 1` neighbours is the loop over `k` of them followed by one more step |
| Rules.RingSurvives | src/game.rs:159-163 | part way through the loop, an opponent stone next to the played point is still there or already gone, and the mover's stones around it are untouched |
| Rules.CaptureAllKeepsEmpty | src/game.rs:159-163 | the loop never refills an empty point |
| Rules.EmptyAfterPrefix | src/game.rs:159-163 | a point emptied early in the loop is still empty at its end |
| Rules.LoopEmptiesRingedNeighbor | src/game.rs:159-163 | an opponent stone next to the played point, whose other neighbours all hold the mover's colour, is empty when the loop ends |
| Rules.LibertyMeansNotSurrounded | src/game.rs:117-119 | a stone with an empty on-board neighbour is not surrounded |
| Rules.LoneStoneCaptured | src/game.rs:156-164 | filling the last liberty of a lone opponent stone removes it, the stone just played stays because the capture happens before the suicide check, and the captured colour's tally rises by at least one |
| Rules.LoneStoneDoomed | src/game.rs:159-163 | a lone opponent stone whose last liberty is the played point is among the points the loop removes |
| Rules.GroupSymmetric | src/game.rs:120-126 | connection through same-coloured neighbours is symmetric: a member of `p`'s group is of `p`'s colour and has `p` in its own group |
| Rules.SameGroup | src/game.rs:120-126 | every member of a group has that same group, so groups of one colour partition its stones |
| Rules.WholeGroupsClosed | src/game.rs:120-126 | a union of whole groups of one colour is closed under same-colour adjacency |
| Rules.GroupApart | src/game.rs:120-126 | a group outside a union of whole groups of its colour shares no point with it and has no neighbour in it |
| Rules.ClearedReads | src/game.rs:141-145 | after emptying `U`, its points read empty and every other point reads as before |
| Rules.ClosedWithCleared | src/game.rs:159-163 | a set closed on the board with `U` emptied, together with `U`, is closed on the original board |
| Rules.GroupClosedAfterClearing | src/game.rs:159-163 | a group apart from the emptied groups stays closed after they are emptied |
| Rules.GroupLeastAfterClearing | src/game.rs:159-163 | that group lies inside every set around its stone that is closed after the emptying |
| Rules.ClearedKeepsGroup | src/game.rs:159-163 | emptying whole groups of one colour leaves every other group of that colour unchanged |
| Rules.ClearedKeepsSurrounded | src/game.rs:159-163 | ... and whether it is surrounded unchanged, since none of its neighbours was emptied |
| Rules.ClearedTwice | src/game.rs:141-145 | emptying `A` and then `B` is emptying `A + B` |
| Rules.DoomedSnoc | src/game.rs:159-163 | the groups doomed by a list of neighbours are those of all but its last point plus the last point's |
| Rules.WholeGroupsAdd | src/game.rs:159-163 | adding a stone's group to a union of whole groups gives one again |
| Rules.StepSkips | src/game.rs:160-162 | a step at a point that does not hold the opponent's colour, or whose group is already gone, changes nothing and adds nothing to what is removed |
| Rules.RemoveOneMore | src/game.rs:141-146 | removing one more group apart from those already removed empties their union and credits the sum of their sizes |
| Rules.StepCaptures | src/game.rs:160-162 | a step at an opponent stone whose group is still there removes that group exactly when it had no liberty right after the placement |
| Rules.CaptureAllRemovesDoomed | src/game.rs:159-163 | the loop over any list of points empties exactly `Doomed`, the union of the liberty-less groups of the opponent's colour at those points, and raises that colour's tally by its size |
| Rules.OpponentCapturesExactly | src/game.rs:158-163 | after placing at `p`, the opponent captures empty exactly the opponent stones in liberty-less groups next to `p`, every other point keeps its occupant, the opponent's tally rises by the number removed and the mover's tally is unchanged |
| Rules.TalliesNeverDecrease | src/game.rs:156-176 | no placement lowers either capture tally |
| Engine.FillPop | src/game.rs:114-115 | popping the last work-list entry onto `structure` keeps the lists disjoint and repeat-free, all of `p`'s colour and inside every closed set around `p`; the unexplored part of the board shrinks, which makes the loop terminate |
| Engine.ScanPush | src/game.rs:121-126 | a new same-coloured neighbour that is in neither list joins the work list, and it lies in every closed set around `p` |
| Engine.ScanSkip | src/game.rs:120-127 | a neighbour that is occupied and either of the other colour or already listed needs no action |
| Engine.ScanEscape | src/game.rs:117-119 | an empty neighbour of any popped point is a liberty of the whole group, so the answer is not surrounded |
| Engine.FillEnd | src/game.rs:129-131 | when the work list runs out, `structure` lists exactly the surrounded group of `p`, without repeats |
| Engine.Game.constructor | src/game.rs:98-105 | a new game has the given size, White to move, an empty history and the state `NewState(size)` |
| Engine.Game.StoneAt | src/game.rs:180-182 | no stone off the board; otherwise the board cell at the point's index |
| Engine.Game.HasStoneAt | src/game.rs:184-186 | holds iff the point is on the board and its cell is occupied |
| Engine.Game.IsSurrounded | src/game.rs:107-136 | the flood fill, which changes nothing, answers `None` exactly when `Surrounded` does; otherwise it returns the same colour and lists exactly the group's points, without repeats |
| Engine.Game.RemoveIfSurrounded | src/game.rs:138-148 | the new state is `RemoveGroup` of the old one; turn and history are unchanged |
| Engine.Game.TryPlaceStone | src/game.rs:150-178 | an off-board or occupied point changes nothing. Otherwise, when the resulting board repeats the board two entries back in the pushed history (`RepeatsKo`), state, turn and history are exactly as before. If not, the state is `PlaceAndCapture` of the old one, the turn passes to the other colour and history grows by the pre-move state. Tallies never fall, and every board keeps `size * size` cells |

## Left out

- src/flexbox.rs is not part of this model. It is a GUI layout widget: floating-point flex arithmetic and painting through druid.
- src/main.rs is not part of this model: mouse-to-board projection, painting, and application start-up. Its only link to the engine is the call to `try_place_stone`.
- `From<(usize, usize)> for Pos` (src/game.rs:43-47) is a cast used only by rendering.
- The druid `Data`/`Lens` derives and the `enum_map!` macro are left out. The tally is two `nat` fields.
- Machine integers are not modelled: `i32` coordinates, `usize` sizes, and the casts at src/game.rs:17, 23, 36 and 45 are unbounded integers. So are the overflow of `self.0 - 1` and of the tally addition.
- A panic on an out-of-range board access is not modelled. The class invariant `Valid()` keeps every board at `size * size` cells, so such an access cannot happen.
- `size` is a `const`: the source never writes the field after construction.
- Engine.Game.IsSurrounded: the order in which the flood fill lists the group is not stated. Only its set of points and the absence of repeats are stated, and the callers use nothing else.
