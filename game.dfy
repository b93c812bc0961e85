/**
 * The `Game` aggregate of src/game.rs: board size, whose turn it is, the
 * current state and the stack of earlier states used for the ko check.
 * Every method is proved to compute what the functions of module Rules say.
 */
module Engine {
  import opened Options
  import opened Position
  import opened Stones
  import opened Rules

  /**
   * The ko test after the pre-move snapshot has been pushed: the new board
   * equals the board two entries back, the state before the previous move.
   */
  predicate RepeatsKo(pushed: seq<GameState>, after: GameState)
  {
    |pushed| >= 2 && pushed[|pushed| - 2].board == after.board
  }

  // ---------------------------------------------------------------------
  // The invariants of the flood fill in `is_surrounded`, on the state value:
  // `structure` holds the points popped so far, `todo` the work list.

  /** `y` is occupied, and if it holds colour `c` it is already listed in `structure` or `todo`. */
  ghost predicate Seen(st: GameState, size: nat, c: Stone, y: Pos, structure: seq<Pos>, todo: seq<Pos>)
    requires WellSized(st, size)
  {
    StoneAt(st, size, y).Some? &&
    (StoneAt(st, size, y) == Some(c) ==> y in structure || y in todo)
  }

  ghost predicate Explored(st: GameState, size: nat, c: Stone, x: Pos, structure: seq<Pos>, todo: seq<Pos>)
    requires WellSized(st, size)
  {
    forall y :: y in Neighbors(x, size) ==> Seen(st, size, c, y, structure, todo)
  }

  /** What holds of the two lists whether or not a point is being scanned. */
  ghost predicate FillCommon(st: GameState, size: nat, p: Pos, c: Stone, structure: seq<Pos>, todo: seq<Pos>)
    requires WellSized(st, size)
  {
    && (forall x :: x in structure ==> StoneAt(st, size, x) == Some(c))
    && (forall x :: x in todo ==> StoneAt(st, size, x) == Some(c))
    && Distinct(structure) && Distinct(todo)
    && (forall x :: x in todo ==> x !in structure)
    && (p in structure || p in todo)
    && (forall S :: Closed(st, size, S, c) && p in S ==> Elements(structure) <= S && Elements(todo) <= S)
  }

  /** The outer loop's invariant: every popped point has been fully explored. */
  ghost predicate FillInv(st: GameState, size: nat, p: Pos, c: Stone, structure: seq<Pos>, todo: seq<Pos>)
    requires WellSized(st, size)
  {
    && FillCommon(st, size, p, c, structure, todo)
    && (forall i :: 0 <= i < |structure| ==> Explored(st, size, c, structure[i], structure, todo))
  }

  /**
   * The inner loop's invariant: all popped points but the last are explored,
   * and the first `j` neighbours of the last one have been seen.
   */
  ghost predicate ScanInv(st: GameState, size: nat, p: Pos, c: Stone, structure: seq<Pos>, todo: seq<Pos>, j: nat)
    requires WellSized(st, size)
  {
    && structure != []
    && j <= |Neighbors(structure[|structure| - 1], size)|
    && FillCommon(st, size, p, c, structure, todo)
    && (forall i :: 0 <= i < |structure| - 1 ==> Explored(st, size, c, structure[i], structure, todo))
    && (forall y :: y in Neighbors(structure[|structure| - 1], size)[..j] ==>
          Seen(st, size, c, y, structure, todo))
  }

  lemma FillStart(st: GameState, size: nat, p: Pos, c: Stone)
    requires WellSized(st, size) && StoneAt(st, size, p) == Some(c)
    ensures FillInv(st, size, p, c, [], [p])
  {
  }

  /** Popping the last work-list entry onto `structure` starts a scan of its neighbours with a smaller unexplored region. */
  lemma FillPop(st: GameState, size: nat, p: Pos, c: Stone, structure: seq<Pos>, todo: seq<Pos>)
    requires WellSized(st, size) && FillInv(st, size, p, c, structure, todo) && todo != []
    ensures var q := todo[|todo| - 1];
      && ScanInv(st, size, p, c, structure + [q], todo[..|todo| - 1], 0)
      && Elements(structure + [q]) == Elements(structure) + {q}
      && q !in Elements(structure) && q in Cells(size)
  {
    var q := todo[|todo| - 1];
    var rest := todo[..|todo| - 1];
    assert todo == rest + [q];
    var s := structure + [q];
    assert Elements(s) == Elements(structure) + {q};
    assert Elements(todo) == Elements(rest) + {q};
    forall i | 0 <= i < |s| - 1
      ensures Explored(st, size, c, s[i], s, rest)
    {
      assert Explored(st, size, c, structure[i], structure, todo);
    }
  }

  /** A neighbour that is occupied and already seen, or of the other colour, needs nothing. */
  lemma ScanSkip(st: GameState, size: nat, p: Pos, c: Stone, structure: seq<Pos>, todo: seq<Pos>, j: nat)
    requires WellSized(st, size) && ScanInv(st, size, p, c, structure, todo, j)
    requires var ns := Neighbors(structure[|structure| - 1], size);
      j < |ns| && StoneAt(st, size, ns[j]).Some?
      && (StoneAt(st, size, ns[j]) != Some(c) || ns[j] in structure || ns[j] in todo)
    ensures ScanInv(st, size, p, c, structure, todo, j + 1)
  {
    var ns := Neighbors(structure[|structure| - 1], size);
    assert ns[..j + 1] == ns[..j] + [ns[j]];
  }

  /** A new neighbour of colour `c` joins the work list; it lies in every closed set around `p`. */
  lemma ScanPush(st: GameState, size: nat, p: Pos, c: Stone, structure: seq<Pos>, todo: seq<Pos>, j: nat)
    requires WellSized(st, size) && ScanInv(st, size, p, c, structure, todo, j)
    requires var ns := Neighbors(structure[|structure| - 1], size);
      j < |ns| && StoneAt(st, size, ns[j]) == Some(c) && ns[j] !in structure && ns[j] !in todo
    ensures var np := Neighbors(structure[|structure| - 1], size)[j];
      ScanInv(st, size, p, c, structure, todo + [np], j + 1)
  {
    var x := structure[|structure| - 1];
    var np := Neighbors(x, size)[j];
    var t := todo + [np];
    assert Elements(t) == Elements(todo) + {np};
    forall S | Closed(st, size, S, c) && p in S
      ensures Elements(structure) <= S && Elements(t) <= S
    {
      assert x in Elements(structure);
    }
    forall i | 0 <= i < |structure| - 1
      ensures Explored(st, size, c, structure[i], structure, t)
    {
      assert Explored(st, size, c, structure[i], structure, todo);
    }
    var ns := Neighbors(x, size);
    assert ns[..j + 1] == ns[..j] + [np];
    forall y | y in ns[..j + 1]
      ensures Seen(st, size, c, y, structure, t)
    {
      if y in ns[..j] {
        assert Seen(st, size, c, y, structure, todo);
      }
    }
  }

  /** Once all its neighbours are seen, the popped point is explored. */
  lemma ScanEnd(st: GameState, size: nat, p: Pos, c: Stone, structure: seq<Pos>, todo: seq<Pos>)
    requires WellSized(st, size) && structure != []
    requires ScanInv(st, size, p, c, structure, todo, |Neighbors(structure[|structure| - 1], size)|)
    ensures FillInv(st, size, p, c, structure, todo)
  {
    var x := structure[|structure| - 1];
    var ns := Neighbors(x, size);
    assert ns[..|ns|] == ns;
    assert Explored(st, size, c, x, structure, todo);
    forall i | 0 <= i < |structure|
      ensures Explored(st, size, c, structure[i], structure, todo)
    {
      if i < |structure| - 1 {
        assert Explored(st, size, c, structure[i], structure, todo);
      }
    }
  }

  /** An empty neighbour of a popped point is a liberty of the whole group: not surrounded. */
  lemma ScanEscape(st: GameState, size: nat, p: Pos, c: Stone, structure: seq<Pos>, todo: seq<Pos>, j: nat)
    requires WellSized(st, size) && ScanInv(st, size, p, c, structure, todo, j)
    requires var ns := Neighbors(structure[|structure| - 1], size);
      j < |ns| && StoneAt(st, size, ns[j]) == None
    ensures Surrounded(st, size, p) == None
  {
    var x := structure[|structure| - 1];
    assert x in Elements(structure);
    assert StoneAt(st, size, p) == Some(c);
    assert x in GroupOf(st, size, p, c);
  }

  /** An exhausted work list leaves exactly the surrounded group, without repeats. */
  lemma FillEnd(st: GameState, size: nat, p: Pos, c: Stone, structure: seq<Pos>)
    requires WellSized(st, size) && FillInv(st, size, p, c, structure, [])
    ensures Surrounded(st, size, p) == Some((c, Elements(structure)))
    ensures Distinct(structure)
  {
    var g := Elements(structure);
    forall x, y | x in g && y in Neighbors(x, size)
      ensures StoneAt(st, size, y).Some? && (StoneAt(st, size, y) == Some(c) ==> y in g)
    {
      var i :| 0 <= i < |structure| && structure[i] == x;
      assert Explored(st, size, c, structure[i], structure, []);
    }
    assert Closed(st, size, g, c);
    LeastClosedIsGroup(st, size, p, c, g);
  }

  class Game {
    const size: nat
    var turn: Stone
    var state: GameState
    var history: seq<GameState>

    /** Every board, current or remembered, has one cell per grid point. */
    ghost predicate Valid()
      reads this
    {
      WellSized(state, size) && forall h :: h in history ==> WellSized(h, size)
    }

    /** `Game::new`: White to move on an empty board, nothing captured, no history. */
    constructor (size: nat)
      ensures Valid()
      ensures this.size == size && turn == White && history == []
      ensures state == NewState(size)
    {
      this.size := size;
      turn := White;
      state := NewState(size);
      history := [];
    }

    /** `Game::stone_at`: no stone off the board, otherwise the cell at `index`. */
    function StoneAt(p: Pos): (r: Option<Stone>)
      reads this
      requires Valid()
      ensures !OnBoard(p, size) ==> r == None
      ensures OnBoard(p, size) ==> r == state.board[Index(p, size).value]
    {
      Rules.StoneAt(state, size, p)
    }

    /** `Game::has_stone_at`: `p` is on the board and its cell is occupied. */
    function HasStoneAt(p: Pos): (r: bool)
      reads this
      requires Valid()
      ensures r <==> OnBoard(p, size) && state.board[Index(p, size).value].Some?
    {
      StoneAt(p) != None
    }

    /**
     * `Game::is_surrounded`: a work-list flood fill from `p` over stones of
     * `p`'s colour that gives up as soon as it meets an empty neighbour. It
     * answers exactly `Surrounded`, listing the group without repetitions.
     */
    method IsSurrounded(p: Pos) returns (r: Option<(Stone, seq<Pos>)>)
      requires Valid()
      ensures r.None? <==> Surrounded(state, size, p).None?
      ensures r.Some? ==> r.value.0 == Surrounded(state, size, p).value.0
      ensures r.Some? ==> Elements(r.value.1) == Surrounded(state, size, p).value.1
      ensures r.Some? ==> Distinct(r.value.1)
    {
      var structure: seq<Pos> := [];
      var color := StoneAt(p);
      if color.None? {
        return None;
      }
      var c := color.value;
      var todo := [p];
      FillStart(state, size, p, c);
      while todo != []
        invariant FillInv(state, size, p, c, structure, todo)
        decreases Cells(size) - Elements(structure)
      {
        var q := todo[|todo| - 1];
        FillPop(state, size, p, c, structure, todo);
        ghost var seen := Elements(structure);
        todo := todo[..|todo| - 1];
        structure := structure + [q];
        var ns := Neighbors(q, size);
        var j := 0;
        while j < |ns|
          invariant 0 <= j <= |ns|
          invariant ScanInv(state, size, p, c, structure, todo, j)
        {
          var np := ns[j];
          if !HasStoneAt(np) {
            ScanEscape(state, size, p, c, structure, todo, j);
            return None;
          } else if StoneAt(np).Some? {
            var neighborColor := StoneAt(np).value;
            if neighborColor == c && np !in structure && np !in todo {
              ScanPush(state, size, p, c, structure, todo, j);
              todo := todo + [np];
            } else {
              ScanSkip(state, size, p, c, structure, todo, j);
            }
          }
          j := j + 1;
        }
        ScanEnd(state, size, p, c, structure, todo);
      }
      FillEnd(state, size, p, c, structure);
      return Some((c, structure));
    }

    /**
     * `Game::remove_if_surrounded`: when the group at `p` is surrounded, empty
     * its cells one by one and add its size to the tally of its own colour.
     */
    method RemoveIfSurrounded(p: Pos)
      requires Valid()
      modifies this
      ensures Valid()
      ensures state == RemoveGroup(old(state), size, p)
      ensures turn == old(turn) && history == old(history)
    {
      var found := IsSurrounded(p);
      if found.Some? {
        var (color, structure) := found.value;
        var numCaptures := |structure|;
        ghost var before := state;
        var k := 0;
        while k < |structure|
          invariant 0 <= k <= |structure|
          invariant state == before.(board := Cleared(before.board, size, Elements(structure[..k])))
          invariant turn == old(turn) && history == old(history)
        {
          var q := structure[k];
          ClearedAdd(before.board, size, Elements(structure[..k]), q);
          assert Elements(structure[..k + 1]) == Elements(structure[..k]) + {q};
          var i := Index(q, size);
          if i.Some? {
            state := state.(board := state.board[i.value := None]);
          }
          k := k + 1;
        }
        assert structure[..|structure|] == structure;
        DistinctCard(structure);
        state := state.Credit(color, numCaptures);
      }
    }

    /**
     * `Game::try_place_stone`: ignore an off-board or occupied point;
     * otherwise push a snapshot, place the stone, capture around it, remove
     * the placed group if it is surrounded, and then either restore the
     * snapshot (ko) or pass the turn.
     */
    method TryPlaceStone(p: Pos)
      requires Valid()
      modifies this
      ensures Valid()
      ensures !OnBoard(p, size) || old(HasStoneAt(p)) ==>
        state == old(state) && turn == old(turn) && history == old(history)
      ensures OnBoard(p, size) && !old(HasStoneAt(p)) ==>
        var after := PlaceAndCapture(old(state), size, p, old(turn));
        var pushed := old(history) + [old(state)];
        if RepeatsKo(pushed, after) then
          state == old(state) && turn == old(turn) && history == old(history)
        else
          state == after && turn == old(turn).Neg() && history == pushed
      ensures state.white >= old(state.white) && state.black >= old(state.black)
    {
      var idx := Index(p, size);
      if idx.Some? {
        if HasStoneAt(p) {
          return;
        }
        history := history + [state];
        state := state.(board := state.board[idx.value := Some(turn)]);
        ghost var placed := state;
        var ns := Neighbors(p, size);
        var k := 0;
        while k < |ns|
          invariant 0 <= k <= |ns|
          invariant Valid()
          invariant turn == old(turn) && history == old(history) + [old(state)]
          invariant state == CaptureAll(placed, size, ns[..k], turn.Neg())
        {
          CaptureAllStep(placed, size, ns, k, turn.Neg());
          if StoneAt(ns[k]) == Some(turn.Neg()) {
            RemoveIfSurrounded(ns[k]);
          }
          k := k + 1;
        }
        assert ns[..|ns|] == ns;
        assert placed == Placed(old(state), size, p, turn);
        RemoveIfSurrounded(p);
        ghost var after := state;
        assert after == PlaceAndCapture(old(state), size, p, turn);
        TalliesNeverDecrease(old(state), size, p, turn);

        // ko rule
        var len := |history|;
        if len >= 2 && history[len - 2].board == state.board {
          state := history[len - 1];
          history := history[..len - 1];
          return;
        }
        turn := turn.Neg();
      }
    }
  }
}
