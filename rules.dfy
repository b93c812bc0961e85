/**
 * The game state as a value (`GameState` of src/game.rs) and the rules of Go
 * as this engine applies them, stated as functions on that value: what a
 * group is, when it is surrounded, what removing it does, and what placing a
 * stone yields before the ko check. The `Game` class in game.dfy is proved to
 * compute exactly these.
 */
module Rules {
  import opened Options
  import opened Position
  import opened Stones

  /** One cell per grid point, row-major; `None` is an empty point. */
  type Board = seq<Option<Stone>>

  /** A board plus the per-colour capture tally (`captures[White]`, `captures[Black]`). */
  datatype GameState = GameState(board: Board, white: nat, black: nat)
  {
    /** `captures[c]` */
    function Captures(c: Stone): nat
    {
      if c.White? then white else black
    }

    /** `captures[c] += n`: the other counter and the board are untouched. */
    function Credit(c: Stone, n: nat): (r: GameState)
      ensures r.board == board
      ensures r.Captures(c) == Captures(c) + n
      ensures r.Captures(c.Neg()) == Captures(c.Neg())
    {
      if c.White? then this.(white := white + n) else this.(black := black + n)
    }
  }

  /** The board has exactly one cell per grid point. */
  predicate WellSized(st: GameState, size: nat)
  {
    |st.board| == size * size
  }

  /** `GameState::new`: an empty `size × size` board and no captures. */
  function NewState(size: nat): (r: GameState)
    ensures WellSized(r, size)
    ensures r.Captures(White) == 0 && r.Captures(Black) == 0
    ensures forall p :: StoneAt(r, size, p) == None
  {
    GameState(seq(size * size, _ => None), 0, 0)
  }

  /**
   * `Game::stone_at`: the occupant of `p`; an off-board position holds no
   * stone rather than being an error.
   */
  function StoneAt(st: GameState, size: nat, p: Pos): (r: Option<Stone>)
    requires WellSized(st, size)
    ensures !OnBoard(p, size) ==> r == None
    ensures OnBoard(p, size) ==> r == st.board[Index(p, size).value]
  {
    match Index(p, size)
    case None => None
    case Some(i) => st.board[i]
  }

  /** Every grid point of a `size × size` board. */
  function Cells(size: nat): (r: set<Pos>)
    ensures forall q :: q in r <==> OnBoard(q, size)
  {
    var r := set x: int, y: int | 0 <= x < size && 0 <= y < size :: Pos(x, y);
    assert forall q | OnBoard(q, size) :: q in r by {
      forall q | OnBoard(q, size) ensures q in r {
        assert q == Pos(q.x, q.y);
      }
    }
    r
  }

  /**
   * `S` is closed under same-colour adjacency: every on-board neighbour of a
   * member that holds colour `c` is itself a member.
   */
  ghost predicate Closed(st: GameState, size: nat, S: set<Pos>, c: Stone)
    requires WellSized(st, size)
  {
    forall x, y :: x in S && y in Neighbors(x, size) && StoneAt(st, size, y) == Some(c) ==> y in S
  }

  /**
   * The group of colour `c` at `p`: the least closed set containing `p`,
   * i.e. the points lying in every closed set that contains `p`.
   */
  ghost function GroupOf(st: GameState, size: nat, p: Pos, c: Stone): set<Pos>
    requires WellSized(st, size)
  {
    set x | x in Cells(size) && forall S :: Closed(st, size, S, c) && p in S ==> x in S
  }

  /** No on-board neighbour of any member of `S` is empty: `S` has no liberty. */
  ghost predicate NoLiberties(st: GameState, size: nat, S: set<Pos>)
    requires WellSized(st, size)
  {
    forall x, y :: x in S && y in Neighbors(x, size) ==> StoneAt(st, size, y).Some?
  }

  /**
   * What `Game::is_surrounded` answers: the colour and the group of the stone
   * at `p` when that group has no liberty, and `None` when `p` is empty or the
   * group has a liberty.
   */
  ghost function Surrounded(st: GameState, size: nat, p: Pos): Option<(Stone, set<Pos>)>
    requires WellSized(st, size)
  {
    match StoneAt(st, size, p)
    case None => None
    case Some(c) =>
      var g := GroupOf(st, size, p, c);
      if NoLiberties(st, size, g) then Some((c, g)) else None
  }

  /** The board with every cell of `S` emptied. */
  function Cleared(board: Board, size: nat, S: set<Pos>): Board
  {
    seq(|board|, i requires 0 <= i < |board| => if size > 0 && PosAt(i, size) in S then None else board[i])
  }

  /**
   * What `Game::remove_if_surrounded` does to the state: when the group at `p`
   * is surrounded, empty its cells and add its size to the tally of ITS OWN
   * colour (`captures[color]`, where `color` is the group's colour).
   */
  ghost function RemoveGroup(st: GameState, size: nat, p: Pos): GameState
    requires WellSized(st, size)
  {
    match Surrounded(st, size, p)
    case None => st
    case Some((c, g)) => st.(board := Cleared(st.board, size, g)).Credit(c, |g|)
  }

  /** One turn of the neighbour loop: remove the group at `q` if it holds colour `opp`. */
  ghost function CaptureStep(st: GameState, size: nat, q: Pos, opp: Stone): GameState
    requires WellSized(st, size)
  {
    if StoneAt(st, size, q) == Some(opp) then RemoveGroup(st, size, q) else st
  }

  /** The neighbour loop run over `ns`, left to right. */
  ghost function CaptureAll(st: GameState, size: nat, ns: seq<Pos>, opp: Stone): (r: GameState)
    requires WellSized(st, size)
    ensures WellSized(r, size)
    decreases |ns|
  {
    if ns == [] then st
    else
      var prev := CaptureAll(st, size, ns[..|ns| - 1], opp);
      RemoveGroupWellSized(prev, size, ns[|ns| - 1]);
      CaptureStep(prev, size, ns[|ns| - 1], opp)
  }

  /** The loop over the first `k + 1` neighbours is the loop over `k` of them, then one more step. */
  lemma CaptureAllStep(st: GameState, size: nat, ns: seq<Pos>, k: nat, opp: Stone)
    requires WellSized(st, size) && k < |ns|
    ensures CaptureAll(st, size, ns[..k + 1], opp)
         == CaptureStep(CaptureAll(st, size, ns[..k], opp), size, ns[k], opp)
  {
    assert ns[..k + 1][..k] == ns[..k];
  }

  /** The board after `c` plays at the empty point `p`, before captures. */
  function Placed(st: GameState, size: nat, p: Pos, c: Stone): (r: GameState)
    requires WellSized(st, size) && OnBoard(p, size)
    ensures WellSized(r, size)
  {
    st.(board := st.board[Index(p, size).value := Some(c)])
  }

  /**
   * A placement of colour `c` at `p` before the ko check: put the stone down,
   * remove surrounded opponent groups next to it (in neighbour order), then
   * remove the placed stone's own group if it is surrounded.
   */
  ghost function PlaceAndCapture(st: GameState, size: nat, p: Pos, c: Stone): (r: GameState)
    requires WellSized(st, size) && OnBoard(p, size)
    ensures WellSized(r, size)
  {
    var afterOpp := CaptureAll(Placed(st, size, p, c), size, Neighbors(p, size), c.Neg());
    RemoveGroupWellSized(afterOpp, size, p);
    RemoveGroup(afterOpp, size, p)
  }

  // ---------------------------------------------------------------------
  // Groups

  /**
   * The group of the stone at `p` contains `p`, holds only colour `c`, is
   * closed under same-colour adjacency and lies inside every closed set that
   * contains `p`: it is exactly the connected group of `p`.
   */
  lemma GroupOfSpec(st: GameState, size: nat, p: Pos, c: Stone)
    requires WellSized(st, size) && StoneAt(st, size, p) == Some(c)
    ensures var g := GroupOf(st, size, p, c);
      && p in g
      && (forall x :: x in g ==> StoneAt(st, size, x) == Some(c))
      && Closed(st, size, g, c)
      && (forall S :: Closed(st, size, S, c) && p in S ==> g <= S)
  {
    var g := GroupOf(st, size, p, c);
    var same := set x | x in Cells(size) && StoneAt(st, size, x) == Some(c);
    assert Closed(st, size, same, c);
    assert p in same;
    forall x | x in g ensures StoneAt(st, size, x) == Some(c) {
      assert x in same;
    }
    forall x, y | x in g && y in Neighbors(x, size) && StoneAt(st, size, y) == Some(c)
      ensures y in g
    {
      assert y in Cells(size);
    }
  }

  /**
   * A closed set containing `p` that lies inside every closed set containing
   * `p` is the group of `p`.
   */
  lemma LeastClosedIsGroup(st: GameState, size: nat, p: Pos, c: Stone, t: set<Pos>)
    requires WellSized(st, size) && StoneAt(st, size, p) == Some(c)
    requires p in t && Closed(st, size, t, c)
    requires forall S :: Closed(st, size, S, c) && p in S ==> t <= S
    ensures t == GroupOf(st, size, p, c)
  {
    var g := GroupOf(st, size, p, c);
    GroupOfSpec(st, size, p, c);
    assert t <= g;
    assert g <= t;
  }

  /**
   * `is_surrounded`'s answer in full: a surrounded result names the colour of
   * `p` and its whole group, which has no liberty; a `None` answer means `p`
   * is empty or some member of its group has an empty on-board neighbour.
   */
  lemma SurroundedSpec(st: GameState, size: nat, p: Pos)
    requires WellSized(st, size)
    ensures Surrounded(st, size, p).Some? ==>
      var (c, g) := Surrounded(st, size, p).value;
      && StoneAt(st, size, p) == Some(c)
      && g == GroupOf(st, size, p, c)
      && p in g
      && (forall x :: x in g ==> StoneAt(st, size, x) == Some(c))
      && Closed(st, size, g, c)
      && NoLiberties(st, size, g)
    ensures Surrounded(st, size, p).None? ==>
      || StoneAt(st, size, p) == None
      || exists x, y :: x in GroupOf(st, size, p, StoneAt(st, size, p).value)
                        && y in Neighbors(x, size) && StoneAt(st, size, y) == None
  {
    if StoneAt(st, size, p).Some? {
      GroupOfSpec(st, size, p, StoneAt(st, size, p).value);
    }
  }

  /**
   * A single stone whose every on-board neighbour holds the other colour is
   * surrounded on its own.
   */
  lemma LoneStoneSurrounded(st: GameState, size: nat, p: Pos, c: Stone)
    requires WellSized(st, size) && StoneAt(st, size, p) == Some(c)
    requires forall q :: q in Neighbors(p, size) ==> StoneAt(st, size, q) == Some(c.Neg())
    ensures Surrounded(st, size, p) == Some((c, {p}))
  {
    assert Closed(st, size, {p}, c);
    LeastClosedIsGroup(st, size, p, c, {p});
  }

  // ---------------------------------------------------------------------
  // Removal

  lemma RemoveGroupWellSized(st: GameState, size: nat, p: Pos)
    requires WellSized(st, size)
    ensures WellSized(RemoveGroup(st, size, p), size)
  {
  }

  /** Reading a cleared board: the cells of `S` are empty, all others unchanged. */
  lemma {:induction false} ClearedAt(st: GameState, size: nat, S: set<Pos>, q: Pos)
    requires WellSized(st, size) && OnBoard(q, size)
    ensures var after := st.(board := Cleared(st.board, size, S));
      StoneAt(after, size, q) == if q in S then None else StoneAt(st, size, q)
  {
    IndexRoundTrip(q, size);
  }

  /**
   * `remove_if_surrounded` either changes nothing, or empties exactly the
   * cells of the surrounded group and raises the tally of the group's colour
   * by the group's size, leaving the other tally alone.
   */
  lemma {:induction false} RemoveGroupEffect(st: GameState, size: nat, p: Pos)
    requires WellSized(st, size)
    ensures var after := RemoveGroup(st, size, p);
      && WellSized(after, size)
      && (Surrounded(st, size, p).None? ==> after == st)
      && (Surrounded(st, size, p).Some? ==>
            var (c, g) := Surrounded(st, size, p).value;
            && (forall q :: OnBoard(q, size) ==>
                  StoneAt(after, size, q) == if q in g then None else StoneAt(st, size, q))
            && after.Captures(c) == st.Captures(c) + |g|
            && after.Captures(c.Neg()) == st.Captures(c.Neg()))
  {
    var after := RemoveGroup(st, size, p);
    if Surrounded(st, size, p).Some? {
      var (c, g) := Surrounded(st, size, p).value;
      forall q | OnBoard(q, size)
        ensures StoneAt(after, size, q) == if q in g then None else StoneAt(st, size, q)
      {
        ClearedAt(st, size, g, q);
      }
    }
  }

  /** Emptying one more cell of a cleared board is a single-cell update. */
  lemma {:induction false} ClearedAdd(board: Board, size: nat, A: set<Pos>, q: Pos)
    requires |board| == size * size
    ensures OnBoard(q, size) ==>
      Cleared(board, size, A + {q}) == Cleared(board, size, A)[Index(q, size).value := None]
    ensures !OnBoard(q, size) ==> Cleared(board, size, A + {q}) == Cleared(board, size, A)
  {
    var lhs, rhs := Cleared(board, size, A + {q}), Cleared(board, size, A);
    forall i | 0 <= i < |board|
      ensures size > 0 && (PosAt(i, size) == q <==> OnBoard(q, size) && i == Index(q, size).value)
    {
      PosAtRoundTrip(i, size);
      if OnBoard(q, size) {
        IndexRoundTrip(q, size);
      }
    }
  }

  /** No element of `s` occurs twice. */
  predicate Distinct<T(==)>(s: seq<T>)
  {
    forall i, j :: 0 <= i < j < |s| ==> s[i] != s[j]
  }

  /** The elements of `s`, as a set. */
  function Elements<T>(s: seq<T>): set<T>
  {
    set x | x in s
  }

  /** A sequence without repetitions has as many elements as its set. */
  lemma {:induction false} DistinctCard<T>(s: seq<T>)
    requires Distinct(s)
    ensures |Elements(s)| == |s|
  {
    if s != [] {
      var init := s[..|s| - 1];
      DistinctCard(init);
      assert Elements(s) == Elements(init) + {s[|s| - 1]};
      assert s[|s| - 1] !in Elements(init);
    }
  }

  // ---------------------------------------------------------------------
  // What a placement can change

  /** `after` differs from `before` only by emptied cells, and no tally went down. */
  ghost predicate OnlyRemoves(before: GameState, after: GameState, size: nat)
  {
    && WellSized(before, size) && WellSized(after, size)
    && (forall q :: OnBoard(q, size) ==>
          StoneAt(after, size, q) == StoneAt(before, size, q) || StoneAt(after, size, q) == None)
    && after.white >= before.white && after.black >= before.black
  }

  lemma OnlyRemovesTransitive(a: GameState, b: GameState, c: GameState, size: nat)
    requires OnlyRemoves(a, b, size) && OnlyRemoves(b, c, size)
    ensures OnlyRemoves(a, c, size)
  {
  }

  /**
   * Removing a surrounded group only empties cells holding that group's
   * colour; stones of any other colour stay where they are.
   */
  lemma {:induction false} RemoveGroupOnlyRemoves(st: GameState, size: nat, p: Pos)
    requires WellSized(st, size)
    ensures OnlyRemoves(st, RemoveGroup(st, size, p), size)
    ensures forall q :: OnBoard(q, size) && StoneAt(st, size, p) != StoneAt(st, size, q) ==>
      StoneAt(RemoveGroup(st, size, p), size, q) == StoneAt(st, size, q)
  {
    RemoveGroupEffect(st, size, p);
    SurroundedSpec(st, size, p);
    if Surrounded(st, size, p).Some? {
      var c := Surrounded(st, size, p).value.0;
      assert c.White? || c.Neg().White?;
    }
  }

  /** Running the neighbour loop over `a` and then over `b` is running it over `a + b`. */
  lemma {:induction false} CaptureAllAppend(st: GameState, size: nat, a: seq<Pos>, b: seq<Pos>, opp: Stone)
    requires WellSized(st, size)
    ensures CaptureAll(st, size, a + b, opp) == CaptureAll(CaptureAll(st, size, a, opp), size, b, opp)
    decreases |b|
  {
    if b == [] {
      assert a + b == a;
    } else {
      var b' := b[..|b| - 1];
      assert (a + b)[..|a + b| - 1] == a + b';
      CaptureAllAppend(st, size, a, b', opp);
    }
  }

  /**
   * The opponent-capture loop only empties cells, never touches a stone that
   * is not of colour `opp`, and only ever raises `opp`'s own tally: captured
   * stones are counted for the colour of the group removed.
   */
  lemma {:induction false} CaptureAllSpec(st: GameState, size: nat, ns: seq<Pos>, opp: Stone)
    requires WellSized(st, size)
    ensures var after := CaptureAll(st, size, ns, opp);
      && OnlyRemoves(st, after, size)
      && (forall q :: OnBoard(q, size) && StoneAt(st, size, q) != Some(opp) ==>
            StoneAt(after, size, q) == StoneAt(st, size, q))
      && after.Captures(opp.Neg()) == st.Captures(opp.Neg())
    decreases |ns|
  {
    if ns != [] {
      var prev := CaptureAll(st, size, ns[..|ns| - 1], opp);
      CaptureAllSpec(st, size, ns[..|ns| - 1], opp);
      var q := ns[|ns| - 1];
      if StoneAt(prev, size, q) == Some(opp) {
        RemoveGroupOnlyRemoves(prev, size, q);
        RemoveGroupEffect(prev, size, q);
        SurroundedSpec(prev, size, q);
        OnlyRemovesTransitive(st, prev, CaptureAll(st, size, ns, opp), size);
      }
    }
  }

  /** The number of stones of colour `c` on a board. */
  function Count(board: Board, c: Stone): nat
  {
    multiset(board)[Some(c)]
  }

  /**
   * Emptying a set of cells that all hold colour `c` lowers the count of `c`
   * by the size of the set and leaves the count of the other colour alone.
   */
  lemma {:induction false} ClearedCount(board: Board, size: nat, S: set<Pos>, c: Stone)
    requires |board| == size * size
    requires forall q :: q in S ==> OnBoard(q, size) && board[Index(q, size).value] == Some(c)
    ensures Count(Cleared(board, size, S), c) + |S| == Count(board, c)
    ensures Count(Cleared(board, size, S), c.Neg()) == Count(board, c.Neg())
    decreases S
  {
    if S == {} {
      assert Cleared(board, size, S) == board;
    } else {
      var q :| q in S;
      var rest := S - {q};
      ClearedCount(board, size, rest, c);
      ClearedAdd(board, size, rest, q);
      assert rest + {q} == S;
      var i := Index(q, size).value;
      var before := Cleared(board, size, rest);
      assert before[i] == Some(c) by {
        IndexRoundTrip(q, size);
      }
      CountAfterEmptying(before, i, c);
    }
  }

  /** Emptying one cell that holds `c` lowers the count of `c` by one and no other count. */
  lemma CountAfterEmptying(board: Board, i: nat, c: Stone)
    requires i < |board| && board[i] == Some(c)
    ensures Count(board[i := None], c) + 1 == Count(board, c)
    ensures Count(board[i := None], c.Neg()) == Count(board, c.Neg())
  {
    assert multiset(board[i := None]) == multiset(board) - multiset{Some(c)} + multiset{None};
  }

  /**
   * Removing a group moves its stones from the board into the tally of their
   * own colour: for each colour, stones on the board plus that colour's tally
   * stays the same.
   */
  lemma {:induction false} RemoveGroupConserves(st: GameState, size: nat, p: Pos, x: Stone)
    requires WellSized(st, size)
    ensures var after := RemoveGroup(st, size, p);
      after.Captures(x) + Count(after.board, x) == st.Captures(x) + Count(st.board, x)
  {
    SurroundedSpec(st, size, p);
    if Surrounded(st, size, p).Some? {
      var (c, g) := Surrounded(st, size, p).value;
      ClearedCount(st.board, size, g, c);
      assert x == c || x == c.Neg();
    }
  }

  /** The neighbour loop conserves stones plus tally, colour by colour. */
  lemma {:induction false} CaptureAllConserves(st: GameState, size: nat, ns: seq<Pos>, opp: Stone, x: Stone)
    requires WellSized(st, size)
    ensures var after := CaptureAll(st, size, ns, opp);
      after.Captures(x) + Count(after.board, x) == st.Captures(x) + Count(st.board, x)
    decreases |ns|
  {
    if ns != [] {
      var prev := CaptureAll(st, size, ns[..|ns| - 1], opp);
      CaptureAllConserves(st, size, ns[..|ns| - 1], opp, x);
      RemoveGroupConserves(prev, size, ns[|ns| - 1], x);
    }
  }

  /**
   * The opponent-capture loop of a placement of `c` at `p` never removes the
   * stone just played nor any other stone of colour `c`, and leaves `c`'s
   * tally alone: it only empties cells and only raises the opponent's tally.
   */
  lemma OpponentCapturesSpareMover(st: GameState, size: nat, p: Pos, c: Stone)
    requires WellSized(st, size) && OnBoard(p, size)
    ensures var placed := Placed(st, size, p, c);
      var afterOpp := CaptureAll(placed, size, Neighbors(p, size), c.Neg());
      && StoneAt(afterOpp, size, p) == Some(c)
      && (forall q :: OnBoard(q, size) && StoneAt(st, size, q) == Some(c) ==> StoneAt(afterOpp, size, q) == Some(c))
      && afterOpp.Captures(c) == st.Captures(c)
      && OnlyRemoves(placed, afterOpp, size)
  {
    var placed := Placed(st, size, p, c);
    PlacedAt(st, size, p, c);
    NegInvolutive(c);
    CaptureAllSpec(placed, size, Neighbors(p, size), c.Neg());
  }

  /**
   * A placement of `c` at an empty point: afterwards the placed stone stays
   * exactly when its group has a liberty once the opponent captures are done,
   * and is otherwise removed with its group, whose size goes to `c`'s own
   * tally. Other points only ever lose stones and tallies never go down.
   */
  lemma PlaceAndCaptureSpec(st: GameState, size: nat, p: Pos, c: Stone)
    requires WellSized(st, size) && OnBoard(p, size) && StoneAt(st, size, p) == None
    ensures var afterOpp := CaptureAll(Placed(st, size, p, c), size, Neighbors(p, size), c.Neg());
      var r := PlaceAndCapture(st, size, p, c);
      && (Surrounded(afterOpp, size, p).None? ==> r == afterOpp && StoneAt(r, size, p) == Some(c))
      && (Surrounded(afterOpp, size, p).Some? ==>
            StoneAt(r, size, p) == None
            && (forall x :: x in Surrounded(afterOpp, size, p).value.1 ==> StoneAt(r, size, x) == None)
            && r.Captures(c) == st.Captures(c) + |Surrounded(afterOpp, size, p).value.1|)
      && (forall q :: OnBoard(q, size) && q != p ==>
            StoneAt(r, size, q) == StoneAt(st, size, q) || StoneAt(r, size, q) == None)
      && r.white >= st.white && r.black >= st.black
  {
    var placed := Placed(st, size, p, c);
    var afterOpp := CaptureAll(placed, size, Neighbors(p, size), c.Neg());
    var r := PlaceAndCapture(st, size, p, c);
    assert r == RemoveGroup(afterOpp, size, p);
    OpponentCapturesSpareMover(st, size, p, c);
    PlacedAt(st, size, p, c);
    RemoveGroupOnlyRemoves(afterOpp, size, p);
    RemoveGroupEffect(afterOpp, size, p);
    SurroundedSpec(afterOpp, size, p);
    OnlyRemovesTransitive(placed, afterOpp, r, size);
  }

  /**
   * Every stone is either on the board or in its own colour's tally: a
   * placement adds exactly one stone of colour `c` to that sum and leaves the
   * other colour's sum unchanged.
   */
  lemma PlaceAndCaptureConserves(st: GameState, size: nat, p: Pos, c: Stone)
    requires WellSized(st, size) && OnBoard(p, size) && StoneAt(st, size, p) == None
    ensures var r := PlaceAndCapture(st, size, p, c);
      && r.Captures(c) + Count(r.board, c) == st.Captures(c) + Count(st.board, c) + 1
      && r.Captures(c.Neg()) + Count(r.board, c.Neg()) == st.Captures(c.Neg()) + Count(st.board, c.Neg())
  {
    var placed := Placed(st, size, p, c);
    var ns := Neighbors(p, size);
    var afterOpp := CaptureAll(placed, size, ns, c.Neg());
    assert PlaceAndCapture(st, size, p, c) == RemoveGroup(afterOpp, size, p);
    PlacedCount(st, size, p, c);
    CaptureAllConserves(placed, size, ns, c.Neg(), c);
    CaptureAllConserves(placed, size, ns, c.Neg(), c.Neg());
    RemoveGroupConserves(afterOpp, size, p, c);
    RemoveGroupConserves(afterOpp, size, p, c.Neg());
  }

  /** Putting a stone of colour `c` on an empty point adds one to the count of `c` only. */
  lemma PlacedCount(st: GameState, size: nat, p: Pos, c: Stone)
    requires WellSized(st, size) && OnBoard(p, size) && StoneAt(st, size, p) == None
    ensures Count(Placed(st, size, p, c).board, c) == Count(st.board, c) + 1
    ensures Count(Placed(st, size, p, c).board, c.Neg()) == Count(st.board, c.Neg())
  {
    var i := Index(p, size).value;
    assert multiset(st.board[i := Some(c)]) == multiset(st.board) - multiset{None} + multiset{Some(c)};
  }

  /** Placing a stone fills its own point and no other. */
  lemma PlacedAt(st: GameState, size: nat, p: Pos, c: Stone)
    requires WellSized(st, size) && OnBoard(p, size)
    ensures StoneAt(Placed(st, size, p, c), size, p) == Some(c)
    ensures forall n :: OnBoard(n, size) && n != p ==>
      StoneAt(Placed(st, size, p, c), size, n) == StoneAt(st, size, n)
  {
    forall n | OnBoard(n, size) && n != p
      ensures StoneAt(Placed(st, size, p, c), size, n) == StoneAt(st, size, n)
    {
      IndexRoundTrip(n, size);
      IndexRoundTrip(p, size);
    }
  }

  /** One step of the loop at a stone, or former stone, of colour `opp` ringed by the other colour leaves it empty. */
  lemma StepClearsRingedStone(prev: GameState, size: nat, q: Pos, opp: Stone)
    requires WellSized(prev, size) && OnBoard(q, size)
    requires StoneAt(prev, size, q) == Some(opp) || StoneAt(prev, size, q) == None
    requires forall n :: n in Neighbors(q, size) ==> StoneAt(prev, size, n) == Some(opp.Neg())
    ensures StoneAt(CaptureStep(prev, size, q, opp), size, q) == None
  {
    if StoneAt(prev, size, q) == Some(opp) {
      LoneStoneSurrounded(prev, size, q, opp);
      RemoveGroupEffect(prev, size, q);
    }
  }

  /**
   * In the opponent-capture loop of a placement at `p`, an opponent stone `q`
   * next to `p` whose other neighbours all hold the mover's colour ends up
   * empty.
   */
  lemma LoopEmptiesRingedNeighbor(st: GameState, size: nat, p: Pos, c: Stone, q: Pos)
    requires WellSized(st, size) && OnBoard(p, size)
    requires q in Neighbors(p, size) && StoneAt(st, size, q) == Some(c.Neg())
    requires forall n :: n in Neighbors(q, size) && n != p ==> StoneAt(st, size, n) == Some(c)
    ensures StoneAt(CaptureAll(Placed(st, size, p, c), size, Neighbors(p, size), c.Neg()), size, q) == None
  {
    var placed := Placed(st, size, p, c);
    var ns := Neighbors(p, size);
    var k :| 0 <= k < |ns| && ns[k] == q;
    var prev := CaptureAll(placed, size, ns[..k], c.Neg());
    RingSurvives(st, size, p, c, q, ns[..k]);
    CaptureAllStep(placed, size, ns, k, c.Neg());
    var step := CaptureAll(placed, size, ns[..k + 1], c.Neg());
    StepClearsRingedStone(prev, size, q, c.Neg());
    EmptyAfterPrefix(placed, size, ns, k, c.Neg(), q);
  }

  /** A point emptied within the first `k + 1` steps of the loop is still empty at its end. */
  lemma EmptyAfterPrefix(st: GameState, size: nat, ns: seq<Pos>, k: nat, opp: Stone, q: Pos)
    requires WellSized(st, size) && k < |ns| && OnBoard(q, size)
    requires StoneAt(CaptureAll(st, size, ns[..k + 1], opp), size, q) == None
    ensures StoneAt(CaptureAll(st, size, ns, opp), size, q) == None
  {
    var step := CaptureAll(st, size, ns[..k + 1], opp);
    CaptureAllAppend(st, size, ns[..k + 1], ns[k + 1..], opp);
    assert ns[..k + 1] + ns[k + 1..] == ns;
    CaptureAllKeepsEmpty(step, size, ns[k + 1..], opp, q);
  }

  /**
   * Part way through the opponent-capture loop, the stone `q` next to `p` is
   * still there or already gone, and its neighbours still hold the mover's
   * colour.
   */
  lemma RingSurvives(st: GameState, size: nat, p: Pos, c: Stone, q: Pos, done: seq<Pos>)
    requires WellSized(st, size) && OnBoard(p, size)
    requires q in Neighbors(p, size) && StoneAt(st, size, q) == Some(c.Neg())
    requires forall n :: n in Neighbors(q, size) && n != p ==> StoneAt(st, size, n) == Some(c)
    ensures var prev := CaptureAll(Placed(st, size, p, c), size, done, c.Neg());
      && (StoneAt(prev, size, q) == Some(c.Neg()) || StoneAt(prev, size, q) == None)
      && (forall n :: n in Neighbors(q, size) ==> StoneAt(prev, size, n) == Some(c.Neg().Neg()))
  {
    NegInvolutive(c);
    PlacedAt(st, size, p, c);
    CaptureAllSpec(Placed(st, size, p, c), size, done, c.Neg());
  }

  /** The loop never refills an empty point. */
  lemma CaptureAllKeepsEmpty(st: GameState, size: nat, ns: seq<Pos>, opp: Stone, q: Pos)
    requires WellSized(st, size) && OnBoard(q, size) && StoneAt(st, size, q) == None
    ensures StoneAt(CaptureAll(st, size, ns, opp), size, q) == None
  {
    CaptureAllSpec(st, size, ns, opp);
  }

  /** A stone with an empty on-board neighbour is not surrounded. */
  lemma LibertyMeansNotSurrounded(st: GameState, size: nat, p: Pos, c: Stone, q: Pos)
    requires WellSized(st, size) && StoneAt(st, size, p) == Some(c)
    requires q in Neighbors(p, size) && StoneAt(st, size, q) == None
    ensures Surrounded(st, size, p) == None
  {
    GroupOfSpec(st, size, p, c);
  }

  /**
   * Capturing a lone stone: when `c` plays at `p` next to an opponent stone
   * `q` whose every other on-board neighbour already holds `c`, `q` is
   * removed, and the played stone stays because `q`'s point becomes its
   * liberty (the opponent capture happens before the suicide check).
   */
  lemma LoneStoneCaptured(st: GameState, size: nat, p: Pos, c: Stone, q: Pos)
    requires WellSized(st, size) && OnBoard(p, size) && StoneAt(st, size, p) == None
    requires q in Neighbors(p, size) && StoneAt(st, size, q) == Some(c.Neg())
    requires forall n :: n in Neighbors(q, size) && n != p ==> StoneAt(st, size, n) == Some(c)
    ensures StoneAt(PlaceAndCapture(st, size, p, c), size, q) == None
    ensures StoneAt(PlaceAndCapture(st, size, p, c), size, p) == Some(c)
    ensures PlaceAndCapture(st, size, p, c).Captures(c.Neg()) >= st.Captures(c.Neg()) + 1
  {
    var placed := Placed(st, size, p, c);
    var afterOpp := CaptureAll(placed, size, Neighbors(p, size), c.Neg());
    LoopEmptiesRingedNeighbor(st, size, p, c, q);
    OpponentCapturesSpareMover(st, size, p, c);
    LibertyMeansNotSurrounded(afterOpp, size, p, c, q);
    assert PlaceAndCapture(st, size, p, c) == afterOpp;
    OpponentCapturesExactly(st, size, p, c);
    LoneStoneDoomed(st, size, p, c, q);
  }

  /** The ringed opponent stone next to `p` is among the points the opponent-capture loop removes. */
  lemma LoneStoneDoomed(st: GameState, size: nat, p: Pos, c: Stone, q: Pos)
    requires WellSized(st, size) && OnBoard(p, size)
    requires q in Neighbors(p, size) && StoneAt(st, size, q) == Some(c.Neg())
    requires forall n :: n in Neighbors(q, size) && n != p ==> StoneAt(st, size, n) == Some(c)
    ensures q in Doomed(Placed(st, size, p, c), size, Neighbors(p, size), c.Neg())
  {
    var placed := Placed(st, size, p, c);
    PlacedAt(st, size, p, c);
    NegInvolutive(c);
    LoneStoneSurrounded(placed, size, q, c.Neg());
    assert q in Dead(placed, size, q, c.Neg());
  }

  /** A placement never lowers either capture tally. */
  lemma TalliesNeverDecrease(st: GameState, size: nat, p: Pos, c: Stone)
    requires WellSized(st, size) && OnBoard(p, size) && StoneAt(st, size, p) == None
    ensures var r := PlaceAndCapture(st, size, p, c);
      r.white >= st.white && r.black >= st.black
  {
    PlaceAndCaptureSpec(st, size, p, c);
  }

  // ---------------------------------------------------------------------
  // Which groups the opponent-capture loop removes

  /** Being in the same group is symmetric: `p` is in the group of every member of its own group. */
  lemma GroupSymmetric(st: GameState, size: nat, p: Pos, y: Pos, c: Stone)
    requires WellSized(st, size) && StoneAt(st, size, p) == Some(c)
    requires y in GroupOf(st, size, p, c)
    ensures StoneAt(st, size, y) == Some(c)
    ensures p in GroupOf(st, size, y, c)
  {
    GroupOfSpec(st, size, p, c);
    GroupOfSpec(st, size, y, c);
    var t := GroupOf(st, size, y, c);
    if p !in t {
      var outside := set x | x in Cells(size) && StoneAt(st, size, x) == Some(c) && x !in t;
      forall x, z | x in outside && z in Neighbors(x, size) && StoneAt(st, size, z) == Some(c)
        ensures z in outside
      {
        NeighborsSymmetric(x, z, size);
      }
      assert Closed(st, size, outside, c);
      assert false;
    }
  }

  /** Every member of a group has that same group. */
  lemma SameGroup(st: GameState, size: nat, p: Pos, y: Pos, c: Stone)
    requires WellSized(st, size) && StoneAt(st, size, p) == Some(c)
    requires y in GroupOf(st, size, p, c)
    ensures GroupOf(st, size, y, c) == GroupOf(st, size, p, c)
  {
    GroupSymmetric(st, size, p, y, c);
    GroupOfSpec(st, size, p, c);
    GroupOfSpec(st, size, y, c);
  }

  /** `U` is a union of whole groups of colour `c`. */
  ghost predicate WholeGroups(st: GameState, size: nat, U: set<Pos>, c: Stone)
    requires WellSized(st, size)
  {
    forall x :: x in U ==> StoneAt(st, size, x) == Some(c) && GroupOf(st, size, x, c) <= U
  }

  /** A union of whole groups of colour `c` is closed under same-colour adjacency. */
  lemma WholeGroupsClosed(st: GameState, size: nat, U: set<Pos>, c: Stone)
    requires WellSized(st, size) && WholeGroups(st, size, U, c)
    ensures Closed(st, size, U, c)
  {
    forall x, z | x in U && z in Neighbors(x, size) && StoneAt(st, size, z) == Some(c)
      ensures z in U
    {
      GroupOfSpec(st, size, x, c);
    }
  }

  /**
   * A group of colour `c` that is not part of a union `U` of whole groups of
   * that colour shares no point with `U` and has no neighbour in it: distinct
   * groups of one colour are never adjacent.
   */
  lemma GroupApart(st: GameState, size: nat, U: set<Pos>, c: Stone, y: Pos)
    requires WellSized(st, size) && WholeGroups(st, size, U, c)
    requires StoneAt(st, size, y) == Some(c) && y !in U
    ensures forall x :: x in GroupOf(st, size, y, c) ==> x !in U
    ensures forall x, z :: x in GroupOf(st, size, y, c) && z in Neighbors(x, size) ==> z !in U
  {
    var g := GroupOf(st, size, y, c);
    GroupOfSpec(st, size, y, c);
    forall x | x in g ensures x !in U {
      GroupSymmetric(st, size, y, x, c);
    }
    WholeGroupsClosed(st, size, U, c);
    forall x, z | x in g && z in Neighbors(x, size) ensures z !in U {
      NeighborsSymmetric(x, z, size);
    }
  }

  /** Reading a board from which `U` has been emptied. */
  lemma ClearedReads(st: GameState, size: nat, U: set<Pos>, after: GameState)
    requires WellSized(st, size) && after.board == Cleared(st.board, size, U)
    ensures WellSized(after, size)
    ensures forall z :: OnBoard(z, size) ==> StoneAt(after, size, z) == if z in U then None else StoneAt(st, size, z)
  {
    forall z | OnBoard(z, size)
      ensures StoneAt(after, size, z) == if z in U then None else StoneAt(st, size, z)
    {
      ClearedAt(st, size, U, z);
    }
  }

  /** A set closed on the board with `U` emptied is, together with `U`, closed on the original board. */
  lemma ClosedWithCleared(st: GameState, size: nat, U: set<Pos>, c: Stone, after: GameState, S: set<Pos>)
    requires WellSized(st, size) && after.board == Cleared(st.board, size, U)
    requires WholeGroups(st, size, U, c)
    requires Closed(after, size, S, c)
    ensures Closed(st, size, S + U, c)
  {
    ClearedReads(st, size, U, after);
    WholeGroupsClosed(st, size, U, c);
    forall x, z | x in S + U && z in Neighbors(x, size) && StoneAt(st, size, z) == Some(c)
      ensures z in S + U
    {
      if z !in U {
        assert StoneAt(after, size, z) == Some(c);
      }
    }
  }

  /** A group of colour `c` apart from `U` stays closed once `U` is emptied. */
  lemma GroupClosedAfterClearing(st: GameState, size: nat, U: set<Pos>, c: Stone, y: Pos, after: GameState)
    requires WellSized(st, size) && after.board == Cleared(st.board, size, U)
    requires WholeGroups(st, size, U, c)
    requires StoneAt(st, size, y) == Some(c) && y !in U
    ensures WellSized(after, size)
    ensures Closed(after, size, GroupOf(st, size, y, c), c)
  {
    var g := GroupOf(st, size, y, c);
    GroupOfSpec(st, size, y, c);
    GroupApart(st, size, U, c, y);
    ClearedReads(st, size, U, after);
    forall x, z | x in g && z in Neighbors(x, size) && StoneAt(after, size, z) == Some(c)
      ensures z in g
    {
    }
  }

  /** ... and lies inside every set around `y` that is closed once `U` is emptied. */
  lemma GroupLeastAfterClearing(st: GameState, size: nat, U: set<Pos>, c: Stone, y: Pos, after: GameState, S: set<Pos>)
    requires WellSized(st, size) && after.board == Cleared(st.board, size, U)
    requires WholeGroups(st, size, U, c)
    requires StoneAt(st, size, y) == Some(c) && y !in U
    requires Closed(after, size, S, c) && y in S
    ensures GroupOf(st, size, y, c) <= S
  {
    GroupOfSpec(st, size, y, c);
    GroupApart(st, size, U, c, y);
    ClosedWithCleared(st, size, U, c, after, S);
  }

  /**
   * Emptying a union `U` of whole groups of colour `c` leaves the group of
   * every other stone of colour `c` as it was.
   */
  lemma {:induction false} ClearedKeepsGroup(st: GameState, size: nat, U: set<Pos>, c: Stone, y: Pos, after: GameState)
    requires WellSized(st, size) && after.board == Cleared(st.board, size, U)
    requires WholeGroups(st, size, U, c)
    requires StoneAt(st, size, y) == Some(c) && y !in U
    ensures WellSized(after, size)
    ensures GroupOf(after, size, y, c) == GroupOf(st, size, y, c)
  {
    var g := GroupOf(st, size, y, c);
    GroupOfSpec(st, size, y, c);
    ClearedReads(st, size, U, after);
    GroupClosedAfterClearing(st, size, U, c, y, after);
    forall S | Closed(after, size, S, c) && y in S ensures g <= S {
      GroupLeastAfterClearing(st, size, U, c, y, after, S);
    }
    LeastClosedIsGroup(after, size, y, c, g);
  }

  /**
   * ... and with the same liberties: whether it is surrounded does not
   * change.
   */
  lemma {:induction false} ClearedKeepsSurrounded(st: GameState, size: nat, U: set<Pos>, c: Stone, y: Pos, after: GameState)
    requires WellSized(st, size) && after.board == Cleared(st.board, size, U)
    requires WholeGroups(st, size, U, c)
    requires StoneAt(st, size, y) == Some(c) && y !in U
    ensures WellSized(after, size)
    ensures Surrounded(after, size, y) == Surrounded(st, size, y)
  {
    var g := GroupOf(st, size, y, c);
    ClearedKeepsGroup(st, size, U, c, y, after);
    GroupApart(st, size, U, c, y);
    ClearedReads(st, size, U, after);
    assert NoLiberties(after, size, g) <==> NoLiberties(st, size, g) by {
      forall x, z | x in g && z in Neighbors(x, size)
        ensures StoneAt(after, size, z) == StoneAt(st, size, z)
      {
      }
    }
  }

  /** Emptying `A` and then `B` empties `A + B`. */
  lemma ClearedTwice(board: Board, size: nat, A: set<Pos>, B: set<Pos>)
    ensures Cleared(Cleared(board, size, A), size, B) == Cleared(board, size, A + B)
  {
  }

  /** The group the loop removes at `q`: the group of `q` if it holds `opp` and has no liberty, else nothing. */
  ghost function Dead(st: GameState, size: nat, q: Pos, opp: Stone): set<Pos>
    requires WellSized(st, size)
  {
    if StoneAt(st, size, q) == Some(opp) && Surrounded(st, size, q).Some? then Surrounded(st, size, q).value.1 else {}
  }

  /**
   * The points the neighbour loop over `ns` removes, read off the board
   * before the loop starts: the union, over the points `q` of `ns` that hold
   * `opp` and are surrounded, of the group of `q`.
   */
  ghost function Doomed(st: GameState, size: nat, ns: seq<Pos>, opp: Stone): set<Pos>
    requires WellSized(st, size)
  {
    set q, x | q in ns && x in Dead(st, size, q, opp) :: x
  }

  lemma DoomedSnoc(st: GameState, size: nat, ns: seq<Pos>, opp: Stone)
    requires WellSized(st, size) && ns != []
    ensures Doomed(st, size, ns, opp)
         == Doomed(st, size, ns[..|ns| - 1], opp) + Dead(st, size, ns[|ns| - 1], opp)
  {
    var init, q := ns[..|ns| - 1], ns[|ns| - 1];
    assert ns == init + [q];
    forall x | x in Dead(st, size, q, opp) ensures x in Doomed(st, size, ns, opp) {
      assert q in ns;
    }
    forall x | x in Doomed(st, size, init, opp) ensures x in Doomed(st, size, ns, opp) {
      var q' :| q' in init && x in Dead(st, size, q', opp);
      assert q' in ns;
    }
  }

  /**
   * `r` is `st` with exactly the whole groups `D` of colour `opp` emptied and
   * their size credited to `opp`'s tally.
   */
  ghost predicate RemovedExactly(st: GameState, size: nat, D: set<Pos>, opp: Stone, r: GameState)
    requires WellSized(st, size)
  {
    && WholeGroups(st, size, D, opp)
    && r == st.(board := Cleared(st.board, size, D)).Credit(opp, |D|)
  }

  /** Adding the group of a stone of colour `opp` to a union of whole groups gives one again. */
  lemma WholeGroupsAdd(st: GameState, size: nat, D: set<Pos>, opp: Stone, q: Pos)
    requires WellSized(st, size) && WholeGroups(st, size, D, opp) && StoneAt(st, size, q) == Some(opp)
    ensures WholeGroups(st, size, D + GroupOf(st, size, q, opp), opp)
  {
    var g := GroupOf(st, size, q, opp);
    forall x | x in g ensures StoneAt(st, size, x) == Some(opp) && GroupOf(st, size, x, opp) == g {
      GroupSymmetric(st, size, q, x, opp);
      SameGroup(st, size, q, x, opp);
    }
  }

  /**
   * A step at a point that does not hold `opp`, or whose group is already
   * gone, changes nothing and adds nothing to what is removed.
   */
  lemma StepSkips(st: GameState, size: nat, D: set<Pos>, opp: Stone, prev: GameState, q: Pos)
    requires WellSized(st, size) && RemovedExactly(st, size, D, opp, prev)
    requires StoneAt(st, size, q) != Some(opp) || q in D
    ensures WellSized(prev, size)
    ensures Dead(st, size, q, opp) <= D
    ensures CaptureStep(prev, size, q, opp) == prev
  {
    if StoneAt(st, size, q) == Some(opp) {
      SurroundedSpec(st, size, q);
    }
    if OnBoard(q, size) {
      ClearedAt(st, size, D, q);
    }
  }

  /** Removing one more surrounded group `g`, apart from `D`, removes `D + g`. */
  lemma RemoveOneMore(st: GameState, size: nat, D: set<Pos>, opp: Stone, prev: GameState, g: set<Pos>)
    requires WellSized(st, size)
    requires prev == st.(board := Cleared(st.board, size, D)).Credit(opp, |D|)
    requires D * g == {}
    ensures prev.(board := Cleared(prev.board, size, g)).Credit(opp, |g|)
         == st.(board := Cleared(st.board, size, D + g)).Credit(opp, |D + g|)
  {
    ClearedTwice(st.board, size, D, g);
    assert |D + g| == |D| + |g|;
  }

  /**
   * A step at a stone of colour `opp` whose group is not yet removed removes
   * that group exactly when it was surrounded before the loop began.
   */
  lemma StepCaptures(st: GameState, size: nat, D: set<Pos>, opp: Stone, prev: GameState, q: Pos)
    requires WellSized(st, size) && RemovedExactly(st, size, D, opp, prev)
    requires StoneAt(st, size, q) == Some(opp) && q !in D
    ensures WellSized(prev, size)
    ensures RemovedExactly(st, size, D + Dead(st, size, q, opp), opp, CaptureStep(prev, size, q, opp))
  {
    ClearedKeepsSurrounded(st, size, D, opp, q, prev);
    ClearedAt(st, size, D, q);
    SurroundedSpec(st, size, q);
    if Surrounded(st, size, q).Some? {
      var g := Surrounded(st, size, q).value.1;
      GroupApart(st, size, D, opp, q);
      WholeGroupsAdd(st, size, D, opp, q);
      RemoveOneMore(st, size, D, opp, prev, g);
    } else {
      assert D + Dead(st, size, q, opp) == D;
    }
  }

  /**
   * The neighbour loop over `ns` removes exactly the groups of colour `opp`
   * at points of `ns` that had no liberty before it started, and credits
   * their total size to `opp`'s tally: removing one such group never gives
   * another one a liberty, so the order of the loop does not matter.
   */
  lemma {:induction false} CaptureAllRemovesDoomed(st: GameState, size: nat, ns: seq<Pos>, opp: Stone)
    requires WellSized(st, size)
    ensures WholeGroups(st, size, Doomed(st, size, ns, opp), opp)
    ensures var D := Doomed(st, size, ns, opp);
      CaptureAll(st, size, ns, opp) == st.(board := Cleared(st.board, size, D)).Credit(opp, |D|)
    decreases |ns|
  {
    var D := Doomed(st, size, ns, opp);
    if ns == [] {
      assert D == {};
      assert Cleared(st.board, size, D) == st.board;
    } else {
      var init, q := ns[..|ns| - 1], ns[|ns| - 1];
      CaptureAllRemovesDoomed(st, size, init, opp);
      DoomedSnoc(st, size, ns, opp);
      var D0 := Doomed(st, size, init, opp);
      var prev := CaptureAll(st, size, init, opp);
      assert RemovedExactly(st, size, D0, opp, prev);
      if StoneAt(st, size, q) == Some(opp) && q !in D0 {
        StepCaptures(st, size, D0, opp, prev, q);
      } else {
        StepSkips(st, size, D0, opp, prev, q);
        assert D == D0;
      }
    }
  }

  /**
   * The opponent captures of a placement of `c` at `p`: the points emptied
   * are exactly the groups of the other colour next to `p` that have no
   * liberty once the stone is down, every other point keeps its occupant,
   * and the other colour's tally rises by the number of stones removed.
   */
  lemma OpponentCapturesExactly(st: GameState, size: nat, p: Pos, c: Stone)
    requires WellSized(st, size) && OnBoard(p, size)
    ensures var placed := Placed(st, size, p, c);
      var afterOpp := CaptureAll(placed, size, Neighbors(p, size), c.Neg());
      var U := Doomed(placed, size, Neighbors(p, size), c.Neg());
      && (forall x :: x in U ==> OnBoard(x, size) && StoneAt(placed, size, x) == Some(c.Neg()))
      && (forall x :: OnBoard(x, size) ==>
            StoneAt(afterOpp, size, x) == if x in U then None else StoneAt(placed, size, x))
      && afterOpp.Captures(c.Neg()) == st.Captures(c.Neg()) + |U|
      && afterOpp.Captures(c) == st.Captures(c)
  {
    var placed := Placed(st, size, p, c);
    var ns := Neighbors(p, size);
    var U := Doomed(placed, size, ns, c.Neg());
    CaptureAllRemovesDoomed(placed, size, ns, c.Neg());
    forall x | x in U ensures OnBoard(x, size) {
      GroupOfSpec(placed, size, x, c.Neg());
    }
    forall x | OnBoard(x, size)
      ensures StoneAt(CaptureAll(placed, size, ns, c.Neg()), size, x) == if x in U then None else StoneAt(placed, size, x)
    {
      ClearedAt(placed, size, U, x);
    }
  }
}
