/**
 * Grid positions and bounds (the `Pos` type of src/game.rs).
 * A position is a (column, row) pair that is only meaningful once it has been
 * checked against a board size; the board is stored row-major.
 */
module Position {
  import opened Options

  /** Column `x`, row `y`; unvalidated, so either may be negative. */
  datatype Pos = Pos(x: int, y: int)

  /** `Pos::valid`: both coordinates lie in [0, size). */
  predicate OnBoard(p: Pos, size: nat)
  {
    0 <= p.x < size && 0 <= p.y < size
  }

  /** `Pos::and_valid`: the position itself when it is on the board. */
  function AndValid(p: Pos, size: nat): (r: Option<Pos>)
    ensures r.Some? <==> OnBoard(p, size)
    ensures r.Some? ==> r.value == p
  {
    if OnBoard(p, size) then Some(p) else None
  }

  /** `Pos::index`: the row-major offset of an on-board position. */
  function Index(p: Pos, size: nat): (r: Option<nat>)
    ensures r.Some? <==> OnBoard(p, size)
    ensures r.Some? ==> r.value < size * size
  {
    if OnBoard(p, size) then
      BelowArea(p, size);
      Some(p.y * size + p.x)
    else
      None
  }

  lemma BelowArea(p: Pos, size: nat)
    requires OnBoard(p, size)
    ensures p.y * size + p.x < size * size
  {
    var rest := size - 1 - p.y;
    MulNonNegative(rest, size);
    assert size * size == (p.y + rest + 1) * size;
    assert (p.y + rest + 1) * size == p.y * size + rest * size + size;
  }

  lemma MulNonNegative(a: nat, b: nat)
    ensures a * b >= 0
  {
  }

  /** The position stored at row-major offset `i` (inverse of Index). */
  function PosAt(i: nat, size: nat): Pos
    requires size > 0
  {
    Pos(i % size, i / size)
  }

  lemma MulAtLeast(a: int, size: nat)
    requires a >= 1
    ensures a * size >= size
  {
  }

  /** Indexing a valid position and reading the position back is the identity. */
  lemma {:induction false} IndexRoundTrip(p: Pos, size: nat)
    requires OnBoard(p, size)
    ensures size > 0 && Index(p, size).Some? && PosAt(Index(p, size).value, size) == p
  {
    var i := p.y * size + p.x;
    var q, r := i / size, i % size;
    assert i == q * size + r;
    assert (q - p.y) * size == p.x - r;
    if q > p.y {
      MulAtLeast(q - p.y, size);
    } else if q < p.y {
      MulAtLeast(p.y - q, size);
    }
  }

  /** Every offset below the board area names a valid position whose index it is. */
  lemma {:induction false} PosAtRoundTrip(i: nat, size: nat)
    requires i < size * size
    ensures size > 0 && OnBoard(PosAt(i, size), size) && Index(PosAt(i, size), size) == Some(i)
  {
    assert size > 0;
    var row, col := i / size, i % size;
    assert i == row * size + col;
    if row >= size {
      MulMonotone(size, row, size);
      assert false;
    }
  }

  lemma MulMonotone(a: int, b: int, size: nat)
    requires a <= b
    ensures a * size <= b * size
  {
    MulNonNegative(b - a, size);
    assert b * size - a * size == (b - a) * size;
  }

  /** Row-major indexing never sends two valid positions to the same offset. */
  lemma IndexInjective(p: Pos, q: Pos, size: nat)
    requires OnBoard(p, size) && OnBoard(q, size)
    requires Index(p, size) == Index(q, size)
    ensures p == q
  {
    IndexRoundTrip(p, size);
    IndexRoundTrip(q, size);
  }

  function Abs(n: int): nat
  {
    if n < 0 then -n else n
  }

  /** Orthogonal adjacency: Manhattan distance exactly 1. */
  predicate Adjacent(p: Pos, q: Pos)
  {
    Abs(p.x - q.x) + Abs(p.y - q.y) == 1
  }

  /** Where `q` lies relative to its neighbour `p`: 0 left, 1 right, 2 up, 3 down. */
  function Direction(p: Pos, q: Pos): nat
  {
    if q.x < p.x then 0 else if q.x > p.x then 1 else if q.y < p.y then 2 else 3
  }

  /** The elements of `s` lie in strictly increasing direction from `p`. */
  predicate OrderedAround(p: Pos, s: seq<Pos>)
  {
    forall i, j :: 0 <= i < j < |s| ==> Direction(p, s[i]) < Direction(p, s[j])
  }

  /** The four orthogonal candidates, in the order left, right, up, down. */
  function Candidates(p: Pos): (r: seq<Pos>)
    ensures forall q :: q in r <==> Adjacent(p, q)
    ensures OrderedAround(p, r)
  {
    [Pos(p.x - 1, p.y), Pos(p.x + 1, p.y), Pos(p.x, p.y - 1), Pos(p.x, p.y + 1)]
  }

  /** The `filter(valid)` step: the on-board elements of `cs`, in their order. */
  function KeepValid(cs: seq<Pos>, size: nat): (r: seq<Pos>)
    ensures |r| <= |cs|
    ensures forall q :: q in r <==> q in cs && OnBoard(q, size)
  {
    if cs == [] then []
    else if OnBoard(cs[0], size) then [cs[0]] + KeepValid(cs[1..], size)
    else KeepValid(cs[1..], size)
  }

  /** Filtering keeps a sequence that is strictly ordered by direction from `p` ordered. */
  lemma {:induction false} KeepValidOrdered(p: Pos, cs: seq<Pos>, size: nat)
    requires OrderedAround(p, cs)
    ensures OrderedAround(p, KeepValid(cs, size))
  {
    if cs != [] {
      var tail := cs[1..];
      assert OrderedAround(p, tail);
      KeepValidOrdered(p, tail, size);
      var rest := KeepValid(tail, size);
      if OnBoard(cs[0], size) {
        forall q | q in rest
          ensures Direction(p, cs[0]) < Direction(p, q)
        {
          var k :| 0 <= k < |tail| && tail[k] == q;
          assert cs[k + 1] == q;
        }
        OrderedCons(p, cs[0], rest);
      }
    }
  }

  /** Putting in front an element of smaller direction than all others keeps the order. */
  lemma OrderedCons(p: Pos, x: Pos, rest: seq<Pos>)
    requires OrderedAround(p, rest)
    requires forall q :: q in rest ==> Direction(p, x) < Direction(p, q)
    ensures OrderedAround(p, [x] + rest)
  {
    var r := [x] + rest;
    forall i, j | 0 <= i < j < |r|
      ensures Direction(p, r[i]) < Direction(p, r[j])
    {
      assert r[j] == rest[j - 1];
      if i > 0 {
        assert r[i] == rest[i - 1];
      }
    }
  }

  /**
   * `Pos::neighbors`: the on-board orthogonal neighbours, in the fixed order
   * left, right, up, down.
   */
  function Neighbors(p: Pos, size: nat): (r: seq<Pos>)
    ensures |r| <= 4
    ensures forall q :: q in r <==> OnBoard(q, size) && Adjacent(p, q)
    ensures OrderedAround(p, r)
  {
    KeepValidOrdered(p, Candidates(p), size);
    KeepValid(Candidates(p), size)
  }

  /** Adjacency on the board is symmetric: `x` is among the neighbours of each of its neighbours. */
  lemma NeighborsSymmetric(x: Pos, z: Pos, size: nat)
    requires OnBoard(x, size) && z in Neighbors(x, size)
    ensures x in Neighbors(z, size)
  {
  }
}
