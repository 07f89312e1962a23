/** The table of a puzzle and the specifications of the three lookups the
    search makes on it: a bounds-checked cell comparison, every cell holding a
    symbol, and the matching cells around a position. */
module Grids {
  import opened Positions
  import opened Seqs

  /** The cells of a puzzle, row by row. The constructor reads the length of the
      first row, so there is at least one; every row is as long as the first. */
  type Table = t: seq<seq<string>> | |t| >= 1 && forall i :: 0 <= i < |t| ==> |t[i]| == |t[0]|
    witness [[]]

  function NRows(g: Table): nat { |g| }

  function NColumns(g: Table): nat { |g[0]| }

  predicate InBounds(g: Table, p: Position) {
    0 <= p.row < NRows(g) && 0 <= p.column < NColumns(g)
  }

  function Cell(g: Table, p: Position): string
    requires InBounds(g, p)
  {
    g[p.row][p.column]
  }

  /** The cell at p exists and holds exactly the string s. */
  predicate Matches(g: Table, p: Position, s: string) {
    InBounds(g, p) && Cell(g, p) == s
  }

  // ---------------------------------------------------------------------------
  // Adjacency

  function Abs(x: int): nat {
    if x < 0 then -x else x
  }

  function Max(x: nat, y: nat): nat {
    if x < y then y else x
  }

  /** max(|row difference|, |column difference|). */
  function Chebyshev(p: Position, q: Position): nat {
    Max(Abs(q.row - p.row), Abs(q.column - p.column))
  }

  /** King-move adjacency, which includes a position and itself. */
  predicate Adjacent(p: Position, q: Position) {
    Chebyshev(p, q) <= 1
  }

  /** The relative positions findValidNeighbors tries, in its order: the
      position itself first, then the four sides, then the four corners. */
  const Offsets: seq<(int, int)> :=
    [(0, 0), (-1, 0), (1, 0), (0, -1), (0, 1), (-1, -1), (-1, 1), (1, -1), (1, 1)]

  function Shift(p: Position, off: (int, int)): Position {
    Position(p.row + off.0, p.column + off.1)
  }

  function Delta(p: Position, q: Position): (int, int) {
    (q.row - p.row, q.column - p.column)
  }

  lemma OffsetsDistinct()
    ensures forall a, b :: 0 <= a < b < |Offsets| ==> Offsets[a] != Offsets[b]
  {
  }

  /** Every offset of at most one step in each direction is in the table. */
  lemma OffsetsCover(d: (int, int))
    requires Abs(d.0) <= 1 && Abs(d.1) <= 1
    ensures d in Offsets
  {
    if d.0 == 0 {
      if d.1 == 0 { assert d == Offsets[0]; }
      else if d.1 == -1 { assert d == Offsets[3]; }
      else { assert d == Offsets[4]; }
    } else if d.0 == -1 {
      if d.1 == 0 { assert d == Offsets[1]; }
      else if d.1 == -1 { assert d == Offsets[5]; }
      else { assert d == Offsets[6]; }
    } else {
      if d.1 == 0 { assert d == Offsets[2]; }
      else if d.1 == -1 { assert d == Offsets[7]; }
      else { assert d == Offsets[8]; }
    }
  }

  // ---------------------------------------------------------------------------
  // findValidNeighbors, as a specification

  /** The positions findValidNeighbors has pushed after trying the first k
      offsets: the shifted positions whose cell holds s, in offset order. */
  function NeighborsUpTo(g: Table, pos: Position, s: string, k: nat): (r: seq<Position>)
    requires k <= |Offsets|
    ensures forall q :: q in r ==> InBounds(g, q)
  {
    if k == 0 then []
    else
      var q := Shift(pos, Offsets[k - 1]);
      var before := NeighborsUpTo(g, pos, s, k - 1);
      if Matches(g, q, s) then before + [q] else before
  }

  /** After k offsets: at most k positions, none twice, and exactly the cells
      holding s whose offset from pos is among the first k. */
  lemma {:induction false} NeighborsUpToExactly(g: Table, pos: Position, s: string, k: nat)
    requires k <= |Offsets|
    ensures var r := NeighborsUpTo(g, pos, s, k);
            && |r| <= k
            && (forall q :: q in r <==> Matches(g, q, s) && Delta(pos, q) in Offsets[..k])
            && NoDup(r)
  {
    if k > 0 {
      NeighborsUpToExactly(g, pos, s, k - 1);
      var q, before := Shift(pos, Offsets[k - 1]), NeighborsUpTo(g, pos, s, k - 1);
      assert Offsets[..k] == Offsets[..k - 1] + [Offsets[k - 1]];
      assert forall p :: Delta(pos, p) == Offsets[k - 1] <==> p == q;
      if Matches(g, q, s) {
        OffsetsDistinct();
        assert Offsets[k - 1] !in Offsets[..k - 1];
        assert q !in before;
        NoDupConcat(before, [q]);
      }
    }
  }

  /** Trying offset k pushes the shifted position when its cell holds s. */
  lemma NeighborsUpToNext(g: Table, pos: Position, s: string, k: nat)
    requires k < |Offsets|
    ensures Matches(g, Shift(pos, Offsets[k]), s) ==>
              NeighborsUpTo(g, pos, s, k + 1) == NeighborsUpTo(g, pos, s, k) + [Shift(pos, Offsets[k])]
    ensures !Matches(g, Shift(pos, Offsets[k]), s) ==>
              NeighborsUpTo(g, pos, s, k + 1) == NeighborsUpTo(g, pos, s, k)
  {
  }

  function Neighbors(g: Table, pos: Position, s: string): seq<Position> {
    NeighborsUpTo(g, pos, s, |Offsets|)
  }

  /** A position is among the neighbours of pos for s exactly when it is in
      bounds, holds s and is at king-move distance at most one from pos. */
  lemma NeighborsExactly(g: Table, pos: Position, s: string, q: Position)
    ensures q in Neighbors(g, pos, s) <==> Matches(g, q, s) && Adjacent(pos, q)
  {
    NeighborsUpToExactly(g, pos, s, |Offsets|);
    assert Offsets[..|Offsets|] == Offsets;
    if Matches(g, q, s) && Adjacent(pos, q) {
      OffsetsCover(Delta(pos, q));
    }
  }

  /** Because the offset table starts with (0, 0), a position is its own
      neighbour whenever its own cell holds s. */
  lemma NeighborsIncludeSelf(g: Table, pos: Position, s: string)
    ensures pos in Neighbors(g, pos, s) <==> Matches(g, pos, s)
  {
    NeighborsExactly(g, pos, s, pos);
  }

  /** At most nine neighbours, none of them twice. */
  lemma NeighborsAtMostNine(g: Table, pos: Position, s: string)
    ensures |Neighbors(g, pos, s)| <= 9 && NoDup(Neighbors(g, pos, s))
  {
    NeighborsUpToExactly(g, pos, s, |Offsets|);
  }

  // ---------------------------------------------------------------------------
  // findAllOccurrencesOfCharacter, as a specification

  /** p is visited before q by a row-by-row, left-to-right scan. */
  predicate RowMajorBefore(p: Position, q: Position) {
    p.row < q.row || (p.row == q.row && p.column < q.column)
  }

  predicate RowMajorIncreasing(s: seq<Position>) {
    forall a, b :: 0 <= a < b < |s| ==> RowMajorBefore(s[a], s[b])
  }

  lemma RowMajorIncreasingNoDup(s: seq<Position>)
    requires RowMajorIncreasing(s)
    ensures NoDup(s)
  {
  }

  /** Two increasing scans, the first wholly before the second, make one. */
  lemma RowMajorIncreasingConcat(a: seq<Position>, b: seq<Position>)
    requires RowMajorIncreasing(a) && RowMajorIncreasing(b)
    requires forall x, y :: x in a && y in b ==> RowMajorBefore(x, y)
    ensures RowMajorIncreasing(a + b)
  {
    var c := a + b;
    forall i, j | 0 <= i < j < |c|
      ensures RowMajorBefore(c[i], c[j])
    {
      if j < |a| {
        assert c[i] == a[i] && c[j] == a[j];
      } else if i < |a| {
        assert c[i] == a[i] && c[j] == b[j - |a|];
        assert c[i] in a && c[j] in b;
      } else {
        assert c[i] == b[i - |a|] && c[j] == b[j - |a|];
      }
    }
  }

  /** The cells of row i left of column j that hold s, left to right. */
  function RowOccurrences(g: Table, s: string, i: nat, j: nat): seq<Position>
    requires i < NRows(g) && j <= NColumns(g)
  {
    if j == 0 then []
    else
      var q := Position(i, j - 1);
      var before := RowOccurrences(g, s, i, j - 1);
      if Matches(g, q, s) then before + [q] else before
  }

  lemma {:induction false} RowOccurrencesExactly(g: Table, s: string, i: nat, j: nat)
    requires i < NRows(g) && j <= NColumns(g)
    ensures var r := RowOccurrences(g, s, i, j);
            && (forall q :: q in r <==> Matches(g, q, s) && q.row == i && q.column < j)
            && RowMajorIncreasing(r)
  {
    if j > 0 {
      RowOccurrencesExactly(g, s, i, j - 1);
      var a, q := RowOccurrences(g, s, i, j - 1), Position(i, j - 1);
      if Matches(g, q, s) {
        RowMajorIncreasingConcat(a, [q]);
      }
    }
  }

  /** The cells of the rows above row i that hold s, in row-major order. */
  function OccurrencesAbove(g: Table, s: string, i: nat): seq<Position>
    requires i <= NRows(g)
  {
    if i == 0 then [] else OccurrencesAbove(g, s, i - 1) + RowOccurrences(g, s, i - 1, NColumns(g))
  }

  lemma {:induction false} OccurrencesAboveExactly(g: Table, s: string, i: nat)
    requires i <= NRows(g)
    ensures var r := OccurrencesAbove(g, s, i);
            && (forall q :: q in r <==> Matches(g, q, s) && q.row < i)
            && RowMajorIncreasing(r)
  {
    if i > 0 {
      OccurrencesAboveExactly(g, s, i - 1);
      RowOccurrencesExactly(g, s, i - 1, NColumns(g));
      var a, b := OccurrencesAbove(g, s, i - 1), RowOccurrences(g, s, i - 1, NColumns(g));
      assert OccurrencesAbove(g, s, i) == a + b;
      RowsAboveThenRow(g, s, i - 1, a, b);
    }
  }

  /** The cells above row i followed by those of row i are the cells above
      row i + 1, still in row-major order. */
  lemma RowsAboveThenRow(g: Table, s: string, i: nat, a: seq<Position>, b: seq<Position>)
    requires forall q :: q in a <==> Matches(g, q, s) && q.row < i
    requires forall q :: q in b <==> Matches(g, q, s) && q.row == i && q.column < NColumns(g)
    requires RowMajorIncreasing(a) && RowMajorIncreasing(b)
    ensures forall q :: q in a + b <==> Matches(g, q, s) && q.row < i + 1
    ensures RowMajorIncreasing(a + b)
  {
    forall x, y | x in a && y in b
      ensures RowMajorBefore(x, y)
    {
    }
    RowMajorIncreasingConcat(a, b);
  }

  /** The cells holding s, in row-major order. */
  function Occurrences(g: Table, s: string): (r: seq<Position>)
    ensures forall q :: q in r ==> Matches(g, q, s)
  {
    OccurrencesAboveExactly(g, s, NRows(g));
    OccurrencesAbove(g, s, NRows(g))
  }

  /** The occurrences are exactly the cells holding s, each once, in row-major order. */
  lemma OccurrencesExactly(g: Table, s: string)
    ensures forall q :: q in Occurrences(g, s) <==> Matches(g, q, s)
    ensures RowMajorIncreasing(Occurrences(g, s)) && NoDup(Occurrences(g, s))
  {
    OccurrencesAboveExactly(g, s, NRows(g));
    RowMajorIncreasingNoDup(Occurrences(g, s));
  }
}
