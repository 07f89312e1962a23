/** What the backtracking search accepts, as functions: the deques at which
    computeTreeOfWords has validateWord succeed, in the order it reaches them,
    and the theorem that from one start cell these are exactly the king-move
    paths that spell the word, each once. */
module SearchSpec {
  import opened Positions
  import opened Seqs
  import opened Grids

  predicate AllInBounds(g: Table, d: seq<Position>) {
    forall k :: 0 <= k < |d| ==> InBounds(g, d[k])
  }

  /** The cells at d concatenated front to back: the word validateWord builds. */
  function Spelled(g: Table, d: seq<Position>): string
    requires AllInBounds(g, d)
  {
    if d == [] then "" else Spelled(g, d[..|d| - 1]) + Cell(g, d[|d| - 1])
  }

  /** d is the start of a way to spell w: the cell at d[k] is the one-symbol
      string w[k], and consecutive positions are king-move adjacent (staying on
      the same cell included). */
  predicate ValidPrefix(g: Table, w: string, d: seq<Position>) {
    && |d| <= |w|
    && (forall k :: 0 <= k < |d| ==> Matches(g, d[k], [w[k]]))
    && (forall k :: 0 < k < |d| ==> Adjacent(d[k - 1], d[k]))
  }

  /** A complete way to spell w. */
  predicate ValidPath(g: Table, w: string, p: seq<Position>) {
    |p| == |w| && ValidPrefix(g, w, p)
  }

  /** What validateWord accepts at d itself: d, when it is as long as w and
      its cells spell w. */
  function Accepted(g: Table, w: string, d: seq<Position>): seq<seq<Position>>
    requires AllInBounds(g, d)
  {
    if |d| == |w| && Spelled(g, d) == w then [d] else []
  }

  /** The deques at which computeTreeOfWords(d, w, i) has validateWord accept,
      in the order it reaches them: d itself when it is as long as w and spells
      it, then, unless i == |w|, what each neighbour of the last position that
      holds w[i] leads to, in the order the neighbour stack pops them. */
  function Found(g: Table, w: string, d: seq<Position>, i: nat): seq<seq<Position>>
    requires d != [] && AllInBounds(g, d) && i <= |w|
    decreases |w| - i, 1
  {
    Accepted(g, w, d) + (if i == |w| then [] else FoundAmong(g, w, d, i, Neighbors(g, d[|d| - 1], [w[i]])))
  }

  /** What popping the candidates ns (top last) one by one leads to. */
  function FoundAmong(g: Table, w: string, d: seq<Position>, i: nat, ns: seq<Position>)
    : seq<seq<Position>>
    requires d != [] && AllInBounds(g, d) && i < |w|
    requires forall q :: q in ns ==> InBounds(g, q)
    decreases |w| - i, 0, |ns|
  {
    if ns == [] then []
    else Found(g, w, d + [ns[|ns| - 1]], i + 1) + FoundAmong(g, w, d, i, ns[..|ns| - 1])
  }

  /** Popping x off the candidates ns + [x]: what x leads to comes first. */
  lemma FoundAmongPop(g: Table, w: string, d: seq<Position>, i: nat, ns: seq<Position>, x: Position)
    requires d != [] && AllInBounds(g, d) && i < |w|
    requires forall q :: q in ns + [x] ==> InBounds(g, q)
    ensures InBounds(g, x) && AllInBounds(g, d + [x])
    ensures FoundAmong(g, w, d, i, ns + [x]) == Found(g, w, d + [x], i + 1) + FoundAmong(g, w, d, i, ns)
  {
    assert x in ns + [x];
    assert (ns + [x])[..|ns|] == ns;
    var e := d + [x];
    assert forall k :: 0 <= k < |d| ==> e[k] == d[k];
  }

  /** Along a valid prefix the cells spell the matching prefix of w, so the
      check in validateWord succeeds on every complete one. */
  lemma SpelledValidPrefix(g: Table, w: string, d: seq<Position>)
    requires ValidPrefix(g, w, d)
    ensures AllInBounds(g, d) && Spelled(g, d) == w[..|d|]
  {
    SpelledTake(g, w, d, |d|);
    assert d[..|d|] == d;
  }

  /** The first n positions of a valid prefix spell the first n symbols. */
  lemma {:induction false} SpelledTake(g: Table, w: string, d: seq<Position>, n: nat)
    requires ValidPrefix(g, w, d) && n <= |d|
    ensures AllInBounds(g, d[..n]) && Spelled(g, d[..n]) == w[..n]
  {
    var e := d[..n];
    assert forall k :: 0 <= k < n ==> e[k] == d[k];
    if n > 0 {
      SpelledTake(g, w, d, n - 1);
      assert e[..n - 1] == d[..n - 1];
      assert Cell(g, e[n - 1]) == [w[n - 1]];
      TakeSnoc(w, n);
    }
  }

  /** From a valid prefix d of length i, the search accepts exactly the valid
      paths that extend d, and none twice. */
  lemma {:induction false} FoundExactly(g: Table, w: string, d: seq<Position>, i: nat)
    requires 1 <= |d| == i <= |w| && ValidPrefix(g, w, d)
    ensures AllInBounds(g, d)
    ensures forall p :: p in Found(g, w, d, i) <==> ValidPath(g, w, p) && p[..i] == d
    ensures NoDup(Found(g, w, d, i))
    decreases |w| - i, 1
  {
    SpelledValidPrefix(g, w, d);
    if i == |w| {
      assert d[..|w|] == d;
      assert forall p :: ValidPath(g, w, p) && p[..i] == d ==> p == d by {
        forall p | ValidPath(g, w, p) && p[..i] == d
          ensures p == d
        {
          assert p == p[..i];
        }
      }
    } else {
      var last := d[|d| - 1];
      var ns := Neighbors(g, last, [w[i]]);
      forall q | q in ns
        ensures Matches(g, q, [w[i]]) && Adjacent(last, q)
      {
        NeighborsExactly(g, last, [w[i]], q);
      }
      NeighborsAtMostNine(g, last, [w[i]]);
      FoundAmongExactly(g, w, d, i, ns);
      forall p | ValidPath(g, w, p) && p[..i] == d
        ensures p[i] in ns
      {
        assert p[i - 1] == p[..i][i - 1] == last;
        NeighborsExactly(g, last, [w[i]], p[i]);
      }
    }
  }

  /** One more position holding the next symbol, next to the last one, keeps
      a prefix valid. */
  lemma ExtendValidPrefix(g: Table, w: string, d: seq<Position>, x: Position)
    requires ValidPrefix(g, w, d) && 1 <= |d| < |w|
    requires Matches(g, x, [w[|d|]]) && Adjacent(d[|d| - 1], x)
    ensures ValidPrefix(g, w, d + [x])
  {
    var e := d + [x];
    assert forall k :: 0 <= k < |d| ==> e[k] == d[k];
    assert e[|d|] == x;
  }

  lemma PrefixSnoc(p: seq<Position>, d: seq<Position>, x: Position)
    requires |p| > |d|
    ensures p[..|d| + 1] == d + [x] <==> p[..|d|] == d && p[|d|] == x
  {
    if p[..|d|] == d && p[|d|] == x {
      assert p[..|d| + 1] == p[..|d|] + [p[|d|]];
    }
    if p[..|d| + 1] == d + [x] {
      assert p[..|d|] == p[..|d| + 1][..|d|];
      assert p[|d|] == p[..|d| + 1][|d|];
    }
  }

  /** The candidates ns, every one holding w[i] next to the end of d, lead to
      exactly the valid paths that extend d by one of them. */
  lemma {:induction false} FoundAmongExactly(g: Table, w: string, d: seq<Position>, i: nat,
                                             ns: seq<Position>)
    requires 1 <= |d| == i < |w| && ValidPrefix(g, w, d) && NoDup(ns)
    requires forall q :: q in ns ==> Matches(g, q, [w[i]]) && Adjacent(d[|d| - 1], q)
    requires forall q :: q in ns ==> InBounds(g, q)
    ensures AllInBounds(g, d)
    ensures forall p :: p in FoundAmong(g, w, d, i, ns) <==>
              ValidPath(g, w, p) && p[..i] == d && p[i] in ns
    ensures NoDup(FoundAmong(g, w, d, i, ns))
    decreases |w| - i, 0, |ns|
  {
    SpelledValidPrefix(g, w, d);
    if ns != [] {
      var x, rest := ns[|ns| - 1], ns[..|ns| - 1];
      assert ns == rest + [x];
      assert x in ns;
      ExtendValidPrefix(g, w, d, x);
      var e := d + [x];
      FoundExactly(g, w, e, i + 1);
      FoundAmongExactly(g, w, d, i, rest);
      var a, b := Found(g, w, e, i + 1), FoundAmong(g, w, d, i, rest);
      assert FoundAmong(g, w, d, i, ns) == a + b;
      forall p
        ensures p in a + b <==> ValidPath(g, w, p) && p[..i] == d && p[i] in ns
      {
        if |p| == |w| {
          PrefixSnoc(p, d, x);
        }
      }
      forall p | p in a
        ensures p !in b
      {
        PrefixSnoc(p, d, x);
      }
      NoDupConcat(a, b);
    }
  }

  /** Started at index i with a deque shorter than i, the search never has a
      deque as long as the word when it checks, so it accepts nothing. */
  lemma {:induction false} FoundNothingBehind(g: Table, w: string, d: seq<Position>, i: nat)
    requires d != [] && AllInBounds(g, d) && |d| < i <= |w|
    ensures Found(g, w, d, i) == []
    decreases |w| - i, 1
  {
    if i < |w| {
      FoundAmongNothingBehind(g, w, d, i, Neighbors(g, d[|d| - 1], [w[i]]));
    }
  }

  lemma {:induction false} FoundAmongNothingBehind(g: Table, w: string, d: seq<Position>, i: nat,
                                                   ns: seq<Position>)
    requires d != [] && AllInBounds(g, d) && |d| < i < |w|
    requires forall q :: q in ns ==> InBounds(g, q)
    ensures FoundAmong(g, w, d, i, ns) == []
    decreases |w| - i, 0, |ns|
  {
    if ns != [] {
      var x, rest := ns[|ns| - 1], ns[..|ns| - 1];
      assert ns == rest + [x];
      FoundAmongPop(g, w, d, i, rest, x);
      FoundNothingBehind(g, w, d + [x], i + 1);
      FoundAmongNothingBehind(g, w, d, i, rest);
    }
  }

  /** Seeded with one cell holding w[0] and started at index 1, the search
      accepts exactly the valid paths for w that begin at that cell, each once. */
  lemma FoundFromStart(g: Table, w: string, s: Position)
    requires |w| >= 1 && Matches(g, s, [w[0]])
    ensures AllInBounds(g, [s])
    ensures forall p :: p in Found(g, w, [s], 1) <==> ValidPath(g, w, p) && p[0] == s
    ensures NoDup(Found(g, w, [s], 1))
  {
    FoundExactly(g, w, [s], 1);
    forall p: seq<Position> | |p| >= 1
      ensures p[..1] == [s] <==> p[0] == s
    {
      if p[0] == s {
        assert p[..1] == [p[0]];
      }
    }
  }
}
