/** The text of one found path, as printDequeOfPositions builds it:
    word + ": " + the position strings joined by "->". */
module PathLines {
  import opened Positions
  import opened Seqs

  /** The position strings of ps, separated by "->". */
  function Join(ps: seq<Position>): string {
    if ps == [] then ""
    else if |ps| == 1 then PositionString(ps[0])
    else PositionString(ps[0]) + ("->" + Join(ps[1..]))
  }

  function PathLine(word: string, ps: seq<Position>): string {
    word + ": " + Join(ps)
  }

  /** Appending a position extends the text by an arrow and its string: the
      step printDequeOfPositions takes for each position after the first. */
  lemma {:induction false} JoinSnoc(ps: seq<Position>, q: Position)
    requires ps != []
    ensures Join(ps + [q]) == Join(ps) + "->" + PositionString(q)
  {
    var e, x, y := ps + [q], PositionString(ps[0]), PositionString(q);
    assert e[0] == ps[0];
    if |ps| == 1 {
      assert e[1..] == [q];
      assert Join(e) == x + ("->" + y);
    } else {
      var j := Join(ps[1..]);
      assert e[1..] == ps[1..] + [q];
      JoinSnoc(ps[1..], q);
      assert Join(e) == x + ("->" + (j + "->" + y));
      assert Join(ps) == x + ("->" + j);
    }
  }

  /** What follows the first position string in Join(ps). */
  function JoinTail(ps: seq<Position>): (t: string)
    requires ps != []
    ensures Join(ps) == PositionString(ps[0]) + t
    ensures t == "" <==> |ps| == 1
  {
    if |ps| == 1 then "" else "->" + Join(ps[1..])
  }

  /** The text printDequeOfPositions has built after visiting the first k
      positions: their strings joined by arrows, and one more arrow unless the
      k-th is the last of ps. */
  function Rendered(ps: seq<Position>, k: nat): string
    requires k <= |ps|
  {
    if k == 0 then "" else Join(ps[..k]) + (if k < |ps| then "->" else "")
  }

  /** The joined text of the first k positions is what was built before the
      k-th, followed by its string. */
  lemma JoinTake(ps: seq<Position>, k: nat)
    requires 0 < k <= |ps|
    ensures Join(ps[..k]) == Rendered(ps, k - 1) + PositionString(ps[k - 1])
  {
    var x := PositionString(ps[k - 1]);
    if k == 1 {
      assert ps[..1] == [ps[0]];
      assert "" + x == x;
    } else {
      TakeSnoc(ps, k);
      JoinSnoc(ps[..k - 1], ps[k - 1]);
    }
  }

  /** Visiting the k-th position when more follow: its string, then an arrow. */
  lemma RenderedArrow(prefix: string, ps: seq<Position>, k: nat, text: string)
    requires 0 < k < |ps| && text == prefix + Rendered(ps, k - 1)
    ensures text + PositionString(ps[k - 1]) + "->" == prefix + Rendered(ps, k)
  {
    var r, x := Rendered(ps, k - 1), PositionString(ps[k - 1]);
    JoinTake(ps, k);
    AppendAssoc(prefix, r, x);
    AppendAssoc(prefix, r + x, "->");
  }

  /** Visiting the last position: its string alone. */
  lemma RenderedLast(prefix: string, ps: seq<Position>, text: string)
    requires 0 < |ps| && text == prefix + Rendered(ps, |ps| - 1)
    ensures text + PositionString(ps[|ps| - 1]) == prefix + Rendered(ps, |ps|)
  {
    var r, x := Rendered(ps, |ps| - 1), PositionString(ps[|ps| - 1]);
    JoinTake(ps, |ps|);
    AppendAssoc(prefix, r, x);
    assert Join(ps[..|ps|]) + "" == r + x;
  }

  /** Once every position is visited the text is the joined sequence. */
  lemma RenderedAll(ps: seq<Position>)
    ensures Rendered(ps, |ps|) == Join(ps)
  {
    if ps != [] {
      assert ps[..|ps|] == ps;
      assert Join(ps) + "" == Join(ps);
    }
  }

  /** The joined text names the positions: different position sequences give
      different text. */
  lemma {:induction false} JoinInjective(ps: seq<Position>, qs: seq<Position>)
    requires Join(ps) == Join(qs)
    ensures ps == qs
    decreases |ps|
  {
    if ps != [] && qs != [] {
      JoinHead(ps, qs);
      if |ps| > 1 {
        JoinRest(ps, qs);
        JoinInjective(ps[1..], qs[1..]);
        SameHeadSameRest(ps, qs);
      } else {
        assert ps == [ps[0]] && qs == [qs[0]];
      }
    } else if ps != [] {
      JoinNonEmpty(ps);
    } else if qs != [] {
      JoinNonEmpty(qs);
    }
  }

  lemma JoinNonEmpty(ps: seq<Position>)
    requires ps != []
    ensures Join(ps) != ""
  {
    PositionStringShape(ps[0]);
    assert Join(ps) == PositionString(ps[0]) + JoinTail(ps);
  }

  /** Equal text starts with the same position string, hence the same first
      position, and continues the same way. */
  lemma JoinHead(ps: seq<Position>, qs: seq<Position>)
    requires ps != [] && qs != [] && Join(ps) == Join(qs)
    ensures ps[0] == qs[0] && JoinTail(ps) == JoinTail(qs)
    ensures |ps| == 1 <==> |qs| == 1
  {
    PositionStringPrefix(ps[0], JoinTail(ps), qs[0], JoinTail(qs));
  }

  lemma SameHeadSameRest(ps: seq<Position>, qs: seq<Position>)
    requires ps != [] && qs != [] && ps[0] == qs[0] && ps[1..] == qs[1..]
    ensures ps == qs
  {
    assert ps == [ps[0]] + ps[1..] && qs == [qs[0]] + qs[1..];
  }

  /** Equal text after the first position means equal text for the rest. */
  lemma JoinRest(ps: seq<Position>, qs: seq<Position>)
    requires |ps| > 1 && |qs| > 1 && JoinTail(ps) == JoinTail(qs)
    ensures Join(ps[1..]) == Join(qs[1..])
  {
    var a, b := Join(ps[1..]), Join(qs[1..]);
    assert a == ("->" + a)[2..];
    assert b == ("->" + b)[2..];
  }

  /** Two lines for the same word are equal only for the same path. */
  lemma PathLineInjective(word: string, ps: seq<Position>, qs: seq<Position>)
    requires PathLine(word, ps) == PathLine(word, qs)
    ensures ps == qs
  {
    var prefix := word + ": ";
    assert Join(ps) == PathLine(word, ps)[|prefix|..];
    assert Join(qs) == PathLine(word, qs)[|prefix|..];
    JoinInjective(ps, qs);
  }

  /** The lines of a sequence of paths for one word, in the same order. */
  function Lines(word: string, paths: seq<seq<Position>>): seq<string> {
    if paths == [] then [] else [PathLine(word, paths[0])] + Lines(word, paths[1..])
  }

  /** Line k renders path k. */
  lemma {:induction false} LinesAt(word: string, paths: seq<seq<Position>>)
    ensures |Lines(word, paths)| == |paths|
    ensures forall k :: 0 <= k < |paths| ==> Lines(word, paths)[k] == PathLine(word, paths[k])
    decreases |paths|
  {
    if paths != [] {
      LinesAt(word, paths[1..]);
    }
  }

  lemma {:induction false} LinesAppend(word: string, a: seq<seq<Position>>, b: seq<seq<Position>>)
    ensures Lines(word, a + b) == Lines(word, a) + Lines(word, b)
    decreases |a|
  {
    if a != [] {
      assert (a + b)[1..] == a[1..] + b;
      LinesAppend(word, a[1..], b);
    } else {
      assert a + b == b;
    }
  }

  /** Distinct paths give distinct lines, and a line is in the result exactly
      when it renders one of the paths. */
  lemma LinesFaithful(word: string, paths: seq<seq<Position>>)
    ensures NoDup(paths) ==> NoDup(Lines(word, paths))
    ensures forall line :: line in Lines(word, paths) <==>
              exists p :: p in paths && line == PathLine(word, p)
  {
    var r := Lines(word, paths);
    LinesAt(word, paths);
    if NoDup(paths) {
      forall i, j | 0 <= i < j < |r|
        ensures r[i] != r[j]
      {
        if r[i] == r[j] {
          PathLineInjective(word, paths[i], paths[j]);
        }
      }
    }
    forall line | line in r
      ensures exists p :: p in paths && line == PathLine(word, p)
    {
      var k :| 0 <= k < |r| && r[k] == line;
      assert paths[k] in paths;
    }
    forall p | p in paths
      ensures PathLine(word, p) in r
    {
      var k :| 0 <= k < |paths| && paths[k] == p;
      assert r[k] == PathLine(word, p);
    }
  }
}
