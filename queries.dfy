/** The per-puzzle loop of the driver. For every word, each cell holding its
    first symbol is popped off the start stack and seeds a one-position deque;
    computeTreeOfWords runs on that deque for i = 1 .. |word| - 1; once every
    word is done the collected lines are sorted. */
module Queries {
  import opened Positions
  import opened Seqs
  import opened Grids
  import opened PathLines
  import opened StringOrder
  import opened SearchSpec
  import opened ArrayStacks
  import opened Deques
  import opened WordPuzzles

  // ---------------------------------------------------------------------------
  // What the loop collects, as functions

  /** The lines that computeTreeOfWords([s], w, i) adds for i = from .. |w| - 1. */
  function StartLines(g: Table, w: string, s: Position, from: nat): seq<string>
    requires InBounds(g, s) && 1 <= from
    decreases |w| - from
  {
    if from >= |w| then [] else Lines(w, Found(g, w, [s], from)) + StartLines(g, w, s, from + 1)
  }

  /** The lines for the start stack starts, popped top (last) first. */
  function StartsLines(g: Table, w: string, starts: seq<Position>): seq<string>
    requires forall q :: q in starts ==> InBounds(g, q)
  {
    if starts == [] then []
    else StartLines(g, w, starts[|starts| - 1], 1) + StartsLines(g, w, starts[..|starts| - 1])
  }

  /** The lines for one word: its starts are the cells holding its first symbol. */
  function WordLines(g: Table, w: string): seq<string>
    requires |w| >= 1
  {
    StartsLines(g, w, Occurrences(g, [w[0]]))
  }

  /** Every word has a first symbol to look up. */
  predicate NonEmptyWords(words: seq<string>) {
    forall k :: 0 <= k < |words| ==> |words[k]| >= 1
  }

  /** The lines for the words, in the order of the word list. */
  function PuzzleLines(g: Table, words: seq<string>): seq<string>
    requires NonEmptyWords(words)
  {
    if words == [] then [] else WordLines(g, words[0]) + PuzzleLines(g, words[1..])
  }

  /** A parsed query: the puzzle's table and its words. */
  datatype Chunk = Chunk(data: Table, words: seq<string>)

  // ---------------------------------------------------------------------------
  // The loop itself

  /** The body of the loop over the words: every start popped once, each
      seeding a fresh deque that computeTreeOfWords is run on for i = 1 ..
      |word| - 1. */
  method SearchWord(wordPuzzle: WordPuzzle, word: string)
    requires wordPuzzle.Valid() && |word| >= 1
    modifies wordPuzzle`paths
    ensures wordPuzzle.paths == old(wordPuzzle.paths) + WordLines(wordPuzzle.data, word)
  {
    ghost var g, p0 := wordPuzzle.data, wordPuzzle.paths;
    var firstCharacter := [word[0]];
    var firstCharacterPositions := wordPuzzle.FindAllOccurrencesOfCharacter(firstCharacter);
    while !IsEmpty(firstCharacterPositions)
      invariant forall q :: q in firstCharacterPositions.elems ==> InBounds(g, q)
      invariant wordPuzzle.paths + StartsLines(g, word, firstCharacterPositions.elems)
                == p0 + WordLines(g, word)
      decreases |firstCharacterPositions.elems|
    {
      var popped := Pop(firstCharacterPositions);
      firstCharacterPositions := popped.0;
      var firstPosition := popped.1;
      StartsStep(g, word, firstCharacterPositions.elems, firstPosition, wordPuzzle.paths);
      var positions := new Deque<Position>();
      positions.AddFirst(firstPosition);
      ghost var before := wordPuzzle.paths;
      for i := 1 to |word|
        invariant positions.elems == [firstPosition]
        invariant wordPuzzle.paths + StartLines(g, word, firstPosition, i)
                  == before + StartLines(g, word, firstPosition, 1)
      {
        StartLinesStep(g, word, firstPosition, i, wordPuzzle.paths);
        wordPuzzle.ComputeTreeOfWords(positions, word, i);
      }
      AppendNothing(wordPuzzle.paths);
    }
    AppendNothing(wordPuzzle.paths);
  }

  /** One query: a fresh puzzle, the search for each of its words, then the sort.
      The result is the one sorted arrangement of what the words yield. */
  method ProcessPuzzle(chunk: Chunk) returns (lines: seq<string>)
    requires NonEmptyWords(chunk.words)
    ensures lines == Sort(PuzzleLines(chunk.data, chunk.words))
  {
    var wordPuzzle := new WordPuzzle(chunk.data, chunk.words);
    var words := wordPuzzle.GetWords();
    for k := 0 to |words|
      invariant wordPuzzle.Valid() && wordPuzzle.data == chunk.data && words == chunk.words
      invariant wordPuzzle.paths + PuzzleLines(chunk.data, words[k..]) == PuzzleLines(chunk.data, words)
    {
      PuzzleStep(chunk.data, words, k, wordPuzzle.paths);
      SearchWord(wordPuzzle, words[k]);
    }
    assert words[|words|..] == [];
    AppendNothing(wordPuzzle.paths);
    wordPuzzle.SortPathsAlphabetically();
    lines := wordPuzzle.paths;
    SortedUnique(lines, Sort(PuzzleLines(chunk.data, chunk.words)));
  }

  /** The loop over the chunks of the input: each query gets its own puzzle,
      so its lines depend on its own table and words only. */
  method ProcessQueries(chunks: seq<Chunk>) returns (outputs: seq<seq<string>>)
    requires forall k :: 0 <= k < |chunks| ==> NonEmptyWords(chunks[k].words)
    ensures |outputs| == |chunks|
    ensures forall k :: 0 <= k < |chunks| ==>
              outputs[k] == Sort(PuzzleLines(chunks[k].data, chunks[k].words))
  {
    outputs := [];
    for k := 0 to |chunks|
      invariant |outputs| == k
      invariant forall j :: 0 <= j < k ==>
                  outputs[j] == Sort(PuzzleLines(chunks[j].data, chunks[j].words))
    {
      var lines := ProcessPuzzle(chunks[k]);
      outputs := outputs + [lines];
    }
  }

  // ---------------------------------------------------------------------------
  // Steps of the loops

  lemma AppendNothing(s: seq<string>)
    ensures s + [] == s
  {
  }

  /** Popping s off the start stack rest + [s]: its lines come first. */
  lemma StartsStep(g: Table, w: string, rest: seq<Position>, s: Position, prefix: seq<string>)
    requires forall q :: q in rest + [s] ==> InBounds(g, q)
    ensures InBounds(g, s) && forall q :: q in rest ==> InBounds(g, q)
    ensures prefix + StartsLines(g, w, rest + [s])
            == (prefix + StartLines(g, w, s, 1)) + StartsLines(g, w, rest)
  {
    assert s in rest + [s];
    assert (rest + [s])[..|rest|] == rest;
    AppendAssoc(prefix, StartLines(g, w, s, 1), StartsLines(g, w, rest));
  }

  /** One turn of the loop over i: the call for i adds the lines of Found at i. */
  lemma StartLinesStep(g: Table, w: string, s: Position, i: nat, prefix: seq<string>)
    requires InBounds(g, s) && 1 <= i < |w|
    ensures AllInBounds(g, [s])
    ensures prefix + StartLines(g, w, s, i)
            == (prefix + Lines(w, Found(g, w, [s], i))) + StartLines(g, w, s, i + 1)
  {
    AppendAssoc(prefix, Lines(w, Found(g, w, [s], i)), StartLines(g, w, s, i + 1));
  }

  /** One turn of the loop over the words. */
  lemma PuzzleStep(g: Table, words: seq<string>, k: nat, prefix: seq<string>)
    requires NonEmptyWords(words) && k < |words|
    ensures |words[k]| >= 1 && NonEmptyWords(words[k + 1..])
    ensures prefix + PuzzleLines(g, words[k..])
            == (prefix + WordLines(g, words[k])) + PuzzleLines(g, words[k + 1..])
  {
    assert words[k..][1..] == words[k + 1..];
    AppendAssoc(prefix, WordLines(g, words[k]), PuzzleLines(g, words[k + 1..]));
  }

  // ---------------------------------------------------------------------------
  // What the loop reports

  /** The calls with i >= 2 start with a one-position deque that is already
      behind i, so they add nothing. */
  lemma {:induction false} LaterCallsAddNothing(g: Table, w: string, s: Position, from: nat)
    requires InBounds(g, s) && 2 <= from
    ensures StartLines(g, w, s, from) == []
    decreases |w| - from
  {
    if from < |w| {
      FoundNothingBehind(g, w, [s], from);
      LaterCallsAddNothing(g, w, s, from + 1);
    }
  }

  /** Everything a start yields comes from the call with i = 1, and a word of
      one symbol yields nothing, since the loop over i does not run. */
  lemma StartLinesFirstCall(g: Table, w: string, s: Position)
    requires InBounds(g, s)
    ensures |w| <= 1 ==> StartLines(g, w, s, 1) == []
    ensures |w| >= 2 ==> StartLines(g, w, s, 1) == Lines(w, Found(g, w, [s], 1))
  {
    if |w| >= 2 {
      LaterCallsAddNothing(g, w, s, 2);
      assert Lines(w, Found(g, w, [s], 1)) + [] == Lines(w, Found(g, w, [s], 1));
    }
  }

  /** A single-symbol word yields no line at all, whatever the table. */
  lemma {:induction false} SingleSymbolWordsFindNothing(g: Table, w: string, starts: seq<Position>)
    requires |w| == 1 && forall q :: q in starts ==> InBounds(g, q)
    ensures StartsLines(g, w, starts) == []
    decreases |starts|
  {
    if starts != [] {
      var rest := starts[..|starts| - 1];
      assert starts[|starts| - 1] in starts;
      StartLinesFirstCall(g, w, starts[|starts| - 1]);
      SingleSymbolWordsFindNothing(g, w, rest);
    }
  }

  /** From one start holding the first symbol: one line per valid path that
      begins there, none twice. */
  lemma LinesOfStart(g: Table, w: string, s: Position)
    requires |w| >= 2 && Matches(g, s, [w[0]])
    ensures forall line :: line in StartLines(g, w, s, 1) <==>
              exists p :: ValidPath(g, w, p) && p[0] == s && line == PathLine(w, p)
    ensures NoDup(StartLines(g, w, s, 1))
  {
    StartLinesFirstCall(g, w, s);
    FoundFromStart(g, w, s);
    var found := Found(g, w, [s], 1);
    LinesFaithful(w, found);
    forall line
      ensures line in Lines(w, found) <==>
                exists p :: ValidPath(g, w, p) && p[0] == s && line == PathLine(w, p)
    {
      if exists p :: ValidPath(g, w, p) && p[0] == s && line == PathLine(w, p) {
        var p :| ValidPath(g, w, p) && p[0] == s && line == PathLine(w, p);
        assert p in found;
      }
    }
  }

  /** Every position of ps is a cell holding s. */
  predicate AllMatch(g: Table, ps: seq<Position>, s: string) {
    forall q :: q in ps ==> Matches(g, q, s)
  }

  /** The start stack starts, whose cells hold the first symbol, each once,
      yields one line per valid path beginning at one of them, none twice. */
  lemma {:induction false} StartsLinesExactly(g: Table, w: string, starts: seq<Position>)
    requires |w| >= 2 && NoDup(starts) && AllMatch(g, starts, [w[0]])
    ensures forall line :: line in StartsLines(g, w, starts) <==>
              exists p :: ValidPath(g, w, p) && p[0] in starts && line == PathLine(w, p)
    ensures NoDup(StartsLines(g, w, starts))
    decreases |starts|
  {
    if starts != [] {
      var s, rest := starts[|starts| - 1], starts[..|starts| - 1];
      assert starts == rest + [s];
      assert s in starts && s !in rest;
      assert NoDup(rest) && AllMatch(g, rest, [w[0]]);
      LinesOfStart(g, w, s);
      StartsLinesExactly(g, w, rest);
      var a, b := StartLines(g, w, s, 1), StartsLines(g, w, rest);
      forall line | line in a
        ensures line !in b
      {
        if line in b {
          var p1 :| ValidPath(g, w, p1) && p1[0] == s && line == PathLine(w, p1);
          var p2 :| ValidPath(g, w, p2) && p2[0] in rest && line == PathLine(w, p2);
          PathLineInjective(w, p1, p2);
        }
      }
      NoDupConcat(a, b);
    }
  }

  /** The lines for a word of two or more symbols are exactly the rendered
      valid paths for it, each once. */
  lemma WordLinesExactly(g: Table, w: string)
    requires |w| >= 2
    ensures forall line :: line in WordLines(g, w) <==>
              exists p :: ValidPath(g, w, p) && line == PathLine(w, p)
    ensures NoDup(WordLines(g, w))
  {
    var starts := Occurrences(g, [w[0]]);
    OccurrencesExactly(g, [w[0]]);
    StartsLinesExactly(g, w, starts);
    forall p | ValidPath(g, w, p)
      ensures p[0] in starts
    {
    }
  }

  /** The order in which the start cells are popped does not change which
      lines a word yields or how often. */
  lemma StartOrderIrrelevant(g: Table, w: string, a: seq<Position>, b: seq<Position>)
    requires |w| >= 1 && NoDup(a) && NoDup(b) && AllMatch(g, a, [w[0]])
    requires forall q :: q in a <==> q in b
    ensures AllMatch(g, b, [w[0]])
    ensures multiset(StartsLines(g, w, a)) == multiset(StartsLines(g, w, b))
  {
    if |w| == 1 {
      SingleSymbolWordsFindNothing(g, w, a);
      SingleSymbolWordsFindNothing(g, w, b);
    } else {
      StartsLinesExactly(g, w, a);
      StartsLinesExactly(g, w, b);
      SameElementsSameMultiset(StartsLines(g, w, a), StartsLines(g, w, b));
    }
  }

  lemma {:induction false} PuzzleLinesAppend(g: Table, u: seq<string>, v: seq<string>)
    requires NonEmptyWords(u) && NonEmptyWords(v)
    ensures NonEmptyWords(u + v)
    ensures PuzzleLines(g, u + v) == PuzzleLines(g, u) + PuzzleLines(g, v)
    decreases |u|
  {
    var uv := u + v;
    assert forall k :: 0 <= k < |uv| ==> uv[k] == if k < |u| then u[k] else v[k - |u|];
    if u == [] {
      assert uv == v;
    } else {
      assert uv[0] == u[0] && uv[1..] == u[1..] + v;
      assert NonEmptyWords(u[1..]);
      PuzzleLinesAppend(g, u[1..], v);
      AppendAssoc(WordLines(g, u[0]), PuzzleLines(g, u[1..]), PuzzleLines(g, v));
    }
  }

  /** Processing the words in another order collects the same lines, each as
      often. */
  lemma {:induction false} WordOrderIrrelevant(g: Table, a: seq<string>, b: seq<string>)
    requires NonEmptyWords(a) && multiset(a) == multiset(b)
    ensures NonEmptyWords(b)
    ensures multiset(PuzzleLines(g, a)) == multiset(PuzzleLines(g, b))
    decreases |a|
  {
    NonEmptyWordsPermuted(a, b);
    if a != [] {
      var w := a[0];
      assert w in multiset(a);
      var j :| 0 <= j < |b| && b[j] == w;
      var rest := a[1..];
      RemoveAt(a, 0);
      assert a[..0] + a[1..] == rest;
      RemoveAt(b, j);
      Cancel(multiset(rest), multiset(b[..j] + b[j + 1..]), multiset{w});
      NonEmptyWordsPermuted(a, rest);
      WordOrderIrrelevant(g, rest, b[..j] + b[j + 1..]);
      PuzzleLinesWithout(g, b, j);
    }
  }

  /** The lines for b are those of its word j and those of the others. */
  lemma PuzzleLinesWithout(g: Table, b: seq<string>, j: nat)
    requires NonEmptyWords(b) && j < |b|
    ensures NonEmptyWords(b[..j] + b[j + 1..])
    ensures multiset(PuzzleLines(g, b))
            == multiset(WordLines(g, b[j])) + multiset(PuzzleLines(g, b[..j] + b[j + 1..]))
  {
    var b1, b2 := b[..j], b[j + 1..];
    assert b == b1 + [b[j]] + b2;
    assert NonEmptyWords(b1) && NonEmptyWords(b2);
    PuzzleLinesSplit(g, b1, b[j], b2);
    MultisetMiddle(PuzzleLines(g, b1), WordLines(g, b[j]), PuzzleLines(g, b2));
  }

  lemma PuzzleLinesSplit(g: Table, u: seq<string>, w: string, v: seq<string>)
    requires NonEmptyWords(u) && |w| >= 1 && NonEmptyWords(v)
    ensures NonEmptyWords(u + [w] + v) && NonEmptyWords(u + v)
    ensures PuzzleLines(g, u + [w] + v) == PuzzleLines(g, u) + WordLines(g, w) + PuzzleLines(g, v)
    ensures PuzzleLines(g, u + v) == PuzzleLines(g, u) + PuzzleLines(g, v)
  {
    assert NonEmptyWords([w]);
    PuzzleLinesSingle(g, w);
    PuzzleLinesAppend(g, u, [w]);
    PuzzleLinesAppend(g, u + [w], v);
    PuzzleLinesAppend(g, u, v);
  }

  lemma PuzzleLinesSingle(g: Table, w: string)
    requires |w| >= 1
    ensures NonEmptyWords([w]) && PuzzleLines(g, [w]) == WordLines(g, w)
  {
    assert [w][1..] == [];
    assert WordLines(g, w) + [] == WordLines(g, w);
  }

  lemma MultisetMiddle<T>(x: seq<T>, y: seq<T>, z: seq<T>)
    ensures multiset(x + y + z) == multiset(y) + multiset(x + z)
  {
  }

  /** Every word of v is a word of u, so it has a first symbol too. */
  lemma NonEmptyWordsPermuted(u: seq<string>, v: seq<string>)
    requires NonEmptyWords(u) && multiset(v) <= multiset(u)
    ensures NonEmptyWords(v)
  {
    forall k | 0 <= k < |v|
      ensures |v[k]| >= 1
    {
      assert v[k] in multiset(v);
      assert v[k] in multiset(u);
      var j :| 0 <= j < |u| && u[j] == v[k];
    }
  }

  lemma Cancel<T>(x: multiset<T>, y: multiset<T>, z: multiset<T>)
    requires x + z == y + z
    ensures x == y
  {
    assert forall e :: x[e] == (x + z)[e] - z[e] && y[e] == (y + z)[e] - z[e];
  }

  /** Taking out element j splits s into what comes before and after it. */
  lemma RemoveAt<T>(s: seq<T>, j: nat)
    requires j < |s|
    ensures s == s[..j] + [s[j]] + s[j + 1..]
    ensures multiset(s) == multiset(s[..j] + s[j + 1..]) + multiset{s[j]}
  {
    assert s == s[..j] + [s[j]] + s[j + 1..];
  }

  /** Hence the sorted output of a query does not depend on the order of its
      words. */
  lemma SortedOutputIgnoresWordOrder(g: Table, a: seq<string>, b: seq<string>)
    requires NonEmptyWords(a) && multiset(a) == multiset(b)
    ensures NonEmptyWords(b)
    ensures Sort(PuzzleLines(g, a)) == Sort(PuzzleLines(g, b))
  {
    WordOrderIrrelevant(g, a, b);
    SortedUnique(Sort(PuzzleLines(g, a)), Sort(PuzzleLines(g, b)));
  }

  /** A query reports exactly the rendered valid paths of its words of two or
      more symbols. */
  lemma {:induction false} PuzzleLinesExactly(g: Table, words: seq<string>)
    requires NonEmptyWords(words)
    ensures forall line :: line in PuzzleLines(g, words) <==>
              exists w, p :: w in words && |w| >= 2 && ValidPath(g, w, p) && line == PathLine(w, p)
    decreases |words|
  {
    if words != [] {
      var w := words[0];
      assert NonEmptyWords(words[1..]);
      PuzzleLinesExactly(g, words[1..]);
      if |w| >= 2 {
        WordLinesExactly(g, w);
      } else {
        SingleSymbolWordsFindNothing(g, w, Occurrences(g, [w[0]]));
      }
      assert words == [w] + words[1..];
    }
  }
}
