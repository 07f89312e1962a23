/** WordPuzzle: a puzzle's table and words, the lines found for it so far, and
    the search that fills them in. The table and the word list never change;
    the list of lines is the one field the search updates. */
module WordPuzzles {
  import opened Positions
  import opened Seqs
  import opened Grids
  import opened PathLines
  import opened StringOrder
  import opened SearchSpec
  import opened ArrayStacks
  import opened Deques

  class WordPuzzle {
    const nRows: int
    const nColumns: int
    const data: Table
    const words: seq<string>

    /** The rendered lines of the paths found so far, in the order found. */
    var paths: seq<string>

    /** The dimensions are those of the table. */
    predicate Valid() {
      nRows == NRows(data) && nColumns == NColumns(data)
    }

    /** A new puzzle starts with no lines. */
    constructor (data: Table, words: seq<string>)
      ensures Valid() && this.data == data && this.words == words
      ensures paths == []
    {
      this.nRows := |data|;
      this.nColumns := |data[0]|;
      this.data := data;
      this.words := words;
      this.paths := [];
    }

    /** getWords(): the words the puzzle was built with, in their order. */
    function GetWords(): (ws: seq<string>)
      ensures ws == words
    {
      words
    }

    /** False outside the table; inside it, whether that cell is the string. */
    function IsCharacterAtPosition(position: Position, character: string): (b: bool)
      requires Valid()
      ensures b == Matches(data, position, character)
    {
      if 0 <= position.GetRow() < nRows && 0 <= position.GetColumn() < nColumns then
        data[position.GetRow()][position.GetColumn()] == character
      else
        false
    }

    /** The cells holding the string, each once, pushed row by row and left to
        right, so the last one pushed is the last in row-major order. */
    method FindAllOccurrencesOfCharacter(character: string) returns (stack: Stack<Position>)
      requires Valid()
      ensures stack.elems == Occurrences(data, character)
    {
      stack := Empty();
      for i := 0 to nRows
        invariant stack.elems == OccurrencesAbove(data, character, i)
      {
        for j := 0 to nColumns
          invariant stack.elems == OccurrencesAbove(data, character, i)
                                   + RowOccurrences(data, character, i, j)
        {
          var currentPosition := Position(i, j);
          if IsCharacterAtPosition(currentPosition, character) {
            stack := Push(stack, currentPosition);
          }
        }
        assert OccurrencesAbove(data, character, i + 1)
            == OccurrencesAbove(data, character, i) + RowOccurrences(data, character, i, nColumns);
      }
    }

    /** The positions among pos and its eight surrounding cells that are in the
        table and hold the string, in the order of the offset table, each once. */
    method FindValidNeighbors(pos: Position, character: string) returns (stack: Stack<Position>)
      requires Valid()
      ensures stack.elems == Neighbors(data, pos, character)
    {
      stack := Empty();
      var neighbors := Offsets;
      for k := 0 to |neighbors|
        invariant stack.elems == NeighborsUpTo(data, pos, character, k)
      {
        var n := neighbors[k];
        NeighborsUpToNext(data, pos, character, k);
        var newRow := pos.GetRow() + n.0;
        var newCol := pos.GetColumn() + n.1;
        ghost var q := Position(newRow, newCol);
        assert q == Shift(pos, Offsets[k]);
        if newRow >= 0 && newRow < nRows && newCol >= 0 && newCol < nColumns {
          if IsCharacterAtPosition(Position(newRow, newCol), character) {
            stack := Push(stack, Position(newRow, newCol));
          }
        }
      }
    }

    /** Appends the line for the positions of the deque, front to back, and
        leaves the earlier lines as they were. */
    method PrintDequeOfPositions(word: string, positionsDeque: Deque<Position>)
      modifies this`paths
      ensures paths == old(paths) + [PathLine(word, positionsDeque.elems)]
    {
      var elems := positionsDeque.elems;
      var output := word + ": ";
      ghost var prefix := output;
      var k := 0;
      while k < |elems|
        invariant 0 <= k <= |elems|
        invariant output == prefix + Rendered(elems, k)
        invariant paths == old(paths)
      {
        ghost var before := output;
        output := output + PositionString(elems[k]);
        k := k + 1;
        if k < |elems| {
          output := output + "->";
          RenderedArrow(prefix, elems, k, before);
        } else {
          RenderedLast(prefix, elems, before);
        }
      }
      RenderedAll(elems);
      paths := paths + [output];
    }

    /** Reads the cells along the deque by draining it front first, puts the
        positions back in their order, and records the line when the cells
        spell the word. */
    method ValidateWord(positionsDeque: Deque<Position>, word: string) returns (b: bool)
      requires AllInBounds(data, positionsDeque.elems)
      modifies this`paths, positionsDeque
      ensures positionsDeque.elems == old(positionsDeque.elems)
      ensures b == (Spelled(data, positionsDeque.elems) == word)
      ensures paths == old(paths) + (if b then [PathLine(word, positionsDeque.elems)] else [])
    {
      ghost var d0 := positionsDeque.elems;
      var constructedWord := "";
      var positionsDequeCopy := positionsDeque.Clone();
      var tempStack: Stack<Position> := Empty();
      var drained := positionsDeque.IsEmpty();
      while !drained
        invariant drained <==> positionsDeque.elems == []
        invariant tempStack.elems + positionsDeque.elems == d0
        invariant AllInBounds(data, tempStack.elems)
        invariant constructedWord == Spelled(data, tempStack.elems)
        invariant positionsDequeCopy.elems == d0
        invariant paths == old(paths)
        decreases |positionsDeque.elems|
      {
        ghost var before := tempStack.elems;
        var pos := positionsDeque.RemoveFirst();
        AppendAssoc(before, [pos], positionsDeque.elems);
        DrainStep(before, pos, positionsDeque.elems, d0);
        var ch := data[pos.GetRow()][pos.GetColumn()];
        constructedWord := constructedWord + ch;
        tempStack := Push(tempStack, pos);
        assert tempStack.elems[..|tempStack.elems| - 1] == before;
        drained := positionsDeque.IsEmpty();
      }
      assert tempStack.elems == d0;
      while !IsEmpty(tempStack)
        invariant tempStack.elems + positionsDeque.elems == d0
        invariant positionsDequeCopy.elems == d0
        invariant paths == old(paths)
        decreases |tempStack.elems|
      {
        var popped := Pop(tempStack);
        AppendAssoc(popped.0.elems, [popped.1], positionsDeque.elems);
        tempStack := popped.0;
        positionsDeque.AddFirst(popped.1);
      }
      assert tempStack.elems + positionsDeque.elems == positionsDeque.elems;
      if constructedWord == word {
        PrintDequeOfPositions(word, positionsDequeCopy);
      }
      b := constructedWord == word;
    }

    /** One position moved from the front of the deque to the stack keeps
        the stack inside the table. */
    lemma DrainStep(before: seq<Position>, pos: Position, rest: seq<Position>, d0: seq<Position>)
      requires before + ([pos] + rest) == d0 && AllInBounds(data, d0) && AllInBounds(data, before)
      ensures pos == d0[|before|] && AllInBounds(data, before + [pos])
    {
      assert d0[|before|] == ([pos] + rest)[0];
    }

    /** Collections.sort on the lines: afterwards they are in order and are the
        same lines as before, each as often. */
    method SortPathsAlphabetically()
      modifies this`paths
      ensures Sorted(paths) && multiset(paths) == multiset(old(paths))
    {
      paths := Sort(paths);
    }

    /** The backtracking search: appends the lines of what Found says it accepts
        and hands the deque back exactly as it received it, since every
        position added for a recursive call is removed after it. */
    method ComputeTreeOfWords(positionsDeque: Deque<Position>, targetWord: string, i: int)
      requires Valid()
      requires positionsDeque.elems != [] && AllInBounds(data, positionsDeque.elems)
      requires 0 <= i <= |targetWord|
      modifies this`paths, positionsDeque
      ensures positionsDeque.elems == old(positionsDeque.elems)
      ensures paths == old(paths) + Lines(targetWord, Found(data, targetWord, old(positionsDeque.elems), i))
      decreases |targetWord| - i, 2
    {
      ghost var d0, p0 := positionsDeque.elems, paths;
      ghost var accepted := p0 + Lines(targetWord, Accepted(data, targetWord, d0));
      var size := positionsDeque.Size();
      AcceptedLines(data, targetWord, d0, p0);
      if size == |targetWord| {
        var isValid := ValidateWord(positionsDeque, targetWord);
      }
      assert paths == accepted;
      if i == |targetWord| {
        FoundAtEnd(data, targetWord, d0, p0);
        return;
      }
      var character := targetWord[i];
      var last := positionsDeque.GetLast();
      var neighbors := FindValidNeighbors(last, [character]);
      assert neighbors.elems == Neighbors(data, d0[|d0| - 1], [targetWord[i]]);
      FoundSplit(data, targetWord, d0, i, p0);
      if IsEmpty(neighbors) {
        LinesOfNothing(targetWord, paths);
        return;
      }
      ExtendWithEachNeighbor(positionsDeque, targetWord, i, neighbors);
    }

    /** The loop at the end of computeTreeOfWords: pops the neighbour stack
        until it is empty, extends the deque by each popped position, searches
        from there and removes the position again. */
    method ExtendWithEachNeighbor(positionsDeque: Deque<Position>, targetWord: string, i: int, neighbors: Stack<Position>)
      requires Valid()
      requires positionsDeque.elems != [] && AllInBounds(data, positionsDeque.elems)
      requires 0 <= i < |targetWord|
      requires forall q :: q in neighbors.elems ==> InBounds(data, q)
      modifies this`paths, positionsDeque
      ensures positionsDeque.elems == old(positionsDeque.elems)
      ensures paths == old(paths) + Lines(targetWord, FoundAmong(data, targetWord, old(positionsDeque.elems), i, neighbors.elems))
      decreases |targetWord| - i, 1
    {
      ghost var d0 := positionsDeque.elems;
      ghost var target := paths + Lines(targetWord, FoundAmong(data, targetWord, d0, i, neighbors.elems));
      var candidates := neighbors;
      while !IsEmpty(candidates)
        invariant positionsDeque.elems == d0
        invariant forall q :: q in candidates.elems ==> InBounds(data, q)
        invariant paths + Lines(targetWord, FoundAmong(data, targetWord, d0, i, candidates.elems)) == target
        decreases |candidates.elems|
      {
        var popped := Pop(candidates);
        candidates := popped.0;
        FoundAmongStep(data, targetWord, d0, i, paths, candidates.elems, popped.1);
        ExtendWith(positionsDeque, targetWord, i, popped.1);
      }
      LinesOfNothing(targetWord, paths);
    }

    /** The body of that loop: adds x at the back of the deque, searches from
        there at the next index and takes x off again. */
    method ExtendWith(positionsDeque: Deque<Position>, targetWord: string, i: int, x: Position)
      requires Valid()
      requires AllInBounds(data, positionsDeque.elems + [x])
      requires 0 <= i < |targetWord|
      modifies this`paths, positionsDeque
      ensures positionsDeque.elems == old(positionsDeque.elems)
      ensures paths == old(paths) + Lines(targetWord, Found(data, targetWord, old(positionsDeque.elems) + [x], i + 1))
      decreases |targetWord| - i, 0
    {
      ghost var d0 := positionsDeque.elems;
      DropAppended(d0, x);
      positionsDeque.AddLast(x);
      ComputeTreeOfWords(positionsDeque, targetWord, i + 1);
      var _ := positionsDeque.RemoveLast();
    }
  }

  /** What validateWord appends at d: the lines of Accepted. */
  lemma AcceptedLines(g: Table, w: string, d: seq<Position>, prefix: seq<string>)
    requires AllInBounds(g, d)
    ensures |d| != |w| ==> prefix + Lines(w, Accepted(g, w, d)) == prefix
    ensures |d| == |w| ==> prefix + Lines(w, Accepted(g, w, d))
                           == prefix + (if Spelled(g, d) == w then [PathLine(w, d)] else [])
  {
    assert prefix + [] == prefix;
  }

  lemma LinesOfNothing(w: string, prefix: seq<string>)
    ensures prefix + Lines(w, []) == prefix
  {
    assert prefix + [] == prefix;
  }

  /** At the last index the search accepts at most the deque itself. */
  lemma FoundAtEnd(g: Table, w: string, d: seq<Position>, prefix: seq<string>)
    requires d != [] && AllInBounds(g, d)
    ensures prefix + Lines(w, Found(g, w, d, |w|)) == prefix + Lines(w, Accepted(g, w, d))
  {
    assert Found(g, w, d, |w|) == Accepted(g, w, d) + [];
    assert Accepted(g, w, d) + [] == Accepted(g, w, d);
  }

  /** Before the last index: the deque itself, then what the neighbours lead to. */
  lemma FoundSplit(g: Table, w: string, d: seq<Position>, i: nat, prefix: seq<string>)
    requires d != [] && AllInBounds(g, d) && i < |w|
    ensures prefix + Lines(w, Found(g, w, d, i))
            == (prefix + Lines(w, Accepted(g, w, d)))
               + Lines(w, FoundAmong(g, w, d, i, Neighbors(g, d[|d| - 1], [w[i]])))
  {
    LinesAfter(prefix, w, Accepted(g, w, d), FoundAmong(g, w, d, i, Neighbors(g, d[|d| - 1], [w[i]])));
  }

  /** One turn of the neighbour loop: popping x appends what x leads to. */
  lemma FoundAmongStep(g: Table, w: string, d: seq<Position>, i: nat, prefix: seq<string>,
                       ns: seq<Position>, x: Position)
    requires d != [] && AllInBounds(g, d) && i < |w|
    requires forall q :: q in ns + [x] ==> InBounds(g, q)
    ensures AllInBounds(g, d + [x]) && forall q :: q in ns ==> InBounds(g, q)
    ensures prefix + Lines(w, FoundAmong(g, w, d, i, ns + [x]))
            == (prefix + Lines(w, Found(g, w, d + [x], i + 1))) + Lines(w, FoundAmong(g, w, d, i, ns))
  {
    FoundAmongPop(g, w, d, i, ns, x);
    LinesAfter(prefix, w, Found(g, w, d + [x], i + 1), FoundAmong(g, w, d, i, ns));
  }

  /** Appending the lines of a + b is appending those of a, then those of b. */
  lemma LinesAfter(prefix: seq<string>, word: string, a: seq<seq<Position>>, b: seq<seq<Position>>)
    ensures prefix + Lines(word, a + b) == (prefix + Lines(word, a)) + Lines(word, b)
  {
    LinesAppend(word, a, b);
    AppendAssoc(prefix, Lines(word, a), Lines(word, b));
  }
}
