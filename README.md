# Word search in a grid of symbols, verified

A model of a word-search program. A puzzle is a rectangular table whose cells
hold strings, usually one symbol each, plus a list of words. For every word
of two or more symbols it reports every sequence of positions that spells
it. A word of one symbol yields nothing (see "## Left out"). The model reads
symbols per Unicode scalar value, where Java counts UTF-16 code units. Each step
goes to a cell at king-move distance at most one, and staying on the same
cell counts as a step. Each path is printed as
`word: (r0,c0)->(r1,c1)->...`, and the lines of one puzzle are sorted before
they are printed.

The search is a backtracking recursion over one shared `ArrayDeque` of
positions (`WordPuzzle.computeTreeOfWords`). It pushes each candidate
neighbour, recurses and pops the neighbour again. When the deque is as long
as the word, `validateWord` drains the deque to read its cells, restores it
and records the rendered line. The driver (`Main`) seeds the deque with each
cell that holds the word's first symbol. For each seed it calls the search
for every index `i = 1 .. |word| - 1`, and at the end it sorts the lines.

The model follows the program's structure:

- `positions.dfy`: the `Position` value and its text `"(row,column)"`.
  Java's decimal rendering of an `int` is written out, and it is proved to
  read back to the same number.
- `array_stack.dfy`: the LIFO stack the search pushes and pops.
- `deque.dfy`: the deque as a class whose contents the methods update in
  place, with the operations the search performs on it.
- `grid.dfy`: the table, the offset table of `findValidNeighbors`, and
  specification functions for the two lookups.
- `path_lines.dfy`: the rendered line of one path, and its injectivity.
- `string_order.dfy`: the order used by `Collections.sort` and a sort
  specified by its result.
- `search_spec.dfy`: `Found`, the paths the backtracking search accepts, in
  the order it reaches them, and proofs that these are exactly the valid
  paths.
- `word_puzzle.dfy`: the `WordPuzzle` class. Its methods are proved against
  the functions above.
- `queries.dfy`: the driver loop over words and start cells, and the
  properties of what one query reports.

## Model

| member | source | states |
|---|---|---|
| Positions.Position.GetRow | Position.java:33-35 | the row the position was built with |
| Positions.Position.GetColumn | Position.java:42-44 | the column the position was built with |
| Positions.PositionString | Position.java:51-53 | "(" + the row's decimal text + "," + the column's + ")", with no spaces: the text opens with "(", closes with ")", and is three characters longer than the two numerals together (PositionStringShape and PositionStringInjective state the rest) |
| Positions.GettersReturnConstructorArguments | Position.java:23-44 | getRow and getColumn give back the row and column the position was built with |
| Positions.NatToDecimalShape | Position.java:51-53 | the decimal text of a natural number is non-empty, all digits, and has no leading zero |
| Positions.NatToDecimalRoundTrip | Position.java:51-53 | reading back the decimal text of a natural number gives that number |
| Positions.IntToDecimalShape | Position.java:51-53 | the text of an int is non-empty and holds only digits and minus signs |
| Positions.IntToDecimalRoundTrip | Position.java:51-53 | the text of any int, with its minus sign, reads back to that int |
| Positions.IntToDecimalInjective | Position.java:51-53 | different ints get different texts |
| Positions.PositionStringShape | Position.java:51-53 | a position string starts with "(", ends with ")", and has no ")" before the end |
| Positions.PositionStringInjective | Position.java:51-53 | distinct positions, negative coordinates included, render to distinct strings |
| Positions.PositionStringPrefix | Position.java:51-53 | a position string followed by any text fixes both the position and the text |
| ArrayStacks.Empty | WordPuzzle.java:103 | a new stack is empty |
| ArrayStacks.Push | WordPuzzle.java:111 | after a push the stack is not empty |
| ArrayStacks.IsEmpty | Main.java:52 | true exactly when the stack holds no element (also used at WordPuzzle.java:270, 310 and 315) |
| ArrayStacks.Pop | Main.java:52-55 | pop yields the top element and the stack below it, which together make the old stack |
| ArrayStacks.PopUndoesPush | WordPuzzle.java:266-271 | each pop returns the element of the last push and the stack as it was before that push |
| Deques.Deque.constructor | Main.java:58 | a new deque is empty |
| Deques.Deque.AddFirst | Main.java:59 | the element goes in front and nothing else changes |
| Deques.Deque.AddLast | WordPuzzle.java:316 | the element goes at the back and nothing else changes |
| Deques.Deque.RemoveFirst | WordPuzzle.java:261 | the front element is returned and removed |
| Deques.Deque.RemoveLast | WordPuzzle.java:318 | the back element is returned and removed |
| Deques.Deque.GetLast | WordPuzzle.java:307 | the back element is returned and the deque is unchanged |
| Deques.Deque.IsEmpty | WordPuzzle.java:260 | true exactly when the deque holds nothing |
| Deques.Deque.Size | WordPuzzle.java:295 | the number of elements |
| Deques.Deque.Clone | WordPuzzle.java:254 | a new deque with the same contents, which later changes to the original do not affect |
| Grids.OffsetsDistinct | WordPuzzle.java:152-154 | the nine offsets are pairwise distinct |
| Grids.OffsetsCover | WordPuzzle.java:152-154 | every offset of at most one step in each direction, (0,0) included, is in the table |
| Grids.NeighborsUpToExactly | WordPuzzle.java:157-172 | after the first k offsets the stack holds at most k positions, each once: exactly the in-bounds cells holding the symbol whose offset is among those k |
| Grids.NeighborsExactly | WordPuzzle.java:146-176 | a position is a neighbour exactly when it is in bounds, its cell equals the symbol, and it is at Chebyshev distance at most 1 |
| Grids.NeighborsIncludeSelf | WordPuzzle.java:152-154 | the position itself is among its neighbours exactly when its own cell equals the symbol |
| Grids.NeighborsAtMostNine | WordPuzzle.java:146-176 | at most nine neighbours, all distinct |
| Grids.RowOccurrencesExactly | WordPuzzle.java:107-113 | the cells of one row left of column j that hold the symbol, exactly, left to right |
| Grids.OccurrencesAboveExactly | WordPuzzle.java:106-114 | the cells above row i that hold the symbol, exactly, in row-major order |
| Grids.Occurrences | WordPuzzle.java:102-117 | every start found holds the symbol |
| Grids.OccurrencesExactly | WordPuzzle.java:102-117 | the occurrences are exactly the in-bounds cells holding the symbol, each once, in row-major order |
| PathLines.JoinSnoc | WordPuzzle.java:194-202 | one more position adds an arrow and its string to the text |
| PathLines.JoinTake | WordPuzzle.java:194-202 | the text of the first k positions is the text built before the k-th plus its string |
| PathLines.RenderedArrow | WordPuzzle.java:196-201 | visiting a position that is not the last appends its string and an arrow |
| PathLines.RenderedLast | WordPuzzle.java:196-199 | visiting the last position appends its string alone |
| PathLines.RenderedAll | WordPuzzle.java:186-202 | after the whole deque the text is the position strings joined by "->" |
| PathLines.JoinInjective | WordPuzzle.java:194-202 | different position sequences give different joined text |
| PathLines.PathLineInjective | WordPuzzle.java:186-207 | two lines for the same word are equal only for the same path |
| PathLines.LinesAt | WordPuzzle.java:207 | line k renders path k, and there is one line per path |
| PathLines.LinesAppend | WordPuzzle.java:207 | the lines of two runs of paths are those of the first, then those of the second |
| PathLines.LinesFaithful | WordPuzzle.java:207 | a line is present exactly when it renders one of the paths, and distinct paths give distinct lines |
| StringOrder.LexLeReflexive | WordPuzzle.java:219-222 | the string order is reflexive |
| StringOrder.LexLeTotal | WordPuzzle.java:219-222 | any two strings are comparable |
| StringOrder.LexLeAntisymmetric | WordPuzzle.java:219-222 | strings ordered both ways are equal |
| StringOrder.LexLeTransitive | WordPuzzle.java:219-222 | the string order is transitive |
| StringOrder.Insert | WordPuzzle.java:219-222 | inserting into a sorted list keeps it sorted and adds exactly that string |
| StringOrder.Sort | WordPuzzle.java:219-222 | the result is sorted and is a permutation of the input |
| StringOrder.SortedUnique | WordPuzzle.java:219-222 | two sorted permutations of the same lines are equal, so the sorted output depends only on which lines were collected |
| SearchSpec.FoundAmongPop | WordPuzzle.java:315-317 | popping a neighbour first yields what that neighbour leads to, then what the rest lead to |
| SearchSpec.SpelledValidPrefix | WordPuzzle.java:260-275 | along a valid prefix the cells read in deque order spell the same prefix of the word |
| SearchSpec.FoundExactly | WordPuzzle.java:292-320 | from a valid prefix of length i the search accepts exactly the valid paths that extend it, each once |
| SearchSpec.ExtendValidPrefix | WordPuzzle.java:305-317 | adding a neighbour that holds the next symbol keeps the prefix valid |
| SearchSpec.FoundAmongExactly | WordPuzzle.java:315-319 | the neighbour loop accepts exactly the valid paths through one of the neighbours, each once |
| SearchSpec.FoundNothingBehind | WordPuzzle.java:295-303 | started with a deque shorter than i, the search never sees a full-length deque and accepts nothing |
| SearchSpec.FoundAmongNothingBehind | WordPuzzle.java:315-319 | the same holds for the neighbour loop of such a call |
| SearchSpec.FoundFromStart | WordPuzzle.java:292-320 | seeded with one cell holding the first symbol at i = 1, the search accepts exactly the valid paths for the word that begin there, each once |
| WordPuzzles.WordPuzzle.constructor | WordPuzzle.java:31-37 | the dimensions are those of the table, and the puzzle starts with no lines |
| WordPuzzles.WordPuzzle.GetWords | WordPuzzle.java:91-93 | the word list the puzzle was built with, in its order |
| WordPuzzles.WordPuzzle.IsCharacterAtPosition | WordPuzzle.java:127-136 | false outside the table; inside it, whether that cell equals the string; so it is exactly the `Matches` predicate the search specification uses |
| WordPuzzles.WordPuzzle.FindAllOccurrencesOfCharacter | WordPuzzle.java:102-117 | the stack holds the cells equal to the string, in row-major order |
| WordPuzzles.WordPuzzle.FindValidNeighbors | WordPuzzle.java:146-176 | the stack holds the matching neighbours, in offset-table order |
| WordPuzzles.WordPuzzle.PrintDequeOfPositions | WordPuzzle.java:186-208 | exactly one line, word + ": " + the position strings joined by "->", is appended, and earlier lines are unchanged |
| WordPuzzles.WordPuzzle.ValidateWord | WordPuzzle.java:250-281 | returns whether the cells along the deque spell the word, appends that one line exactly when it does, and leaves the deque's contents and order as they were |
| WordPuzzles.WordPuzzle.SortPathsAlphabetically | WordPuzzle.java:219-222 | afterwards the lines are sorted and are a permutation of the lines before |
| WordPuzzles.WordPuzzle.ComputeTreeOfWords | WordPuzzle.java:292-320 | appends the lines of exactly the paths Found accepts, in the order the search reaches them, and returns the deque as it received it |
| WordPuzzles.WordPuzzle.ExtendWithEachNeighbor | WordPuzzle.java:315-319 | draining the neighbour stack appends what each popped neighbour leads to, and restores the deque |
| WordPuzzles.WordPuzzle.ExtendWith | WordPuzzle.java:316-318 | each addLast is undone by its removeLast, and the recursive call's lines are appended |
| Queries.SearchWord | Main.java:43-65 | for one word, the lines appended are those of every start cell, popped in stack order, with the search run for every i from 1 to the word's length minus 1 |
| Queries.ProcessPuzzle | Main.java:43-68 | a fresh puzzle collects the lines of its words in word order, and the output is their sorted arrangement |
| Queries.ProcessQueries | Main.java:38-70 | each query's output depends only on its own table and words, since each query gets a new, empty puzzle |
| Queries.LaterCallsAddNothing | Main.java:62-63 | the calls with i >= 2 add no line |
| Queries.StartLinesFirstCall | Main.java:62-64 | everything a start yields comes from the call with i = 1, and a one-symbol word gets no call at all |
| Queries.SingleSymbolWordsFindNothing | Main.java:62-64 | a one-symbol word yields no line, whatever the table |
| Queries.LinesOfStart | Main.java:55-64 | one start yields one line per valid path beginning at it, none twice |
| Queries.StartsLinesExactly | Main.java:49-65 | distinct start cells holding the first symbol yield one line per valid path beginning at one of them, none twice |
| Queries.WordLinesExactly | Main.java:43-65 | a word of two or more symbols yields one line per valid path for it, none twice |
| Queries.StartOrderIrrelevant | Main.java:52-55 | popping the start cells in another order yields the same lines, each as often |
| Queries.PuzzleLinesAppend | Main.java:43 | the lines of two runs of words are those of the first, then those of the second |
| Queries.WordOrderIrrelevant | Main.java:43-66 | processing the words in another order collects the same lines, each as often |
| Queries.SortedOutputIgnoresWordOrder | Main.java:43-68 | so the sorted output of a query does not depend on the order of its words |
| Queries.PuzzleLinesExactly | Main.java:43-68 | a query reports exactly the rendered valid paths of its words of two or more symbols |

A valid path for a word `w` (`SearchSpec.ValidPath`) is a sequence of
`|w|` positions. Its k-th cell is the one-symbol string `w[k]`, and each
position is at Chebyshev distance at most 1 from the one before.

## Left out

- Reading the input (`WordPuzzle.parseChunk`, the file handling and the
  chunk loop's I/O in `Main`) is left out. A query is given as a `Chunk`
  holding a table with at least one row, all rows as long as the first, and
  the word list.
- Console output is left out: the "Query n:" header, and the printing loop
  of `printSortedPaths`. `Queries.ProcessPuzzle` returns the sorted lines
  that would be printed. The exception handler in `Main` is left out too.
- `Puzzle.java` is an interface without behaviour and is not part of this
  model.
- The source of `ArrayStack` is not shown. It is modelled as a value
  holding a sequence, top last. Each stack belongs to one method at a time,
  so a value that each push and pop replaces behaves like the mutated
  object.
- `Collections.sort` is specified by its result: a sorted permutation,
  which is unique. Java compares strings by UTF-16 code units, while the
  model compares Dafny characters (Unicode scalar values). The two orders
  differ only for characters outside the Basic Multilingual Plane.
- `StringBuilder`, the deque iterator and `String.valueOf(char)` become
  string concatenation, an index loop over the deque's contents and a
  one-character string.
- Java's 32-bit `int` is modelled as an unbounded integer. A `Position` is
  built only for a cell inside the table. Only the intermediate sums
  `newRow` and `newCol` of `findValidNeighbors` can reach -1 or the table's
  size. No value wraps.
- WordPuzzles.WordPuzzle.ComputeTreeOfWords: reads the word one Unicode
  scalar value at a time. Java's `charAt` and `length()` count UTF-16 code
  units. For a word with a character outside the Basic Multilingual Plane,
  the model finds paths that Java never reports. In Java `charAt` yields a
  lone surrogate, which equals no cell. An example is a word of two U+1F600 characters on a
  one-cell table holding that character. For words inside that plane the two readings
  agree.
- Queries.SearchWord: takes the first symbol and the length of the word per
  Unicode scalar value, where `charAt(0)` and `length()` count UTF-16 code
  units. For a word with a character outside the Basic Multilingual Plane it
  therefore reports lines that Java does not. This is the same difference as
  for `ComputeTreeOfWords`.
- Queries.SearchWord: requires a non-empty word, because `word.charAt(0)`
  throws on an empty one.
- WordPuzzles.WordPuzzle.ValidateWord: requires every position of the deque
  to lie in the table, because the cell lookup throws otherwise. Every
  deque the search builds satisfies this.
- WordPuzzles.WordPuzzle.ComputeTreeOfWords: requires a non-empty deque
  inside the table and `0 <= i <= |word|`. This is an assumption that every
  caller meets, not a claim that other inputs throw.
  - Main.java:58-59 seeds a one-position deque with a cell taken from the
    table, and calls with i from 1 to `|word| - 1`.
  - The recursion at WordPuzzle.java:316-317 extends the deque only by
    neighbours inside the table, and passes `i + 1 <= |word|`.
  - Outside the assumption Java behaves in several ways. An empty deque
    with `i == |word| >= 1` returns without output (WordPuzzle.java:295,
    301-302). A deque ending outside the table, far enough that no
    neighbour is inside it, returns at WordPuzzle.java:310-312. A position
    outside the table makes `validateWord`'s cell lookup throw
    (WordPuzzle.java:262). An empty deque with `i < |word|` makes `getLast`
    throw, and `i > |word|` makes `charAt` throw.
  - The model does not cover these cases.
- WordPuzzles.WordPuzzle.ExtendWithEachNeighbor and
  WordPuzzles.WordPuzzle.ExtendWith: these are the `while` loop at the
  end of `computeTreeOfWords` and that loop's body, written as methods of
  their own. They add no behaviour.
- A one-symbol word yields no line, because the loop over `i` never runs
  (Main.java:62). The program is also described as reporting every path
  that spells each word. That description does not hold for such words.
  The model follows the code (`Queries.SingleSymbolWordsFindNothing`).
