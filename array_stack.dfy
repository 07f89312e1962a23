/** ArrayStack, whose source is not part of this model, as a plain LIFO stack.
    Every stack the search uses is created by one method and popped by its
    caller or by itself and never shared, so a stack value that each push and
    pop replaces behaves as the mutated object does. */
module ArrayStacks {

  /** The top of the stack is the last element. */
  datatype Stack<T> = Stack(elems: seq<T>)

  function Empty<T>(): (s: Stack<T>)
    ensures IsEmpty(s)
  {
    Stack([])
  }

  /** isEmpty(): nothing left to pop. */
  predicate IsEmpty<T>(s: Stack<T>): (b: bool)
    ensures b <==> |s.elems| == 0
  {
    s.elems == []
  }

  function Push<T>(s: Stack<T>, x: T): (r: Stack<T>)
    ensures !IsEmpty(r)
  {
    Stack(s.elems + [x])
  }

  /** Removes the top element and gives it back with the rest of the stack. */
  function Pop<T>(s: Stack<T>): (r: (Stack<T>, T))
    requires !IsEmpty(s)
    ensures r.0.elems + [r.1] == s.elems
  {
    (Stack(s.elems[..|s.elems| - 1]), s.elems[|s.elems| - 1])
  }

  /** Last in, first out: a pop undoes the push before it. */
  lemma PopUndoesPush<T>(s: Stack<T>, x: T)
    ensures Pop(Push(s, x)) == (s, x)
  {
    assert (s.elems + [x])[..|s.elems|] == s.elems;
  }
}
