/** java.util.ArrayDeque, as far as the search uses it: a double-ended queue
    object that the recursive search shares and updates in place. */
module Deques {

  class Deque<T> {
    /** The elements, front first. */
    var elems: seq<T>

    constructor ()
      ensures elems == []
    {
      elems := [];
    }

    method AddFirst(x: T)
      modifies this
      ensures elems == [x] + old(elems)
    {
      elems := [x] + elems;
    }

    method AddLast(x: T)
      modifies this
      ensures elems == old(elems) + [x]
    {
      elems := elems + [x];
    }

    method RemoveFirst() returns (x: T)
      requires elems != []
      modifies this
      ensures x == old(elems)[0] && elems == old(elems)[1..]
      ensures [x] + elems == old(elems)
    {
      x := elems[0];
      elems := elems[1..];
    }

    method RemoveLast() returns (x: T)
      requires elems != []
      modifies this
      ensures x == old(elems)[|old(elems)| - 1] && elems == old(elems)[..|old(elems)| - 1]
    {
      x := elems[|elems| - 1];
      elems := elems[..|elems| - 1];
    }

    method GetLast() returns (x: T)
      requires elems != []
      ensures x == elems[|elems| - 1]
    {
      x := elems[|elems| - 1];
    }

    method IsEmpty() returns (b: bool)
      ensures b <==> elems == []
    {
      b := elems == [];
    }

    method Size() returns (n: nat)
      ensures n == |elems|
    {
      n := |elems|;
    }

    /** clone(): a fresh deque with the same elements. */
    method Clone() returns (d: Deque<T>)
      ensures fresh(d) && d.elems == elems
    {
      d := new Deque<T>();
      d.elems := elems;
    }
  }
}
