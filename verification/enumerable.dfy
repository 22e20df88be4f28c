/**
 * `linq_enumerable`: an immutable pair of cursors (begin, end sentinel) over
 * some source, and `from`, which builds the root one over a container.
 *
 * The container is a `seq<T>` and its own cursor (the container iterator) is
 * an index into it; `|c|` is the one-past-the-end position.
 */
module Enumerables {

  /** The stored begin and end cursors; never changed after construction. */
  datatype Enumerable<C> = Enumerable(beginCursor: C, endCursor: C)
  {
    /** The begin cursor exactly as stored (a copy, for value cursors). */
    function Begin(): C { beginCursor }

    /** The end sentinel exactly as stored. */
    function End(): C { endCursor }
  }

  /** Building an enumerable and asking for begin/end gives back the two cursors it was built with. */
  lemma BeginEndAsBuilt<C>(b: C, e: C)
    ensures Enumerable(b, e).Begin() == b && Enumerable(b, e).End() == e
  {
  }

  /** `from(c)`: the container's begin position (index 0) and end position (`|c|`). */
  function From<T>(c: seq<T>): (e: Enumerable<nat>)
    ensures e.Begin() == 0 && e.End() == |c|
  {
    Enumerable(0, |c|)
  }

  /**
   * The consumer's loop over a container-cursor enumerable: copy the begin
   * cursor, read and advance it until it equals the end cursor.
   */
  method TraverseRange<T>(c: seq<T>, e: Enumerable<nat>) returns (out: seq<T>)
    requires e.Begin() <= e.End() <= |c|
    ensures out == c[e.Begin()..e.End()]
  {
    var first := e.Begin();
    out := [];
    while first != e.End()
      invariant e.Begin() <= first <= e.End()
      invariant out == c[e.Begin()..first]
      decreases e.End() - first
    {
      out := out + [c[first]];
      first := first + 1;
    }
  }

  /** Traversing `from(c)` yields the container's elements, all of them, in order. */
  method FromElements<T>(c: seq<T>) returns (out: seq<T>)
    ensures out == c
  {
    out := TraverseRange(c, From(c));
  }
}
