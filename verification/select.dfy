/**
 * `select_iterator` and `linq_enumerable::select`: the projection adapter.
 *
 * The inner cursor is an index `pos` into `src`, the sequence the inner
 * cursor walks. A projection cursor has no end sentinel of its own: the
 * traversal stops when its inner cursor meets the inner cursor of the
 * enumerable's end cursor.
 */
module SelectAdapter {
  import opened Sequences
  import opened Enumerables

  class SelectCursor<T, U> {
    const src: seq<T>
    var pos: nat             // _iterator
    const fn: T -> U         // _function

    ghost predicate Valid()
      reads this
    {
      pos <= |src|
    }

    /** What a traversal from here up to the inner position `last` yields. */
    ghost function RestUntil(last: nat): seq<U>
      reads this
      requires Valid() && pos <= last <= |src|
    {
      Map(fn, src[pos..last])
    }

    constructor (src: seq<T>, i: nat, f: T -> U)
      requires i <= |src|
      ensures Valid()
      ensures this.src == src && pos == i && fn == f
    {
      this.src := src;
      pos := i;
      fn := f;
    }

    /** The implicit copy constructor: an independent cursor with the same state. */
    constructor Copy(other: SelectCursor<T, U>)
      requires other.Valid()
      ensures Valid()
      ensures src == other.src && pos == other.pos && fn == other.fn
    {
      src := other.src;
      pos := other.pos;
      fn := other.fn;
    }

    /** `operator++`: the inner cursor moves by exactly one; nothing else changes. */
    method Advance()
      requires Valid() && pos < |src|
      modifies this
      ensures Valid()
      ensures pos == old(pos) + 1
      ensures forall last :: pos <= last <= |src| ==> old(RestUntil(last)) == [fn(src[old(pos)])] + RestUntil(last)
    {
      pos := pos + 1;
      forall last | pos <= last <= |src|
        ensures old(RestUntil(last)) == [fn(src[old(pos)])] + RestUntil(last)
      {
        MapUnfold(fn, src, old(pos), last);
      }
    }

    /**
     * `operator*`: the function applied to the current inner element, which is
     * the head of what the rest of any traversal yields; the cursor does not move.
     */
    function Read(): (x: U)
      reads this
      requires Valid() && pos < |src|
      ensures forall last :: pos < last <= |src| ==> RestUntil(last) != [] && x == RestUntil(last)[0]
    {
      assert forall last :: pos < last <= |src| ==> RestUntil(last) == [fn(src[pos])] + Map(fn, src[pos + 1..last]) by {
        forall last | pos < last <= |src|
          ensures RestUntil(last) == [fn(src[pos])] + Map(fn, src[pos + 1..last])
        {
          MapUnfold(fn, src, pos, last);
        }
      }
      fn(src[pos])
    }

    /**
     * `operator==`: compares the inner cursors only, never the function. Meeting
     * the cursor at inner position `last` means nothing is left to yield up to it.
     */
    predicate Equals(other: SelectCursor<T, U>)
      reads this, other
      ensures Valid() && pos <= other.pos <= |src| ==> (Equals(other) <==> RestUntil(other.pos) == [])
    {
      other.pos == pos
    }

    /** `operator!=`: the negation of `operator==`. */
    predicate NotEquals(other: SelectCursor<T, U>)
      reads this, other
      ensures NotEquals(other) <==> !Equals(other)
    {
      !(other.pos == pos)
    }
  }

  /** Two projection cursors at the same inner position are equal whatever their functions. */
  lemma EqualityIgnoresFunction<T, U>(a: SelectCursor<T, U>, b: SelectCursor<T, U>)
    requires a.pos == b.pos
    ensures a.Equals(b) && b.Equals(a) && !a.NotEquals(b)
  {
  }

  /** `select(f)`: wrap both the begin and the end cursor with the same function. */
  method Select<T, U>(src: seq<T>, e: Enumerable<nat>, f: T -> U) returns (s: Enumerable<SelectCursor<T, U>>)
    requires e.Begin() <= e.End() <= |src|
    ensures fresh(s.Begin()) && fresh(s.End()) && s.Begin() != s.End()
    ensures s.Begin().Valid() && s.End().Valid()
    ensures s.Begin().src == src && s.End().src == src
    ensures s.Begin().fn == f && s.End().fn == f
    ensures s.Begin().pos == e.Begin() && s.End().pos == e.End()
  {
    var b := new SelectCursor(src, e.Begin(), f);
    var l := new SelectCursor(src, e.End(), f);
    s := Enumerable(b, l);
  }

  /** The consumer's loop over a projected enumerable: it yields `Map(fn, src[begin..end])`. */
  method TraverseSelect<T, U>(e: Enumerable<SelectCursor<T, U>>) returns (out: seq<U>)
    requires e.Begin().Valid() && e.End().Valid()
    requires e.Begin().src == e.End().src && e.Begin().pos <= e.End().pos
    ensures out == Map(e.Begin().fn, e.Begin().src[e.Begin().pos..e.End().pos])
  {
    var last := e.End();
    var first := new SelectCursor.Copy(e.Begin());
    out := [];
    while first.NotEquals(last)
      invariant first.Valid() && first.src == e.Begin().src && first.fn == e.Begin().fn
      invariant e.Begin().pos <= first.pos <= last.pos
      invariant out + first.RestUntil(last.pos) == e.Begin().RestUntil(last.pos)
      decreases last.pos - first.pos
    {
      var x := first.Read();
      first.Advance();
      out := out + [x];
    }
  }

  /** `from(src).select(f)` yields a sequence as long as `src` whose i-th element is `f(src[i])`. */
  method SelectOf<T, U>(src: seq<T>, f: T -> U) returns (out: seq<U>)
    ensures |out| == |src|
    ensures forall i :: 0 <= i < |src| ==> out[i] == f(src[i])
  {
    var s := Select(src, From(src), f);
    out := TraverseSelect(s);
    assert src[0..|src|] == src;
    MapAt(f, src);
  }
}
