/**
 * `skip_iterator`: the skip adapter. Construction steps the inner cursor over
 * up to `count` elements, never past the end sentinel; afterwards advance and
 * read pass straight through to the inner cursor.
 */
module SkipAdapter {
  import opened Sequences
  import opened Enumerables

  class SkipCursor<T> {
    const src: seq<T>
    var pos: nat              // _iterator
    const end: nat            // _end
    var count: int            // _count, used up by the constructor

    ghost predicate Valid()
      reads this
    {
      pos <= end <= |src|
    }

    /** What a traversal from here to the end sentinel yields. */
    ghost function Rest(): seq<T>
      reads this
      requires Valid()
    {
      src[pos..end]
    }

    /**
     * Construction steps forward while the cursor is not at the end and the
     * count, tested before it is decremented, is positive. The decrement
     * happens only when the cursor is not yet at the end, so a loop stopped by
     * the count leaves `count` one below zero (or one below the initial
     * non-positive count). The count is unbounded here: a 32-bit count of
     * -2^31 would overflow at that decrement.
     */
    constructor (src: seq<T>, i: nat, e: nat, c: int)
      requires i <= e <= |src|
      ensures Valid()
      ensures this.src == src && end == e
      ensures pos == i + Min(if c < 0 then 0 else c, e - i)
      ensures count == c - (pos - i) - (if pos != e then 1 else 0)
      ensures Rest() == Skip(src[i..e], c)
    {
      var k := i;
      var n := c;
      while k != e && n > 0
        invariant i <= k <= e
        invariant n == c - (k - i)
        invariant k - i <= if c < 0 then 0 else c
      {
        n := n - 1;
        k := k + 1;
      }
      if k != e {
        // the comparison that ended the loop still decremented the count
        n := n - 1;
      }
      this.src := src;
      pos := k;
      end := e;
      count := n;
    }

    /** The implicit copy constructor: an independent cursor with the same state. */
    constructor Copy(other: SkipCursor<T>)
      requires other.Valid()
      ensures Valid()
      ensures src == other.src && pos == other.pos && end == other.end && count == other.count
    {
      src := other.src;
      pos := other.pos;
      end := other.end;
      count := other.count;
    }

    /** `operator++`: delegates to the inner cursor, one step. */
    method Advance()
      requires Valid() && pos != end
      modifies this
      ensures Valid()
      ensures pos == old(pos) + 1 && count == old(count)
      ensures Rest() == old(Rest())[1..]
    {
      pos := pos + 1;
    }

    /** `operator*`: the current element, which is the first one the rest of the traversal yields. */
    function Read(): (x: T)
      reads this
      requires Valid() && pos != end
      ensures Rest() != [] && x == Rest()[0]
    {
      src[pos]
    }

    /**
     * `operator==`: compares the inner cursors only. Meeting a cursor that
     * sits on the end sentinel means nothing is left to yield.
     */
    predicate Equals(other: SkipCursor<T>)
      reads this, other
      ensures Valid() && other.pos == end ==> (Equals(other) <==> Rest() == [])
    {
      other.pos == pos
    }

    /** `operator!=`: the negation of `operator==`. */
    predicate NotEquals(other: SkipCursor<T>)
      reads this, other
      ensures NotEquals(other) <==> !Equals(other)
    {
      !(other.pos == pos)
    }
  }

  /** `skip(n)`: wrap the begin cursor and the end cursor with the same end and count. */
  method SkipOver<T>(src: seq<T>, e: Enumerable<nat>, n: int) returns (s: Enumerable<SkipCursor<T>>)
    requires e.Begin() <= e.End() <= |src|
    ensures fresh(s.Begin()) && fresh(s.End()) && s.Begin() != s.End()
    ensures s.Begin().Valid() && s.End().Valid()
    ensures s.Begin().src == src && s.Begin().end == e.End()
    ensures s.End().src == src && s.End().end == e.End()
    ensures s.End().pos == e.End() && s.End().count == n
    ensures s.Begin().Rest() == Skip(src[e.Begin()..e.End()], n)
  {
    var b := new SkipCursor(src, e.Begin(), e.End(), n);
    var l := new SkipCursor(src, e.End(), e.End(), n);
    s := Enumerable(b, l);
  }

  /** The consumer's loop over a skipping enumerable: it yields what `Rest()` promises. */
  method TraverseSkip<T>(e: Enumerable<SkipCursor<T>>) returns (out: seq<T>)
    requires e.Begin().Valid() && e.End().Valid()
    requires e.End().pos == e.Begin().end
    ensures out == e.Begin().Rest()
  {
    var last := e.End();
    var first := new SkipCursor.Copy(e.Begin());
    out := [];
    while first.NotEquals(last)
      invariant first.Valid()
      invariant first.src == e.Begin().src && first.end == e.Begin().end
      invariant out + first.Rest() == e.Begin().Rest()
      decreases |first.Rest()|
    {
      ghost var rest := first.Rest();
      var x := first.Read();
      first.Advance();
      AppendHead(out, rest);
      out := out + [x];
    }
  }

  /**
   * `from(src).skip(n)` yields `src` from index `n` on: the suffix of
   * `max(0, |src| - n)` elements, none at all when `n >= |src|`, and all of
   * `src` when `n <= 0`.
   */
  method SkipOf<T>(src: seq<T>, n: int) returns (out: seq<T>)
    ensures |out| == |src| - Min(if n < 0 then 0 else n, |src|)
    ensures out == src[|src| - |out|..]
    ensures n >= |src| ==> out == []
  {
    var s := SkipOver(src, From(src), n);
    out := TraverseSkip(s);
    assert src[0..|src|] == src;
  }
}
