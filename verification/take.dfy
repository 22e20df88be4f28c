/**
 * `take_iterator`: the bounded-prefix adapter. It counts the elements it has
 * stepped over and forces its inner cursor to the end sentinel as soon as the
 * running count reaches the configured count.
 *
 * `count` and `cur` are C++ `int`s; they are unbounded here (`cur` never
 * exceeds the length of the source, so no wrap-around can happen before the
 * source is exhausted for any source shorter than 2^31 elements).
 */
module TakeAdapter {
  import opened Sequences
  import opened Enumerables

  class TakeCursor<T> {
    const src: seq<T>
    var pos: nat              // _iterator
    const end: nat            // _end
    const count: int          // _count
    var cur: int              // _cur

    /**
     * The running count never goes below zero; for a non-negative limit it
     * never passes it, and once it reaches it the cursor sits on the sentinel.
     */
    ghost predicate Valid()
      reads this
    {
      pos <= end <= |src| && 0 <= cur &&
      (count >= 0 ==> cur <= count && (cur == count ==> pos == end))
    }

    /** What a traversal from here to the end sentinel yields. */
    ghost function Rest(): seq<T>
      reads this
      requires Valid()
    {
      Take(src[pos..end], if count < 0 then count else count - cur)
    }

    /** Construction: the running count starts at 0; a count of 0 jumps straight to the sentinel. */
    constructor (src: seq<T>, i: nat, e: nat, c: int)
      requires i <= e <= |src|
      ensures Valid()
      ensures this.src == src && end == e && count == c && cur == 0
      ensures pos == if c == 0 then e else i
      ensures Rest() == Take(src[i..e], c)
    {
      this.src := src;
      end := e;
      count := c;
      cur := 0;
      pos := i;
      new;
      if cur == count {
        pos := end;
      }
    }

    /** The implicit copy constructor: an independent cursor with the same state. */
    constructor Copy(other: TakeCursor<T>)
      requires other.Valid()
      ensures Valid()
      ensures src == other.src && pos == other.pos && end == other.end
      ensures count == other.count && cur == other.cur
    {
      src := other.src;
      pos := other.pos;
      end := other.end;
      count := other.count;
      cur := other.cur;
    }

    /**
     * `operator++`: the running count goes up by one; if it now equals the
     * limit the cursor is forced to the sentinel, otherwise the inner cursor
     * steps once. Either way the rest of the traversal loses its first element.
     */
    method Advance()
      requires Valid() && pos != end
      modifies this
      ensures Valid()
      ensures cur == old(cur) + 1
      ensures pos == if cur == count then end else old(pos) + 1
      ensures Rest() == old(Rest())[1..]
    {
      cur := cur + 1;
      if cur == count {
        pos := end;
      } else {
        pos := pos + 1;
      }
    }

    /** `operator*`: the current element, which is the first one the rest of the traversal yields. */
    function Read(): (x: T)
      reads this
      requires Valid() && pos != end
      ensures Rest() != [] && x == Rest()[0]
    {
      src[pos]
    }

    /**
     * `operator==`: compares the inner cursors only, not the counts. Meeting a
     * cursor that sits on the end sentinel means nothing is left to yield.
     */
    predicate Equals(other: TakeCursor<T>)
      reads this, other
      ensures Valid() && other.pos == end ==> (Equals(other) <==> Rest() == [])
    {
      other.pos == pos
    }

    /** `operator!=`: the negation of `operator==`. */
    predicate NotEquals(other: TakeCursor<T>)
      reads this, other
      ensures NotEquals(other) <==> !Equals(other)
    {
      !(other.pos == pos)
    }
  }

  /** `take(n)`: wrap the begin cursor and the end cursor with the same end and count. */
  method TakeOver<T>(src: seq<T>, e: Enumerable<nat>, n: int) returns (t: Enumerable<TakeCursor<T>>)
    requires e.Begin() <= e.End() <= |src|
    ensures fresh(t.Begin()) && fresh(t.End()) && t.Begin() != t.End()
    ensures t.Begin().Valid() && t.End().Valid()
    ensures t.Begin().src == src && t.Begin().end == e.End() && t.Begin().count == n
    ensures t.End().src == src && t.End().end == e.End() && t.End().count == n
    ensures t.End().pos == e.End()
    ensures t.Begin().Rest() == Take(src[e.Begin()..e.End()], n)
  {
    var b := new TakeCursor(src, e.Begin(), e.End(), n);
    var l := new TakeCursor(src, e.End(), e.End(), n);
    t := Enumerable(b, l);
  }

  /** The consumer's loop over a bounded-prefix enumerable: it yields what `Rest()` promises. */
  method TraverseTake<T>(e: Enumerable<TakeCursor<T>>) returns (out: seq<T>)
    requires e.Begin().Valid() && e.End().Valid()
    requires e.End().pos == e.Begin().end
    ensures out == e.Begin().Rest()
  {
    var last := e.End();
    var first := new TakeCursor.Copy(e.Begin());
    out := [];
    while first.NotEquals(last)
      invariant first.Valid()
      invariant first.src == e.Begin().src && first.end == e.Begin().end && first.count == e.Begin().count
      invariant out + first.Rest() == e.Begin().Rest()
      decreases |first.Rest()|
    {
      ghost var rest := first.Rest();
      var x := first.Read();
      first.Advance();
      AppendHead(out, rest);
      out := out + [x];
    }
  }

  /**
   * `from(src).take(n)` for a non-negative `n` yields the first `min(n, |src|)`
   * elements of `src`, in order; in particular `take(0)` yields nothing.
   */
  method TakeOf<T>(src: seq<T>, n: int) returns (out: seq<T>)
    requires n >= 0
    ensures |out| == Min(n, |src|)
    ensures out == src[..Min(n, |src|)]
  {
    var t := TakeOver(src, From(src), n);
    out := TraverseTake(t);
    assert src[0..|src|] == src;
  }

  /** With a negative count the running count never meets it, so nothing is cut off. */
  method TakeOfNegative<T>(src: seq<T>, n: int) returns (out: seq<T>)
    requires n < 0
    ensures out == src
  {
    var t := TakeOver(src, From(src), n);
    out := TraverseTake(t);
    assert src[0..|src|] == src;
  }
}
