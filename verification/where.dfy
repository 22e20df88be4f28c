/**
 * `where_iterator`: the filter adapter. Its cursor keeps the invariant
 * "at the end sentinel, or on an element the predicate accepts" after
 * construction and after every advance.
 */
module WhereAdapter {
  import opened Sequences
  import opened Enumerables

  class WhereCursor<T> {
    const src: seq<T>
    var pos: nat              // _iterator
    const end: nat            // _end
    const pred: T -> bool     // _function

    ghost predicate Valid()
      reads this
    {
      pos <= end <= |src| && (pos == end || pred(src[pos]))
    }

    /** What a traversal from here to the end sentinel yields. */
    ghost function Rest(): seq<T>
      reads this
      requires Valid()
    {
      Filter(pred, src[pos..end])
    }

    /**
     * Construction skips the run of rejected elements at the start: the cursor
     * stops on the first accepted element at or after `i`, or at `e`.
     */
    constructor (src: seq<T>, i: nat, e: nat, p: T -> bool)
      requires i <= e <= |src|
      ensures Valid()
      ensures this.src == src && end == e && pred == p
      ensures i <= pos && forall j :: i <= j < pos ==> !p(src[j])
      ensures Rest() == Filter(p, src[i..e])
    {
      var k := i;
      while k != e && !p(src[k])
        invariant i <= k <= e
        invariant forall j :: i <= j < k ==> !p(src[j])
        invariant Filter(p, src[k..e]) == Filter(p, src[i..e])
      {
        FilterUnfold(p, src, k, e);
        k := k + 1;
      }
      this.src := src;
      pos := k;
      end := e;
      pred := p;
    }

    /** The implicit copy constructor: an independent cursor with the same state. */
    constructor Copy(other: WhereCursor<T>)
      requires other.Valid()
      ensures Valid()
      ensures src == other.src && pos == other.pos && end == other.end && pred == other.pred
    {
      src := other.src;
      pos := other.pos;
      end := other.end;
      pred := other.pred;
    }

    /**
     * `operator++`: a no-op at the end sentinel; otherwise moves strictly
     * forward past every rejected element to the next accepted one (or the
     * end), so the rest of the traversal loses exactly its first element.
     */
    method Advance()
      requires Valid()
      modifies this
      ensures Valid()
      ensures old(pos) == end ==> pos == old(pos)
      ensures old(pos) != end ==> old(pos) < pos && Rest() == old(Rest())[1..]
      ensures forall j :: old(pos) < j < pos ==> !pred(src[j])
    {
      if pos == end {
        return;
      }
      FilterUnfold(pred, src, pos, end);
      pos := pos + 1;
      while pos != end && !pred(src[pos])
        invariant old(pos) < pos <= end
        invariant forall j :: old(pos) < j < pos ==> !pred(src[j])
        invariant Filter(pred, src[pos..end]) == old(Rest())[1..]
      {
        FilterUnfold(pred, src, pos, end);
        pos := pos + 1;
      }
    }

    /** `operator*`: the current element, which is the first one the rest of the traversal yields. */
    function Read(): (x: T)
      reads this
      requires Valid() && pos != end
      ensures Rest() != [] && x == Rest()[0]
    {
      FilterUnfold(pred, src, pos, end);
      src[pos]
    }

    /**
     * `operator==`: compares the inner cursors only. Meeting a cursor that
     * sits on the end sentinel means nothing is left to yield.
     */
    predicate Equals(other: WhereCursor<T>)
      reads this, other
      ensures Valid() && other.pos == end ==> (Equals(other) <==> Rest() == [])
    {
      other.pos == pos
    }

    /** `operator!=`: the negation of `operator==`. */
    predicate NotEquals(other: WhereCursor<T>)
      reads this, other
      ensures NotEquals(other) <==> !Equals(other)
    {
      !(other.pos == pos)
    }
  }

  /** `where(p)`: wrap the begin cursor and the end cursor, both with the same end and predicate. */
  method Where<T>(src: seq<T>, e: Enumerable<nat>, p: T -> bool) returns (w: Enumerable<WhereCursor<T>>)
    requires e.Begin() <= e.End() <= |src|
    ensures fresh(w.Begin()) && fresh(w.End()) && w.Begin() != w.End()
    ensures w.Begin().Valid() && w.End().Valid()
    ensures w.Begin().src == src && w.Begin().end == e.End() && w.Begin().pred == p
    ensures w.End().src == src && w.End().end == e.End() && w.End().pred == p
    ensures w.End().pos == e.End()
    ensures w.Begin().Rest() == Filter(p, src[e.Begin()..e.End()])
  {
    var b := new WhereCursor(src, e.Begin(), e.End(), p);
    var l := new WhereCursor(src, e.End(), e.End(), p);
    w := Enumerable(b, l);
  }

  /**
   * The consumer's loop over a filtered enumerable: copy the begin cursor,
   * read and advance until it equals the end cursor. It yields exactly what
   * the begin cursor's `Rest()` promises.
   */
  method TraverseWhere<T>(e: Enumerable<WhereCursor<T>>) returns (out: seq<T>)
    requires e.Begin().Valid() && e.End().Valid()
    requires e.End().pos == e.Begin().end
    ensures out == e.Begin().Rest()
  {
    var last := e.End();
    var first := new WhereCursor.Copy(e.Begin());
    out := [];
    while first.NotEquals(last)
      invariant first.Valid()
      invariant first.src == e.Begin().src && first.end == e.Begin().end && first.pred == e.Begin().pred
      invariant out + first.Rest() == e.Begin().Rest()
      decreases |first.Rest()|
    {
      ghost var rest := first.Rest();
      var x := first.Read();
      first.Advance();
      AppendHead(out, rest);
      out := out + [x];
    }
  }

  /** `from(src).where(p)` traversed in order yields exactly the in-order filter of `src`. */
  method WhereOf<T>(src: seq<T>, p: T -> bool) returns (out: seq<T>)
    ensures out == Filter(p, src)
  {
    var w := Where(src, From(src), p);
    out := TraverseWhere(w);
    assert src[0..|src|] == src;
  }

  /** Over an empty source the begin cursor of `where` is already equal to its end cursor. */
  method WhereOfEmpty<T>(p: T -> bool) returns (atEnd: bool, out: seq<T>)
    ensures atEnd && out == []
  {
    var empty: seq<T> := [];
    var w := Where(empty, From(empty), p);
    atEnd := w.Begin().Equals(w.End());
    out := TraverseWhere(w);
  }
}
