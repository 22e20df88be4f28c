/**
 * `take_while_iterator`: the prefix-while adapter. Its cursor keeps the
 * invariant "at the end sentinel, or on an element the predicate accepts";
 * at the first rejected element it jumps to the sentinel for good.
 *
 * The advance is modelled with a guard "not at the end" before the
 * predicate is evaluated; the source evaluates the predicate on the
 * sentinel itself. `AsWrittenRun` below models the unguarded advance.
 */
module TakeWhileAdapter {
  import opened Sequences
  import opened Enumerables

  class TakeWhileCursor<T> {
    const src: seq<T>
    var pos: nat              // _iterator
    const end: nat            // _end
    const pred: T -> bool     // _function

    ghost predicate Valid()
      reads this
    {
      pos <= end <= |src| && (pos == end || pred(src[pos]))
    }

    /** What a traversal from here to the end sentinel yields. */
    ghost function Rest(): seq<T>
      reads this
      requires Valid()
    {
      TakeWhile(pred, src[pos..end])
    }

    /** Construction: an empty result at once if the predicate rejects the first element. */
    constructor (src: seq<T>, i: nat, e: nat, p: T -> bool)
      requires i <= e <= |src|
      ensures Valid()
      ensures this.src == src && end == e && pred == p
      ensures pos == if i != e && !p(src[i]) then e else i
      ensures Rest() == TakeWhile(p, src[i..e])
    {
      this.src := src;
      end := e;
      pred := p;
      pos := i;
      new;
      if pos != end && !pred(src[pos]) {
        TakeWhileUnfold(pred, src, pos, end);
        pos := end;
      }
    }

    /** The implicit copy constructor: an independent cursor with the same state. */
    constructor Copy(other: TakeWhileCursor<T>)
      requires other.Valid()
      ensures Valid()
      ensures src == other.src && pos == other.pos && end == other.end && pred == other.pred
    {
      src := other.src;
      pos := other.pos;
      end := other.end;
      pred := other.pred;
    }

    /**
     * `operator++`: step once; if the new position is not the sentinel and the
     * predicate rejects its element, jump to the sentinel. The rest of the
     * traversal loses exactly its first element.
     */
    method Advance()
      requires Valid() && pos != end
      modifies this
      ensures Valid()
      ensures pos == if old(pos) + 1 != end && !pred(src[old(pos) + 1]) then end else old(pos) + 1
      ensures Rest() == old(Rest())[1..]
    {
      TakeWhileUnfold(pred, src, pos, end);
      pos := pos + 1;
      if pos != end && !pred(src[pos]) {
        TakeWhileUnfold(pred, src, pos, end);
        pos := end;
      }
    }

    /** `operator*`: the current element, which is the first one the rest of the traversal yields. */
    function Read(): (x: T)
      reads this
      requires Valid() && pos != end
      ensures Rest() != [] && x == Rest()[0]
    {
      TakeWhileUnfold(pred, src, pos, end);
      src[pos]
    }

    /**
     * `operator==`: compares the inner cursors only. Meeting a cursor that
     * sits on the end sentinel means nothing is left to yield.
     */
    predicate Equals(other: TakeWhileCursor<T>)
      reads this, other
      ensures Valid() && other.pos == end ==> (Equals(other) <==> Rest() == [])
    {
      other.pos == pos
    }

    /** `operator!=`: the negation of `operator==`. */
    predicate NotEquals(other: TakeWhileCursor<T>)
      reads this, other
      ensures NotEquals(other) <==> !Equals(other)
    {
      !(other.pos == pos)
    }
  }

  /** `take_while(p)`: wrap the begin cursor and the end cursor with the same end and predicate. */
  method TakeWhileOver<T>(src: seq<T>, e: Enumerable<nat>, p: T -> bool) returns (t: Enumerable<TakeWhileCursor<T>>)
    requires e.Begin() <= e.End() <= |src|
    ensures fresh(t.Begin()) && fresh(t.End()) && t.Begin() != t.End()
    ensures t.Begin().Valid() && t.End().Valid()
    ensures t.Begin().src == src && t.Begin().end == e.End() && t.Begin().pred == p
    ensures t.End().src == src && t.End().end == e.End() && t.End().pred == p
    ensures t.End().pos == e.End()
    ensures t.Begin().Rest() == TakeWhile(p, src[e.Begin()..e.End()])
  {
    var b := new TakeWhileCursor(src, e.Begin(), e.End(), p);
    var l := new TakeWhileCursor(src, e.End(), e.End(), p);
    t := Enumerable(b, l);
  }

  /** The consumer's loop over a prefix-while enumerable: it yields what `Rest()` promises. */
  method TraverseTakeWhile<T>(e: Enumerable<TakeWhileCursor<T>>) returns (out: seq<T>)
    requires e.Begin().Valid() && e.End().Valid()
    requires e.End().pos == e.Begin().end
    ensures out == e.Begin().Rest()
  {
    var last := e.End();
    var first := new TakeWhileCursor.Copy(e.Begin());
    out := [];
    while first.NotEquals(last)
      invariant first.Valid()
      invariant first.src == e.Begin().src && first.end == e.Begin().end && first.pred == e.Begin().pred
      invariant out + first.Rest() == e.Begin().Rest()
      decreases |first.Rest()|
    {
      ghost var rest := first.Rest();
      var x := first.Read();
      first.Advance();
      AppendHead(out, rest);
      out := out + [x];
    }
  }

  /**
   * `from(src).take_while(p)` yields the longest prefix of `src` on which `p`
   * holds: a prefix, accepted throughout, and followed (if by anything) by a
   * rejected element.
   */
  method TakeWhileOf<T>(src: seq<T>, p: T -> bool) returns (out: seq<T>)
    ensures |out| <= |src| && out == src[..|out|]
    ensures forall i :: 0 <= i < |out| ==> p(src[i])
    ensures |out| < |src| ==> !p(src[|out|])
  {
    var t := TakeWhileOver(src, From(src), p);
    out := TraverseTakeWhile(t);
    assert src[0..|src|] == src;
    TakeWhileLongestPrefix(p, src);
  }

  /** What one run of the unguarded advance can end in. */
  datatype Outcome<T> = Yielded(elements: seq<T>) | ReadSentinel

  /**
   * A traversal with `operator++` exactly as written: after stepping, the
   * predicate is evaluated on the new position even when it is the sentinel.
   * Starting on an accepted element at `pos`, the run either stops normally at
   * a rejected element, or evaluates the predicate on the sentinel (`ReadSentinel`).
   * A normal stop yields a non-empty run of the source starting at `pos` and
   * followed by a rejected element; the sentinel is read only after every
   * remaining element was accepted.
   */
  function AsWrittenRun<T>(src: seq<T>, p: T -> bool, pos: nat): (o: Outcome<T>)
    requires pos < |src| && p(src[pos])
    ensures o.ReadSentinel? ==> forall j :: pos <= j < |src| ==> p(src[j])
    ensures o.Yielded? ==>
      var k := |o.elements|;
      0 < k && pos + k < |src| && o.elements == src[pos..pos + k] && !p(src[pos + k])
    decreases |src| - pos
  {
    var next := pos + 1;
    if next == |src| then ReadSentinel
    else if !p(src[next]) then Yielded([src[pos]])
    else match AsWrittenRun(src, p, next)
      case ReadSentinel => ReadSentinel
      case Yielded(rest) => Yielded([src[pos]] + rest)
  }

  /**
   * The unguarded advance reads the sentinel exactly when the predicate holds
   * on every remaining element; otherwise it yields the same prefix as the
   * guarded cursor.
   */
  lemma {:induction false} AsWrittenReadsSentinel<T>(src: seq<T>, p: T -> bool, pos: nat)
    requires pos < |src| && p(src[pos])
    ensures AsWrittenRun(src, p, pos) == ReadSentinel <==> TakeWhile(p, src[pos..]) == src[pos..]
    ensures AsWrittenRun(src, p, pos) != ReadSentinel ==> AsWrittenRun(src, p, pos) == Yielded(TakeWhile(p, src[pos..]))
    decreases |src| - pos
  {
    TakeWhileUnfold(p, src, pos, |src|);
    var next := pos + 1;
    if next == |src| {
      assert src[next..] == [];
    } else {
      TakeWhileUnfold(p, src, next, |src|);
      assert src[pos..] == [src[pos]] + src[next..];
      if p(src[next]) {
        AsWrittenReadsSentinel(src, p, next);
      }
    }
  }

  /** A concrete input: over [2, 4] with "even", the unguarded advance evaluates the predicate on the sentinel. */
  lemma AsWrittenCounterexample()
    ensures AsWrittenRun([2, 4], (x: int) => x % 2 == 0, 0) == ReadSentinel
  {
    var p := (x: int) => x % 2 == 0;
    assert AsWrittenRun([2, 4], p, 1) == ReadSentinel;
  }
}
