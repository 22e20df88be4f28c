/**
 * Pure sequence meanings of the five lazy adapters. Every cursor class in
 * this project is proved to walk exactly the elements these functions give.
 */
module Sequences {

  function Min(a: int, b: int): int { if a <= b then a else b }

  /** In-order filter: the elements of `s` on which `p` holds. */
  function Filter<T>(p: T -> bool, s: seq<T>): seq<T>
  {
    if s == [] then []
    else if p(s[0]) then [s[0]] + Filter(p, s[1..])
    else Filter(p, s[1..])
  }

  /** Element-wise projection. */
  function Map<T, U>(f: T -> U, s: seq<T>): seq<U>
  {
    if s == [] then [] else [f(s[0])] + Map(f, s[1..])
  }

  /** The longest prefix of `s` on which `p` holds everywhere. */
  function TakeWhile<T>(p: T -> bool, s: seq<T>): seq<T>
  {
    if s == [] || !p(s[0]) then [] else [s[0]] + TakeWhile(p, s[1..])
  }

  /**
   * Bounded prefix with the source's treatment of the count: a negative
   * count never equals the running count, so nothing is cut off.
   */
  function Take<T>(s: seq<T>, n: int): seq<T>
  {
    if n < 0 then s else s[..Min(n, |s|)]
  }

  /** Drop a prefix; a count that is not positive drops nothing. */
  function Skip<T>(s: seq<T>, n: int): seq<T>
  {
    if n <= 0 then s else s[Min(n, |s|)..]
  }

  /** Moving the head of what is left onto what is done keeps their concatenation. */
  lemma AppendHead<T>(done: seq<T>, rest: seq<T>)
    requires rest != []
    ensures (done + [rest[0]]) + rest[1..] == done + rest
  {
    assert rest == [rest[0]] + rest[1..];
  }

  /** One step of Filter on a slice `s[i..j]`. */
  lemma FilterUnfold<T>(p: T -> bool, s: seq<T>, i: nat, j: nat)
    requires i < j <= |s|
    ensures Filter(p, s[i..j]) == (if p(s[i]) then [s[i]] else []) + Filter(p, s[i + 1..j])
  {
    assert s[i..j][0] == s[i];
    assert s[i..j][1..] == s[i + 1..j];
  }

  /** One step of TakeWhile on a slice `s[i..j]`. */
  lemma TakeWhileUnfold<T>(p: T -> bool, s: seq<T>, i: nat, j: nat)
    requires i < j <= |s|
    ensures TakeWhile(p, s[i..j]) == if p(s[i]) then [s[i]] + TakeWhile(p, s[i + 1..j]) else []
  {
    assert s[i..j][0] == s[i];
    assert s[i..j][1..] == s[i + 1..j];
  }

  /** One step of Map on a slice `s[i..j]`. */
  lemma MapUnfold<T, U>(f: T -> U, s: seq<T>, i: nat, j: nat)
    requires i < j <= |s|
    ensures Map(f, s[i..j]) == [f(s[i])] + Map(f, s[i + 1..j])
  {
    assert s[i..j][0] == s[i];
    assert s[i..j][1..] == s[i + 1..j];
  }

  /** Filter keeps exactly the elements satisfying `p`: nothing missed, nothing extra. */
  lemma {:induction false} FilterMembership<T>(p: T -> bool, s: seq<T>, x: T)
    ensures x in Filter(p, s) <==> x in s && p(x)
  {
    if s != [] {
      FilterMembership(p, s[1..], x);
      assert s == [s[0]] + s[1..];
    }
  }

  /** Filter distributes over concatenation, so it keeps the source order. */
  lemma {:induction false} FilterAppend<T>(p: T -> bool, a: seq<T>, b: seq<T>)
    ensures Filter(p, a + b) == Filter(p, a) + Filter(p, b)
  {
    if a == [] {
      assert a + b == b;
    } else {
      assert (a + b)[0] == a[0];
      assert (a + b)[1..] == a[1..] + b;
      FilterAppend(p, a[1..], b);
    }
  }

  /** The projection has the source's length and its i-th element is f of the i-th input. */
  lemma {:induction false} MapAt<T, U>(f: T -> U, s: seq<T>)
    ensures |Map(f, s)| == |s|
    ensures forall i :: 0 <= i < |s| ==> Map(f, s)[i] == f(s[i])
  {
    if s != [] {
      MapAt(f, s[1..]);
      forall i | 0 <= i < |s|
        ensures Map(f, s)[i] == f(s[i])
      {
        if i > 0 {
          assert Map(f, s)[i] == Map(f, s[1..])[i - 1];
        }
      }
    }
  }

  /**
   * TakeWhile is the longest prefix on which `p` holds: it is a prefix, `p`
   * holds on all of it, and the element right after it (if any) fails `p`.
   */
  lemma {:induction false} TakeWhileLongestPrefix<T>(p: T -> bool, s: seq<T>)
    ensures |TakeWhile(p, s)| <= |s|
    ensures TakeWhile(p, s) == s[..|TakeWhile(p, s)|]
    ensures forall i :: 0 <= i < |TakeWhile(p, s)| ==> p(s[i])
    ensures |TakeWhile(p, s)| < |s| ==> !p(s[|TakeWhile(p, s)|])
  {
    if s != [] && p(s[0]) {
      TakeWhileLongestPrefix(p, s[1..]);
      var r := TakeWhile(p, s[1..]);
      assert TakeWhile(p, s) == [s[0]] + r;
      forall i | 0 <= i < |r| + 1
        ensures p(s[i])
      {
        if i > 0 { assert s[i] == s[1..][i - 1]; }
      }
    }
  }

  /**
   * The prefix length is characterised uniquely: any `k` such that `p` holds on
   * `s[..k]` and fails at `s[k]` (or `k` is the end) is the length of TakeWhile.
   */
  lemma {:induction false} TakeWhileUnique<T>(p: T -> bool, s: seq<T>, k: nat)
    requires k <= |s|
    requires forall i :: 0 <= i < k ==> p(s[i])
    requires k < |s| ==> !p(s[k])
    ensures TakeWhile(p, s) == s[..k]
  {
    if k == 0 {
    } else {
      assert p(s[0]);
      forall i | 0 <= i < k - 1
        ensures p(s[1..][i])
      {
        assert s[1..][i] == s[i + 1];
      }
      if k - 1 < |s| - 1 { assert s[1..][k - 1] == s[k]; }
      TakeWhileUnique(p, s[1..], k - 1);
      assert s[..k] == [s[0]] + s[1..][..k - 1];
    }
  }
}
