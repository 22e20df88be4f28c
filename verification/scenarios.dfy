/**
 * Whole chains: the demonstration query of the program's entry point, and
 * chains of two adapters. An adapter over another adapter sees the sequence
 * the inner one yields, so a chain is modelled by traversing the inner
 * enumerable and adapting what it yields.
 */
module Scenarios {
  import opened Sequences
  import opened Enumerables
  import opened SelectAdapter
  import opened WhereAdapter
  import opened TakeAdapter
  import opened TakeWhileAdapter
  import opened SkipAdapter

  /** C++ `%` on `int`: the remainder takes the sign of the dividend. */
  function TruncRem(a: int, b: int): int
    requires b > 0
  {
    if a >= 0 then a % b else -((-a) % b)
  }

  /**
   * The lambda `x % 2 == 1` of the demonstration query. With C++'s truncating
   * remainder a negative odd number leaves -1, so only positive odd numbers pass.
   */
  predicate IsOdd(x: int)
    ensures IsOdd(x) <==> x > 0 && x % 2 == 1
  {
    TruncRem(x, 2) == 1
  }

  /**
   * The entry point's query: `from(v).where(odd)` over
   * [2, 3, 4, 5, 6, 7, 8, 9, 15, 20], traversed in order, yields [3, 5, 7, 9, 15].
   */
  method WhereOddQuery() returns (out: seq<int>)
    ensures out == [3, 5, 7, 9, 15]
  {
    var v := [2, 3, 4, 5, 6, 7, 8, 9, 15, 20];
    out := WhereOf(v, IsOdd);
    assert v[1..] == [3, 4, 5, 6, 7, 8, 9, 15, 20];
    assert v[2..] == [4, 5, 6, 7, 8, 9, 15, 20];
    assert v[3..] == [5, 6, 7, 8, 9, 15, 20];
    assert v[4..] == [6, 7, 8, 9, 15, 20];
    assert v[5..] == [7, 8, 9, 15, 20];
    assert v[6..] == [8, 9, 15, 20];
    assert v[7..] == [9, 15, 20];
    assert v[8..] == [15, 20];
    assert v[9..] == [20];
    assert v[10..] == [];
  }

  /** `from(src).select(f).take(n)` yields the first `n` projected elements. */
  method SelectThenTake<T, U>(src: seq<T>, f: T -> U, n: int) returns (out: seq<U>)
    ensures out == Take(Map(f, src), n)
  {
    var s := Select(src, From(src), f);
    var projected := TraverseSelect(s);
    assert src[0..|src|] == src;
    var t := TakeOver(projected, From(projected), n);
    out := TraverseTake(t);
    assert projected[0..|projected|] == projected;
  }

  /** `from(src).skip(n).take_while(p)` yields the longest accepted prefix of what skip leaves. */
  method SkipThenTakeWhile<T>(src: seq<T>, n: int, p: T -> bool) returns (out: seq<T>)
    ensures out == TakeWhile(p, Skip(src, n))
  {
    var s := SkipOver(src, From(src), n);
    var rest := TraverseSkip(s);
    assert src[0..|src|] == src;
    var t := TakeWhileOver(rest, From(rest), p);
    out := TraverseTakeWhile(t);
    assert rest[0..|rest|] == rest;
  }

  /** Over [1..9], squaring then taking 3 yields [1, 4, 9]. */
  method SquaresTakeThree() returns (out: seq<int>)
    ensures out == [1, 4, 9]
  {
    var v := [1, 2, 3, 4, 5, 6, 7, 8, 9];
    var sq := (x: int) => x * x;
    out := SelectThenTake(v, sq, 3);
    MapAt(sq, v);
    assert Map(sq, v)[..3] == [1, 4, 9];
  }

  /** Over [1..9], skipping 4 then taking while below 8 yields [5, 6, 7]. */
  method SkipFourWhileBelowEight() returns (out: seq<int>)
    ensures out == [5, 6, 7]
  {
    var v := [1, 2, 3, 4, 5, 6, 7, 8, 9];
    var below := (x: int) => x < 8;
    out := SkipThenTakeWhile(v, 4, below);
    var s := v[4..];
    assert s == [5, 6, 7, 8, 9];
    assert s[1..] == [6, 7, 8, 9];
    assert s[1..][1..] == [7, 8, 9];
    assert s[1..][1..][1..] == [8, 9];
    assert Skip(v, 4) == s;
    assert TakeWhile(below, [8, 9]) == [];
    assert TakeWhile(below, [7, 8, 9]) == [7];
    assert TakeWhile(below, [6, 7, 8, 9]) == [6, 7];
  }
}
