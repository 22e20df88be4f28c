# ztLINQ lazy adapters in Dafny

ztLINQ is a small C++ library of LINQ-style lazy queries. `from(container)`
builds a `linq_enumerable`, a pair of cursors (begin and end sentinel). Each
query step wraps both cursors in an adapter cursor:

- `select_iterator` projects.
- `where_iterator` filters.
- `take_iterator` yields a bounded prefix.
- `take_while_iterator` yields the prefix on which a predicate holds.
- `skip_iterator` drops a prefix.

Each adapter runs a small state machine in its constructor and in
`operator++`. The constructors of `where`, `take_while` and `skip` already
do work when the enumerable is built: they put the begin cursor on its first
position. `where` calls the predicate on every leading rejected element,
`take_while` calls it on the first element, and `skip` steps over up to `n`
elements. Apart from that first positioning, nothing is computed until a
consumer copies the begin cursor and advances it until it equals the end
cursor, reading each position.

This model proves that each adapter's state machine walks exactly the
elements of a pure sequence function:

| adapter | pure meaning |
|---|---|
| select | `Map(f, s)` |
| where | `Filter(p, s)` |
| take | `s[..min(n, length(s))]` for `n >= 0`; all of `s` for `n < 0` |
| take_while | `TakeWhile(p, s)` |
| skip | `s[min(n, length(s))..]` for `n >= 0`; all of `s` for `n < 0` |


How the model is shaped:

- **Sources and inner cursors.** The container is a `seq<T>`. An inner
  cursor is an index `pos` into the sequence it walks, and `|src|` is the
  container's end position.
- **Adapters are classes.** Each adapter is a class whose fields mirror the
  C++ members (`_iterator`, `_end`, `_count`, `_cur`, `_function`).
  Constructors and `Advance` (prefix `operator++`) change those fields.
  `Read` (`operator*`) and `Equals`/`NotEquals` (`operator==`/`!=`) are
  functions.
- **What is left to yield.** Every adapter class has a ghost view, `Rest()`
  (`RestUntil(last)` for select, which has no end field). It is the pure
  function applied to the remaining range. `Read` returns the head of that
  view. `Advance` drops exactly that head.
- **Traversal.** A `Traverse…` method is the consumer loop
  `for (auto first = p.begin(); first != p.end(); ++first)`. It copies the
  begin cursor with a copy constructor (the C++ implicit copy), so the
  enumerable's own cursors are never changed. It is proved to yield exactly
  the begin cursor's `Rest()`.
- **Where the copy happens.** In C++, `begin()` returns a copy of the stored
  cursor. Here `Begin()` and `End()` return the stored cursor object itself,
  and the copy is made explicitly by `Copy` at the start of each `Traverse…`
  method. A caller that advanced the object `Begin()` returns would change the
  enumerable's stored cursor, which the C++ code cannot do; no member of the
  model does so.
- **`linq_enumerable`** is an immutable datatype `Enumerable<C>` holding the
  two cursors.

Module layout: `Sequences` (pure functions and lemmas), `Enumerables`
(`linq_enumerable`, `from`), one module per adapter, and `Scenarios` (the
entry point's query and two-adapter chains).

Where the source text does not compile, the model follows the evident intent:

- `ztLINQ/ztLINQ.cpp:42` initialises `end_(end)`. It names the member
  function `end` rather than the parameter `end_`. The model stores the
  parameter.
- `ztLINQ/ztLINQ.cpp:207` tests `_iterator != end`. The model tests `_end`.
- `ztLINQ/ztLINQ.cpp:246` decrements `count`. The model decrements `_count`.
- `ztLINQ/ztLINQ.cpp:294` calls `.where` on an enumerable. The enumerable in
  that file defines no adapter methods.
  - The model builds every adapted enumerable the way `select` does at
    `Linq.cpp:63-69`: it wraps both the begin and the end cursor with the
    same parameters (`Where`, `TakeOver`, `TakeWhileOver`, `SkipOver`).

Where the code and the usual description of these operators differ, the
model follows the code:

- A negative count to `take` never equals the running count
  (`ztLINQ/ztLINQ.cpp:175`). Nothing is cut off, and the whole sequence is
  yielded. It is not clamped to an empty result.
- A non-positive count to `skip` fails `(count--) > 0` at once. Nothing is
  skipped.
- `skip`'s constructor decrements `_count` after each comparison. When the
  loop is stopped by the count, `_count` ends one lower than the number of
  elements left to skip. The constructor's contract states the final value.

## Model

| member | source | states |
|---|---|---|
| `Enumerables.BeginEndAsBuilt` | ztLINQ/ztLINQ.cpp:40-44 | `begin()`/`end()` of an enumerable return exactly the cursors it was built with (also Linq.cpp:49-58); for adapter cursors they return the stored object, and the copy that C++ `begin()` makes by value is the traversals' `Copy` |
| `Enumerables.From` | ztLINQ/ztLINQ.cpp:278-284 | `from(c)` is built over the container's begin position 0 and end position `length(c)` |
| `Enumerables.TraverseRange` | Linq.h:41-50 | the loop from a stored begin cursor up to the stored end cursor yields exactly the source range `c[begin..end]` |
| `Enumerables.FromElements` | Linq.cpp:78-81 | traversing `from(c)` yields `c` itself: every element, in order |
| `Sequences.MapAt` | ztLINQ/ztLINQ.cpp:89-91 | the projection is as long as its input, and its i-th element is `f` of the i-th input |
| `Sequences.FilterMembership` | ztLINQ/ztLINQ.cpp:121-132 | an element is in the filter result if and only if it is in the source and the predicate accepts it |
| `Sequences.FilterAppend` | ztLINQ/ztLINQ.cpp:126-133 | filtering distributes over concatenation, so the filter result keeps the source order |
| `Sequences.TakeWhileLongestPrefix` | ztLINQ/ztLINQ.cpp:193-196 | the take_while result is a prefix of the source, the predicate holds on all of it, and the element right after it fails the predicate |
| `Sequences.TakeWhileUnique` | ztLINQ/ztLINQ.cpp:193-196 | any prefix that the predicate accepts throughout and that is followed by a rejected element (or by nothing) is the take_while result |
| `SelectAdapter.SelectCursor.constructor` | ztLINQ/ztLINQ.cpp:75-76 | stores the inner cursor and the function unchanged |
| `SelectAdapter.SelectCursor.Copy` | ztLINQ/ztLINQ.cpp:43 | `begin()` returning by value, and `auto first = p.begin()` (ztLINQ/ztLINQ.cpp:298), copy the cursor: an independent cursor with the same inner position and function |
| `SelectAdapter.SelectCursor.Advance` | Linq.cpp:20-23 | `operator++` moves the inner cursor by exactly one, and the function is unchanged; what is left to yield loses `f(src[pos])` at its head (also ztLINQ/ztLINQ.cpp:78-81 and Linq.h:17-20) |
| `SelectAdapter.SelectCursor.Read` | Linq.h:22-24 | `operator*` gives the head of the projected remainder `Map(f, src[pos..last])` for every end position `last`, without moving the cursor (also Linq.cpp:25-27) |
| `SelectAdapter.SelectCursor.Equals` | ztLINQ/ztLINQ.cpp:93-95 | `==` compares inner positions only; against a cursor at inner position `last`, it holds exactly when nothing is left to yield up to `last` (also Linq.cpp:29-31) |
| `SelectAdapter.SelectCursor.NotEquals` | Linq.cpp:29-35 | `!=` is the negation of `==` (also ztLINQ/ztLINQ.cpp:93-99) |
| `SelectAdapter.EqualityIgnoresFunction` | Linq.h:26-32 | projection cursors at the same inner position are equal, whatever their functions |
| `SelectAdapter.Select` | Linq.cpp:63-69 | `select(f)` wraps the begin and the end cursor with the same `f` and the same source |
| `SelectAdapter.TraverseSelect` | ztLINQ/ztLINQ.cpp:78-99 | traversing a projected enumerable yields `Map(f, src[begin..end])` |
| `SelectAdapter.SelectOf` | Linq.cpp:63-69 | `from(s).select(f)` yields a sequence as long as `s` whose i-th element is `f(s[i])` |
| `WhereAdapter.WhereCursor.constructor` | ztLINQ/ztLINQ.cpp:119-124 | construction stops on the first accepted element at or after the start, or at the end; every skipped element is rejected; what is left to yield is the filter of the whole range |
| `WhereAdapter.WhereCursor.Copy` | ztLINQ/ztLINQ.cpp:298 | `auto first = p.begin()` copies the cursor: same source, position, end and predicate |
| `WhereAdapter.WhereCursor.Advance` | ztLINQ/ztLINQ.cpp:126-134 | a no-op at the end; otherwise moves strictly forward past rejected elements only, restores "at the end or on an accepted element", and drops exactly the head of what is left to yield |
| `WhereAdapter.WhereCursor.Read` | ztLINQ/ztLINQ.cpp:136-138 | `operator*` gives the first element of the filtered remainder |
| `WhereAdapter.WhereCursor.Equals` | ztLINQ/ztLINQ.cpp:140-142 | `==` compares inner cursors only; against the end cursor it holds exactly when nothing is left to yield |
| `WhereAdapter.WhereCursor.NotEquals` | ztLINQ/ztLINQ.cpp:140-146 | `!=` is the negation of `==`, which compares inner cursors only |
| `WhereAdapter.Where` | ztLINQ/ztLINQ.cpp:294-296 | `where(p)` wraps both cursors with the same end and predicate; the begin cursor yields `Filter(p, src[begin..end])`, and the end cursor sits at the end |
| `WhereAdapter.TraverseWhere` | ztLINQ/ztLINQ.cpp:298-300 | the consumer loop yields exactly what the begin cursor has left to yield |
| `WhereAdapter.WhereOf` | ztLINQ/ztLINQ.cpp:119-134 | `from(s).where(p)` yields exactly `Filter(p, s)`, the in-order filter |
| `WhereAdapter.WhereOfEmpty` | ztLINQ/ztLINQ.cpp:119-124 | over an empty source the begin cursor already equals the end cursor, and nothing is yielded |
| `TakeAdapter.TakeCursor.constructor` | ztLINQ/ztLINQ.cpp:161-167 | the running count starts at 0; a count of 0 puts the cursor on the end at once; what is left to yield is the bounded prefix of the range |
| `TakeAdapter.TakeCursor.Copy` | ztLINQ/ztLINQ.cpp:153-158 | copying gives an independent cursor with the same position, end, count and running count |
| `TakeAdapter.TakeCursor.Advance` | ztLINQ/ztLINQ.cpp:173-180 | the running count goes up by one; the cursor is forced to the end exactly when the running count reaches the count, and steps once otherwise; what is left to yield loses its head |
| `TakeAdapter.TakeCursor.Read` | ztLINQ/ztLINQ.cpp:169-171 | `operator*` gives the first element of the bounded remainder |
| `TakeAdapter.TakeCursor.Equals` | ztLINQ/ztLINQ.cpp:182-184 | `==` compares inner cursors only; against the end cursor it holds exactly when nothing is left to yield |
| `TakeAdapter.TakeCursor.NotEquals` | ztLINQ/ztLINQ.cpp:182-188 | `!=` is the negation of `==`, which compares inner cursors only |
| `TakeAdapter.TakeOver` | ztLINQ/ztLINQ.cpp:161-162 | `take(n)` wraps both cursors with the same end and count; the begin cursor yields `Take(src[begin..end], n)` |
| `TakeAdapter.TraverseTake` | ztLINQ/ztLINQ.cpp:173-180 | the consumer loop yields exactly what the begin cursor has left to yield |
| `TakeAdapter.TakeOf` | ztLINQ/ztLINQ.cpp:161-180 | for `n >= 0`, `from(s).take(n)` yields the first `min(n, length(s))` elements of `s`, in order; `take(0)` yields nothing |
| `TakeAdapter.TakeOfNegative` | ztLINQ/ztLINQ.cpp:175-176 | with a negative count the running count never meets it, and the whole source is yielded |
| `TakeWhileAdapter.TakeWhileCursor.constructor` | ztLINQ/ztLINQ.cpp:205-210 | if the first element is rejected, the cursor is put on the end at once; what is left to yield is the take_while of the range |
| `TakeWhileAdapter.TakeWhileCursor.Copy` | ztLINQ/ztLINQ.cpp:199-203 | copying gives an independent cursor with the same position, end and predicate |
| `TakeWhileAdapter.TakeWhileCursor.Advance` | ztLINQ/ztLINQ.cpp:212-220 | steps once, and jumps to the end at the first rejected element (guarded against the end); drops exactly the head of what is left to yield |
| `TakeWhileAdapter.TakeWhileCursor.Read` | ztLINQ/ztLINQ.cpp:222-224 | `operator*` gives the first element of the accepted prefix that remains |
| `TakeWhileAdapter.TakeWhileCursor.Equals` | ztLINQ/ztLINQ.cpp:226-228 | `==` compares inner cursors only; against the end cursor it holds exactly when nothing is left to yield |
| `TakeWhileAdapter.TakeWhileCursor.NotEquals` | ztLINQ/ztLINQ.cpp:226-232 | `!=` is the negation of `==`, which compares inner cursors only |
| `TakeWhileAdapter.TakeWhileOver` | ztLINQ/ztLINQ.cpp:205-206 | `take_while(p)` wraps both cursors with the same end and predicate; the begin cursor yields `TakeWhile(p, src[begin..end])` |
| `TakeWhileAdapter.TraverseTakeWhile` | ztLINQ/ztLINQ.cpp:212-220 | the consumer loop yields exactly what the begin cursor has left to yield |
| `TakeWhileAdapter.TakeWhileOf` | ztLINQ/ztLINQ.cpp:193-196 | `from(s).take_while(p)` yields the longest prefix of `s` accepted throughout: a prefix, every element accepted, and the next element (if any) rejected |
| `TakeWhileAdapter.AsWrittenRun` | ztLINQ/ztLINQ.cpp:212-220 | the traversal with the unguarded `operator++`: it either stops normally, having yielded a non-empty run of the source from the start position that is followed by a rejected element, or it evaluates the predicate on the end sentinel, which happens only if every remaining element is accepted |
| `TakeWhileAdapter.AsWrittenReadsSentinel` | ztLINQ/ztLINQ.cpp:212-220 | the unguarded advance evaluates the predicate on the end sentinel if and only if the predicate holds on every remaining element; otherwise it yields the same prefix as the guarded cursor |
| `TakeWhileAdapter.AsWrittenCounterexample` | ztLINQ/ztLINQ.cpp:216 | over [2, 4] with "even", the unguarded advance evaluates the predicate on the sentinel |
| `SkipAdapter.SkipCursor.constructor` | ztLINQ/ztLINQ.cpp:244-249 | advances `min(max(n, 0), end - start)` positions and never passes the end; states the final `_count` left by the post-decrement; what is left to yield is `Skip(src[start..end], n)` |
| `SkipAdapter.SkipCursor.Copy` | ztLINQ/ztLINQ.cpp:238-242 | copying gives an independent cursor with the same position, end and count |
| `SkipAdapter.SkipCursor.Advance` | ztLINQ/ztLINQ.cpp:255-258 | delegates: the inner cursor moves by one, the count is unchanged, and what is left to yield loses its head |
| `SkipAdapter.SkipCursor.Read` | ztLINQ/ztLINQ.cpp:251-253 | `operator*` gives the first element of the remaining range |
| `SkipAdapter.SkipCursor.Equals` | ztLINQ/ztLINQ.cpp:260-262 | `==` compares inner cursors only; against the end cursor it holds exactly when nothing is left to yield |
| `SkipAdapter.SkipCursor.NotEquals` | ztLINQ/ztLINQ.cpp:260-266 | `!=` is the negation of `==`, which compares inner cursors only |
| `SkipAdapter.SkipOver` | ztLINQ/ztLINQ.cpp:244-245 | `skip(n)` wraps both cursors with the same end; the end cursor sits on the end with its count `n` untouched; the begin cursor yields `Skip(src[begin..end], n)` |
| `SkipAdapter.TraverseSkip` | ztLINQ/ztLINQ.cpp:255-258 | the consumer loop yields exactly what the begin cursor has left to yield |
| `SkipAdapter.SkipOf` | ztLINQ/ztLINQ.cpp:235-236 | `from(s).skip(n)` yields the suffix of `s` of length `max(0, length(s) - max(n, 0))`: nothing when `n >= length(s)`, all of `s` when `n <= 0` |
| `Scenarios.IsOdd` | ztLINQ/ztLINQ.cpp:294-296 | the lambda `x % 2 == 1` with C++'s truncating remainder accepts exactly the positive odd numbers; a negative odd number leaves remainder -1 and is rejected |
| `Scenarios.WhereOddQuery` | ztLINQ/ztLINQ.cpp:293-300 | the entry point's query `from(v).where(x % 2 == 1)` over [2,3,4,5,6,7,8,9,15,20] yields [3,5,7,9,15] |
| `Scenarios.SelectThenTake` | Linq.cpp:63-69 | select followed by take yields `Take(Map(f, s), n)` |
| `Scenarios.SkipThenTakeWhile` | ztLINQ/ztLINQ.cpp:244-258 | skip followed by take_while yields `TakeWhile(p, Skip(s, n))` |
| `Scenarios.SquaresTakeThree` | Linq.cpp:63-69 | over the vector 1..9, squaring with `select` then taking 3 (ztLINQ/ztLINQ.cpp:161-180) yields [1, 4, 9] |
| `Scenarios.SkipFourWhileBelowEight` | ztLINQ/ztLINQ.cpp:205-258 | over the vector 1..9, skipping 4 then taking while below 8 yields [5, 6, 7] |

## Findings

| source | as written | input that shows it | evidently intended | confidence | as-written member | corrected member |
|---|---|---|---|---|---|---|
| ztLINQ/ztLINQ.cpp:212-220 | `operator++` steps the inner cursor and then evaluates the predicate on `*_iterator` with no check for `_end` | source [2, 4], predicate "even": advancing from the last element dereferences the end sentinel | evaluate the predicate only when the new position is not the end (the behaviour described at ztLINQ/ztLINQ.cpp:193-196) | high, not executed | `TakeWhileAdapter.AsWrittenReadsSentinel` | `TakeWhileAdapter.TakeWhileCursor.Advance` |

## Left out

- Nested adapter objects. In C++ an adapter's inner cursor can itself be an adapter cursor. Here the inner cursor is an index into the sequence the inner cursor yields, because there is no common cursor interface without traits. Chains are modelled by traversing the inner enumerable and adapting what it yields (`Scenarios`). So the model does not capture that the outer cursor drives the inner one lazily, step by step.
- Invocation counts of the captured functions. Functions are pure in Dafny, so "the transform runs once per read, with no caching" (ztLINQ/ztLINQ.cpp:89-91) is not observable. `Read` is recomputed from the state on every call.
- The postfix `operator++(int)` (ztLINQ/ztLINQ.cpp:83-87). It names an undefined `iterator` and adds nothing beyond prefix `++`.
- The element-type machinery `iterator_type` and `linq_element` (ztLINQ/ztLINQ.cpp:31-35, 59-60). It is compile-time type deduction; the model uses type parameters.
- The unfinished `select` declaration in Linq.h (Linq.h:52-54). It is syntactically incomplete.
- The `main` functions' printing (ztLINQ/ztLINQ.cpp:298-300, Linq.cpp:83-92). The printed values are the sequence `WhereOddQuery` returns.
- Reading or advancing a cursor at its end sentinel is undefined behaviour in the source. It is a precondition of `Read` and `Advance` (except `where`, whose advance handles the end).
- Container iterators over arbitrary containers, and aliasing through them. The source is an immutable `seq<T>`.
- The 32-bit width of `_count` and `_cur`. They are unbounded integers here. For `take`, `_cur` never exceeds the length of the source, so the width matters only for sources of 2^31 or more elements.
- SkipAdapter.SkipCursor.constructor: with a count of `INT_MIN` (-2^31) and a non-empty range, the source's `(_count--) > 0` overflows a 32-bit `int` on its first test, which is undefined behaviour whatever the source length. The model's unbounded count instead ends at -2^31 - 1, and the constructor's contract states that value.
- The default constructor `linq_enumerable()` (ztLINQ/ztLINQ.cpp:40). It leaves both cursors default-initialised and is never used.
