/** Sequence helpers shared by the view models: order-preserving filters, JavaScript `Set`
    semantics (distinct values kept in insertion order) and sums. */
module Seqs {

  /** `a` is obtained from `b` by deleting elements, so what is kept keeps its order. */
  predicate IsSubsequence<T(==)>(a: seq<T>, b: seq<T>)
    decreases |a| + |b|
  {
    |a| == 0 ||
    (|b| > 0 && ((a[0] == b[0] && IsSubsequence(a[1..], b[1..])) || IsSubsequence(a, b[1..])))
  }

  lemma {:induction false} SubsequenceRefl<T>(a: seq<T>)
    ensures IsSubsequence(a, a)
    decreases |a|
  {
    if |a| > 0 {
      SubsequenceRefl(a[1..]);
    }
  }

  /** Appending the same element to both sides keeps the subsequence relation. */
  lemma {:induction false} SubsequenceSnoc<T>(a: seq<T>, b: seq<T>, x: T)
    requires IsSubsequence(a, b)
    ensures IsSubsequence(a + [x], b + [x])
    decreases |a| + |b|
  {
    if |a| == 0 {
      if |b| == 0 {
        assert IsSubsequence(([] + [x])[1..], (b + [x])[1..]);
      } else {
        SubsequenceSnoc(a, b[1..], x);
        assert (b + [x])[1..] == b[1..] + [x];
      }
    } else {
      assert (a + [x])[1..] == a[1..] + [x];
      assert (b + [x])[1..] == b[1..] + [x];
      if a[0] == b[0] && IsSubsequence(a[1..], b[1..]) {
        SubsequenceSnoc(a[1..], b[1..], x);
      } else {
        SubsequenceSnoc(a, b[1..], x);
      }
    }
  }

  /** Appending an element to the longer side only keeps the subsequence relation. */
  lemma {:induction false} SubsequenceExtend<T>(a: seq<T>, b: seq<T>, x: T)
    requires IsSubsequence(a, b)
    ensures IsSubsequence(a, b + [x])
    decreases |a| + |b|
  {
    if |a| > 0 {
      assert (b + [x])[1..] == b[1..] + [x];
      if a[0] == b[0] && IsSubsequence(a[1..], b[1..]) {
        SubsequenceExtend(a[1..], b[1..], x);
      } else {
        SubsequenceExtend(a, b[1..], x);
      }
    }
  }

  /** `Array.prototype.filter`: the elements satisfying `p`, in their original order. */
  function Filter<T(!new)>(p: T -> bool, xs: seq<T>): (r: seq<T>)
    ensures |r| <= |xs|
    ensures forall x :: x in r <==> x in xs && p(x)
    ensures IsSubsequence(r, xs)
  {
    if |xs| == 0 then []
    else if p(xs[0]) then [xs[0]] + Filter(p, xs[1..])
    else Filter(p, xs[1..])
  }

  /** No value occurs twice. */
  predicate Distinct<T(==)>(xs: seq<T>) {
    forall i, j :: 0 <= i < j < |xs| ==> xs[i] != xs[j]
  }

  /** `Set.prototype.add` on a set kept as its insertion-ordered values. */
  function AddDistinct<T(==,!new)>(xs: seq<T>, x: T): (r: seq<T>)
    ensures Distinct(xs) ==> Distinct(r)
    ensures forall y :: y in r <==> y in xs || y == x
    ensures IsSubsequence(xs, r)
  {
    if x in xs then
      SubsequenceRefl(xs);
      xs
    else
      SubsequenceRefl(xs);
      SubsequenceExtend(xs, xs, x);
      xs + [x]
  }

  /** `new Set(xs)` read back as an array: each value once, in order of first appearance. */
  function Dedup<T(==,!new)>(xs: seq<T>): (r: seq<T>)
    ensures Distinct(r)
    ensures forall y :: y in r <==> y in xs
    ensures IsSubsequence(r, xs)
    ensures |r| <= |xs|
    decreases |xs|
  {
    if |xs| == 0 then []
    else
      var prefix := Dedup(xs[..|xs| - 1]);
      var last := xs[|xs| - 1];
      assert xs == xs[..|xs| - 1] + [last];
      if last in prefix then
        SubsequenceExtend(prefix, xs[..|xs| - 1], last);
        prefix
      else
        SubsequenceSnoc(prefix, xs[..|xs| - 1], last);
        prefix + [last]
  }

  /** The number of distinct values of a duplicate-free sequence is its length. */
  lemma {:induction false} DistinctCardinality<T>(xs: seq<T>)
    requires Distinct(xs)
    ensures |set x | x in xs| == |xs|
    decreases |xs|
  {
    if |xs| > 0 {
      var rest := xs[1..];
      assert Distinct(rest) by {
        forall i, j | 0 <= i < j < |rest|
          ensures rest[i] != rest[j]
        {
          assert rest[i] == xs[i + 1] && rest[j] == xs[j + 1];
        }
      }
      DistinctCardinality(rest);
      assert xs[0] !in rest by {
        forall k | 0 <= k < |rest|
          ensures rest[k] != xs[0]
        {
          assert rest[k] == xs[k + 1];
        }
      }
      assert (set x | x in xs) == (set x | x in rest) + {xs[0]} by {
        assert xs == [xs[0]] + rest;
      }
    }
  }

  /** `|new Set(xs)|`: the number of distinct values. */
  function DistinctCount<T(==,!new)>(xs: seq<T>): (n: nat)
    ensures n == |set x | x in xs|
    ensures n <= |xs|
  {
    var d := Dedup(xs);
    DistinctCardinality(d);
    assert (set x | x in d) == (set x | x in xs);
    |d|
  }

  /** Sum of a sequence of naturals. */
  function Sum(xs: seq<nat>): nat
  {
    if |xs| == 0 then 0 else xs[0] + Sum(xs[1..])
  }

  lemma {:induction false} SumAppend(xs: seq<nat>, ys: seq<nat>)
    ensures Sum(xs + ys) == Sum(xs) + Sum(ys)
    decreases |xs|
  {
    if |xs| > 0 {
      assert (xs + ys)[1..] == xs[1..] + ys;
      SumAppend(xs[1..], ys);
    } else {
      assert xs + ys == ys;
    }
  }

  /** Two duplicate-free sequences with no common value concatenate to a duplicate-free one. */
  lemma DistinctAppend<T>(xs: seq<T>, ys: seq<T>)
    requires Distinct(xs) && Distinct(ys)
    requires forall x :: x in xs ==> x !in ys
    ensures Distinct(xs + ys)
  {
    forall i, j | 0 <= i < j < |xs + ys|
      ensures (xs + ys)[i] != (xs + ys)[j]
    {
      if i < |xs| && j >= |xs| {
        assert xs[i] in xs;
        assert (xs + ys)[j] == ys[j - |xs|];
      }
    }
  }

  /** A duplicate-free sequence stays so without its last value, which it then lacks. */
  lemma DistinctSnoc<T>(xs: seq<T>, x: T)
    requires Distinct(xs + [x])
    ensures Distinct(xs) && x !in xs
  {
    forall i | 0 <= i < |xs|
      ensures xs[i] != x
    {
      assert (xs + [x])[i] == xs[i] && (xs + [x])[|xs|] == x;
    }
    forall i, j | 0 <= i < j < |xs|
      ensures xs[i] != xs[j]
    {
      assert (xs + [x])[i] == xs[i] && (xs + [x])[j] == xs[j];
    }
  }

  /** A duplicate-free sequence holds each value at most once. */
  lemma {:induction false} DistinctOnce<T>(xs: seq<T>, x: T)
    requires Distinct(xs)
    ensures multiset(xs)[x] <= 1
    decreases |xs|
  {
    if |xs| > 0 {
      var rest := xs[1..];
      assert forall j :: 0 <= j < |rest| ==> rest[j] == xs[j + 1];
      DistinctOnce(rest, x);
      assert xs == [xs[0]] + rest;
      if xs[0] == x {
        assert x !in rest;
      }
    }
  }

  /** A value at two positions is counted at least twice. */
  lemma TwiceCounted<T>(ys: seq<T>, i: nat, j: nat)
    requires i < j < |ys| && ys[i] == ys[j]
    ensures multiset(ys)[ys[i]] >= 2
  {
    var front := ys[..j];
    assert front[i] == ys[i];
    assert ys == front + [ys[j]] + ys[j + 1..];
  }

  /** A permutation of a duplicate-free sequence is duplicate-free. */
  lemma DistinctPermutation<T>(xs: seq<T>, ys: seq<T>)
    requires Distinct(xs) && multiset(xs) == multiset(ys)
    ensures Distinct(ys)
  {
    forall i, j | 0 <= i < j < |ys|
      ensures ys[i] != ys[j]
    {
      if ys[i] == ys[j] {
        TwiceCounted(ys, i, j);
        DistinctOnce(xs, ys[i]);
      }
    }
  }

  /** Filtering distributes over concatenation. */
  lemma {:induction false} FilterAppend<T(!new)>(p: T -> bool, a: seq<T>, b: seq<T>)
    ensures Filter(p, a + b) == Filter(p, a) + Filter(p, b)
    decreases |a|
  {
    if |a| > 0 {
      assert (a + b)[0] == a[0] && (a + b)[1..] == a[1..] + b;
      FilterAppend(p, a[1..], b);
    } else {
      assert a + b == b;
    }
  }

  /** Filtering a duplicate-free sequence with a test only `x` passes leaves `[x]`. */
  lemma {:induction false} FilterSingle<T(!new)>(p: T -> bool, xs: seq<T>, x: T)
    requires Distinct(xs) && x in xs
    requires forall y :: y in xs ==> (p(y) <==> y == x)
    ensures Filter(p, xs) == [x]
    decreases |xs|
  {
    var rest := xs[1..];
    assert Distinct(rest);
    if xs[0] == x {
      assert forall j :: 0 <= j < |rest| ==> rest[j] == xs[j + 1] != xs[0];
      var r := Filter(p, rest);
      assert forall j :: 0 <= j < |r| ==> r[j] in r && r[j] in rest && !p(r[j]);
    } else {
      FilterSingle(p, rest, x);
    }
  }

  /** The state after the first `i` steps of a scan that carries a state from one position to
      the next. */
  function StateAfter<E, S>(step: (nat, S) -> (E, S), i: nat, start: S): S
  {
    if i == 0 then start else step(i - 1, StateAfter(step, i - 1, start)).1
  }

  /** A left-to-right scan over positions `0..n` that carries a state beside its output:
      position `k` yields its element in the state left by the positions before it. */
  method Scan<E, S>(n: nat, start: S, step: (nat, S) -> (E, S)) returns (out: seq<E>)
    ensures |out| == n
    ensures forall k :: 0 <= k < n ==> out[k] == step(k, StateAfter(step, k, start)).0
  {
    out := [];
    var state := start;
    var i := 0;
    while i < n
      invariant 0 <= i <= n && |out| == i
      invariant state == StateAfter(step, i, start)
      invariant forall k :: 0 <= k < i ==> out[k] == step(k, StateAfter(step, k, start)).0
    {
      var next := step(i, state);
      out := out + [next.0];
      state := next.1;
      i := i + 1;
    }
  }


  /** Prepending an element to the larger sequence keeps the subsequence relation. */
  lemma {:induction false} SubsequenceCons<T>(a: seq<T>, b: seq<T>, x: T)
    requires IsSubsequence(a, b)
    ensures IsSubsequence(a, [x] + b)
  {
    if |a| > 0 {
      assert ([x] + b)[1..] == b;
    }
  }

  /** The elements at positions `i` and on that `keep` accepts, in their order: a loop over
      the positions that skips some of them. */
  function KeepFrom<T(==)>(xs: seq<T>, keep: nat -> bool, i: nat): (r: seq<T>)
    requires i <= |xs|
    ensures IsSubsequence(r, xs[i..])
    decreases |xs| - i
  {
    if i == |xs| then []
    else
      var rest := KeepFrom(xs, keep, i + 1);
      assert xs[i..] == [xs[i]] + xs[i + 1..];
      if keep(i) then
        [xs[i]] + rest
      else
        SubsequenceRefl(rest);
        SubsequenceCons(rest, xs[i + 1..], xs[i]);
        rest
  }

  /** Skipping only positions that hold something else keeps every occurrence of `x`. */
  lemma {:induction false} KeepFromCount<T>(xs: seq<T>, keep: nat -> bool, i: nat, x: T)
    requires i <= |xs|
    requires forall k :: i <= k < |xs| && !keep(k) ==> xs[k] != x
    ensures multiset(KeepFrom(xs, keep, i))[x] == multiset(xs[i..])[x]
    decreases |xs| - i
  {
    if i < |xs| {
      KeepFromCount(xs, keep, i + 1, x);
      KeepFromStep(xs, keep, i, x);
    }
  }

  /** The positions from `i` on that hold `x` and that `keep` keeps. */
  function KeptAt<T(==)>(xs: seq<T>, keep: nat -> bool, i: nat, x: T): set<nat>
  {
    set k: nat | i <= k < |xs| && xs[k] == x && keep(k)
  }

  /** Keeping by position: `x` occurs in the result once for every kept position holding it. */
  lemma {:induction false} KeepFromCountKept<T>(xs: seq<T>, keep: nat -> bool, i: nat, x: T)
    requires i <= |xs|
    ensures multiset(KeepFrom(xs, keep, i))[x] == |KeptAt(xs, keep, i, x)|
    decreases |xs| - i
  {
    if i == |xs| {
      assert KeptAt(xs, keep, i, x) == {};
    } else {
      KeepFromCountKept(xs, keep, i + 1, x);
      var rest := KeepFrom(xs, keep, i + 1);
      assert KeepFrom(xs, keep, i) == if keep(i) then [xs[i]] + rest else rest;
      if xs[i] == x && keep(i) {
        assert KeptAt(xs, keep, i, x) == {i} + KeptAt(xs, keep, i + 1, x);
      } else {
        assert KeptAt(xs, keep, i, x) == KeptAt(xs, keep, i + 1, x);
      }
    }
  }

  /** One position of the loop: it contributes its element to both counts, or to neither. */
  lemma KeepFromStep<T>(xs: seq<T>, keep: nat -> bool, i: nat, x: T)
    requires i < |xs| && (!keep(i) ==> xs[i] != x)
    requires multiset(KeepFrom(xs, keep, i + 1))[x] == multiset(xs[i + 1..])[x]
    ensures multiset(KeepFrom(xs, keep, i))[x] == multiset(xs[i..])[x]
  {
    var rest := KeepFrom(xs, keep, i + 1);
    var here := if xs[i] == x then 1 else 0;
    assert KeepFrom(xs, keep, i) == if keep(i) then [xs[i]] + rest else rest;
    assert xs[i..] == [xs[i]] + xs[i + 1..];
    assert multiset(xs[i..])[x] == here + multiset(xs[i + 1..])[x];
  }

  /** The state after the first `i` updates `next(0, _)`, ..., `next(i - 1, _)`. */
  function Iterate<S>(next: (nat, S) -> S, i: nat, start: S): S
  {
    if i == 0 then start else next(i - 1, Iterate(next, i - 1, start))
  }

  /** A scan whose steps update the state as `next` does carries the iterated state. */
  lemma {:induction false} StateAfterIterates<E, S>(step: (nat, S) -> (E, S), next: (nat, S) -> S, i: nat, start: S)
    requires forall k: nat, s: S :: k < i ==> step(k, s).1 == next(k, s)
    ensures StateAfter(step, i, start) == Iterate(next, i, start)
  {
    if i > 0 {
      StateAfterIterates(step, next, i - 1, start);
    }
  }

  /** Updates that leave every state alone do not move the iterated state. */
  lemma {:induction false} IterateIdle<S>(next: (nat, S) -> S, j: nat, i: nat, start: S)
    requires j <= i
    requires forall k: nat, s: S :: j <= k < i ==> next(k, s) == s
    ensures Iterate(next, i, start) == Iterate(next, j, start)
    decreases i - j
  {
    if j < i {
      IterateIdle(next, j, i - 1, start);
    }
  }

  /** The iterated state is the value the last setting update set, when the updates after
      it leave every state alone. */
  lemma IterateLastSet<S>(next: (nat, S) -> S, j: nat, i: nat, start: S, v: S)
    requires j < i
    requires forall s: S :: next(j, s) == v
    requires forall k: nat, s: S :: j < k < i ==> next(k, s) == s
    ensures Iterate(next, i, start) == v
  {
    IterateIdle(next, j + 1, i, start);
  }

  /** Adding a new value to a finite set grows it by one. */
  lemma CardAdd<T>(a: set<T>, x: T)
    requires x !in a
    ensures |a + {x}| == |a| + 1
  {
  }

  /** Removing a member of a finite set shrinks it by one. */
  lemma CardRemove<T>(a: set<T>, x: T)
    requires x in a
    ensures |a - {x}| == |a| - 1
  {
  }
}
