/** `Array.prototype.sort` with a comparator on a string key, for a comparator that is a total
    preorder (`le(a, b)` standing for `a.localeCompare(b) <= 0`), as an insertion sort. */
module Sorting {
  import Seqs

  /** `le` orders every pair and is transitive. */
  ghost predicate TotalPreorder(le: (string, string) -> bool) {
    && (forall a, b :: le(a, b) || le(b, a))
    && (forall a, b, c :: le(a, b) && le(b, c) ==> le(a, c))
  }

  predicate SortedBy<T>(xs: seq<T>, key: T -> string, le: (string, string) -> bool) {
    forall i, j :: 0 <= i < j < |xs| ==> le(key(xs[i]), key(xs[j]))
  }

  /** Inserts `x` before the first element that sorts strictly after it. */
  function Insert<T>(x: T, xs: seq<T>, key: T -> string, le: (string, string) -> bool): (r: seq<T>)
    requires TotalPreorder(le) && SortedBy(xs, key, le)
    ensures SortedBy(r, key, le)
    ensures multiset(r) == multiset(xs) + multiset{x}
    ensures |r| == |xs| + 1
  {
    if |xs| == 0 then [x]
    else if !le(key(xs[0]), key(x)) then
      InsertFront(x, xs, key, le);
      [x] + xs
    else
      var rest := Insert(x, xs[1..], key, le);
      InsertBehind(x, xs, rest, key, le);
      [xs[0]] + rest
  }

  /** An element sorting strictly before the head of a sorted sequence goes in front. */
  lemma InsertFront<T>(x: T, xs: seq<T>, key: T -> string, le: (string, string) -> bool)
    requires TotalPreorder(le) && SortedBy(xs, key, le)
    requires |xs| > 0 && !le(key(xs[0]), key(x))
    ensures SortedBy([x] + xs, key, le)
  {
    assert forall j :: 0 <= j < |xs| ==> le(key(xs[0]), key(xs[j])) || j == 0;
  }

  /** Behind the head, the insertion into the tail keeps the head first. */
  lemma InsertBehind<T>(x: T, xs: seq<T>, rest: seq<T>, key: T -> string, le: (string, string) -> bool)
    requires TotalPreorder(le) && SortedBy(xs, key, le)
    requires |xs| > 0 && le(key(xs[0]), key(x))
    requires SortedBy(rest, key, le) && multiset(rest) == multiset(xs[1..]) + multiset{x}
    ensures SortedBy([xs[0]] + rest, key, le)
    ensures multiset([xs[0]] + rest) == multiset(xs) + multiset{x}
  {
    forall j | 0 <= j < |rest|
      ensures le(key(xs[0]), key(rest[j]))
    {
      assert rest[j] in multiset(rest);
      if rest[j] in multiset(xs[1..]) {
        var k :| 0 <= k < |xs[1..]| && xs[1..][k] == rest[j];
        assert xs[k + 1] == rest[j];
      }
    }
    assert xs == [xs[0]] + xs[1..];
  }

  /** The elements of `xs`, ordered by key. */
  function Sort<T>(xs: seq<T>, key: T -> string, le: (string, string) -> bool): (r: seq<T>)
    requires TotalPreorder(le)
    ensures SortedBy(r, key, le)
    ensures multiset(r) == multiset(xs)
    ensures |r| == |xs|
  {
    if |xs| == 0 then []
    else
      assert xs == xs[..|xs| - 1] + [xs[|xs| - 1]];
      Insert(xs[|xs| - 1], Sort(xs[..|xs| - 1], key, le), key, le)
  }

  /** Inserting `x` appends it behind the elements that tie with it: among any selection of
      mutually tied elements, `x` comes out last and the others keep their order. */
  lemma {:induction false} InsertStable<T(!new)>(x: T, xs: seq<T>, key: T -> string, le: (string, string) -> bool, p: T -> bool)
    requires TotalPreorder(le) && SortedBy(xs, key, le)
    requires forall y, z :: p(y) && p(z) ==> le(key(y), key(z))
    ensures Seqs.Filter(p, Insert(x, xs, key, le)) == Seqs.Filter(p, xs) + (if p(x) then [x] else [])
    decreases |xs|
  {
    if |xs| == 0 {
    } else if !le(key(xs[0]), key(x)) {
      InsertStableFront(x, xs, key, le, p);
    } else {
      var rest := Insert(x, xs[1..], key, le);
      var r := [xs[0]] + rest;
      assert r[0] == xs[0] && r[1..] == rest;
      InsertStable(x, xs[1..], key, le, p);
    }
  }

  /** The step of `InsertStable` where `x` goes in front: every element behind it sorts
      strictly after it, so none of them ties with `x`. */
  lemma InsertStableFront<T(!new)>(x: T, xs: seq<T>, key: T -> string, le: (string, string) -> bool, p: T -> bool)
    requires TotalPreorder(le) && SortedBy(xs, key, le)
    requires forall y, z :: p(y) && p(z) ==> le(key(y), key(z))
    requires |xs| > 0 && !le(key(xs[0]), key(x))
    ensures Seqs.Filter(p, [x] + xs) == Seqs.Filter(p, xs) + (if p(x) then [x] else [])
  {
    var r := [x] + xs;
    assert r[0] == x && r[1..] == xs;
    if p(x) {
      forall j | 0 <= j < |xs| ensures !p(xs[j]) {
        assert le(key(xs[0]), key(xs[j])) || j == 0;
      }
      NoneSelected(p, xs);
    }
  }

  /** A filter that selects nothing yields the empty sequence. */
  lemma NoneSelected<T(!new)>(p: T -> bool, xs: seq<T>)
    requires forall y :: y in xs ==> !p(y)
    ensures Seqs.Filter(p, xs) == []
  {
  }

  /** `sort` is stable, as `Array.prototype.sort` has been since ECMAScript 2019: elements
      that the comparator ties come out in the order they went in. Stated for any selection
      `p` of mutually tied elements, such as every row whose name compares equal to a given
      one. */
  lemma {:induction false} SortStable<T(!new)>(xs: seq<T>, key: T -> string, le: (string, string) -> bool, p: T -> bool)
    requires TotalPreorder(le)
    requires forall y, z :: p(y) && p(z) ==> le(key(y), key(z))
    ensures Seqs.Filter(p, Sort(xs, key, le)) == Seqs.Filter(p, xs)
    decreases |xs|
  {
    if |xs| > 0 {
      var init := xs[..|xs| - 1];
      var last := xs[|xs| - 1];
      assert xs == init + [last];
      SortStable(init, key, le, p);
      InsertStable(last, Sort(init, key, le), key, le, p);
      Seqs.FilterAppend(p, init, [last]);
      assert [last][0] == last && [last][1..] == [];
    }
  }
}
