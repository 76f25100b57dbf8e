/** A JavaScript `Map` or plain object with string keys, as its entries in insertion order.
    A `Map` always lists its entries in the order their keys were first set. A plain object
    does so only for keys that are not array indices (canonical decimal integers below
    2^32 - 1), which `Object.keys` lists first in numeric order. The task keys of the editor
    ("Dev-3") always hold a dash and are never array indices; the recording-type counts of the
    projects page are keyed by free text, and for them the order of an index-like type such
    as "2024" is not modelled. */
module Records {
  import opened Wrappers
  import Seqs

  datatype Entry<V> = Entry(key: string, value: V)

  type Record<V> = seq<Entry<V>>

  /** `Object.keys(r)` */
  function Keys<V>(r: Record<V>): (ks: seq<string>)
    ensures |ks| == |r|
    ensures forall i :: 0 <= i < |r| ==> ks[i] == r[i].key
  {
    if |r| == 0 then [] else [r[0].key] + Keys(r[1..])
  }

  /** `Object.values(r)` */
  function Values<V>(r: Record<V>): (vs: seq<V>)
    ensures |vs| == |r|
    ensures forall i :: 0 <= i < |r| ==> vs[i] == r[i].value
  {
    if |r| == 0 then [] else [r[0].value] + Values(r[1..])
  }

  /** Every key occurs once, as in any JavaScript object. */
  predicate ValidRecord<V>(r: Record<V>) {
    Seqs.Distinct(Keys(r))
  }

  /** `r[k]`, with `None` for `undefined`. */
  function Get<V>(r: Record<V>, k: string): (v: Option<V>)
    ensures v.Some? <==> k in Keys(r)
    ensures v.Some? ==> Entry(k, v.value) in r
  {
    if |r| == 0 then None
    else if r[0].key == k then Some(r[0].value)
    else Get(r[1..], k)
  }

  /** In a valid record, each entry is what its key looks up. */
  lemma {:induction false} GetEntry<V>(r: Record<V>, i: nat)
    requires ValidRecord(r) && i < |r|
    ensures Get(r, r[i].key) == Some(r[i].value)
  {
    if i > 0 {
      assert Keys(r)[0] != Keys(r)[i];
      assert ValidRecord(r[1..]) by {
        forall a, b | 0 <= a < b < |r[1..]|
          ensures Keys(r[1..])[a] != Keys(r[1..])[b]
        {
          assert Keys(r)[a + 1] != Keys(r)[b + 1];
        }
      }
      GetEntry(r[1..], i - 1);
    }
  }

  /** `{ ...r, [k]: v }`: an existing key keeps its place, a new key goes last. */
  function Set<V>(r: Record<V>, k: string, v: V): (r': Record<V>)
    ensures Keys(r') == if k in Keys(r) then Keys(r) else Keys(r) + [k]
    ensures forall k' :: Get(r', k') == if k' == k then Some(v) else Get(r, k')
    ensures ValidRecord(r) ==> ValidRecord(r')
  {
    if |r| == 0 then [Entry(k, v)]
    else if r[0].key == k then
      SetHead(r, k, v);
      [Entry(k, v)] + r[1..]
    else
      var rest := Set(r[1..], k, v);
      SetBehind(r, k, v, rest);
      [r[0]] + rest
  }

  /** Keys and lookups of a record with one more entry in front. */
  lemma Cons<V>(e: Entry<V>, rest: Record<V>)
    ensures Keys([e] + rest) == [e.key] + Keys(rest)
    ensures forall k' :: Get([e] + rest, k') == if k' == e.key then Some(e.value) else Get(rest, k')
    ensures ValidRecord([e] + rest) <==> e.key !in Keys(rest) && ValidRecord(rest)
  {
    assert ([e] + rest)[1..] == rest;
    var ks := Keys([e] + rest);
    if e.key !in Keys(rest) && ValidRecord(rest) {
      forall i, j | 0 <= i < j < |ks|
        ensures ks[i] != ks[j]
      {
        if i == 0 {
          assert ks[j] == Keys(rest)[j - 1];
        } else {
          assert ks[i] == Keys(rest)[i - 1] && ks[j] == Keys(rest)[j - 1];
        }
      }
    }
    if ValidRecord([e] + rest) {
      forall i, j | 0 <= i < j < |Keys(rest)|
        ensures Keys(rest)[i] != Keys(rest)[j]
      {
        assert ks[i + 1] != ks[j + 1];
      }
    }
  }

  /** Setting the first key replaces its entry in place. */
  lemma SetHead<V>(r: Record<V>, k: string, v: V)
    requires |r| > 0 && r[0].key == k
    ensures var r' := [Entry(k, v)] + r[1..];
      && Keys(r') == Keys(r)
      && (forall k' :: Get(r', k') == if k' == k then Some(v) else Get(r, k'))
      && (ValidRecord(r) ==> ValidRecord(r'))
  {
    assert r == [r[0]] + r[1..];
    Cons(r[0], r[1..]);
    Cons(Entry(k, v), r[1..]);
  }

  /** Setting a later key keeps the first entry in front of the tail's update. */
  lemma SetBehind<V>(r: Record<V>, k: string, v: V, rest: Record<V>)
    requires |r| > 0 && r[0].key != k
    requires Keys(rest) == if k in Keys(r[1..]) then Keys(r[1..]) else Keys(r[1..]) + [k]
    requires forall k' :: Get(rest, k') == if k' == k then Some(v) else Get(r[1..], k')
    requires ValidRecord(r[1..]) ==> ValidRecord(rest)
    ensures var r' := [r[0]] + rest;
      && Keys(r') == (if k in Keys(r) then Keys(r) else Keys(r) + [k])
      && (forall k' :: Get(r', k') == if k' == k then Some(v) else Get(r, k'))
      && (ValidRecord(r) ==> ValidRecord(r'))
  {
    assert r == [r[0]] + r[1..];
    SetBehindKeys(r, k, rest);
    SetBehindGet(r, k, v, rest);
    SetBehindValid(r, k, rest);
  }

  lemma SetBehindKeys<V>(r: Record<V>, k: string, rest: Record<V>)
    requires |r| > 0 && r[0].key != k
    requires Keys(rest) == if k in Keys(r[1..]) then Keys(r[1..]) else Keys(r[1..]) + [k]
    ensures Keys([r[0]] + rest) == (if k in Keys(r) then Keys(r) else Keys(r) + [k])
  {
    var ks := Keys(r[1..]);
    KeysCons(r);
    KeysCons([r[0]] + rest);
    assert ([r[0]] + rest)[1..] == rest;
    if k in ks {
      assert k in Keys(r);
    } else {
      assert k !in Keys(r);
      assert [r[0].key] + (ks + [k]) == ([r[0].key] + ks) + [k];
    }
  }

  /** The keys of a non-empty record: its first key, then the keys of the rest. */
  lemma KeysCons<V>(r: Record<V>)
    requires |r| > 0
    ensures Keys(r) == [r[0].key] + Keys(r[1..])
  {
  }

  lemma SetBehindGet<V>(r: Record<V>, k: string, v: V, rest: Record<V>)
    requires |r| > 0 && r[0].key != k
    requires forall k' :: Get(rest, k') == if k' == k then Some(v) else Get(r[1..], k')
    ensures forall k' :: Get([r[0]] + rest, k') == if k' == k then Some(v) else Get(r, k')
  {
    assert ([r[0]] + rest)[1..] == rest;
  }

  lemma SetBehindValid<V>(r: Record<V>, k: string, rest: Record<V>)
    requires |r| > 0 && r[0].key != k
    requires Keys(rest) == if k in Keys(r[1..]) then Keys(r[1..]) else Keys(r[1..]) + [k]
    requires ValidRecord(r[1..]) ==> ValidRecord(rest)
    ensures ValidRecord(r) ==> ValidRecord([r[0]] + rest)
  {
    assert r == [r[0]] + r[1..];
    Cons(r[0], r[1..]);
    Cons(r[0], rest);
    assert r[0].key in Keys(rest) <==> r[0].key in Keys(r[1..]);
  }

  /** Two records that look up every key alike and list the same keys are the same record. */
  lemma {:induction false} Extensionality<V>(a: Record<V>, b: Record<V>)
    requires ValidRecord(a) && Keys(a) == Keys(b)
    requires forall k :: Get(a, k) == Get(b, k)
    ensures a == b
  {
    assert |a| == |b|;
    forall i | 0 <= i < |a|
      ensures a[i] == b[i]
    {
      GetEntry(a, i);
      assert Keys(a)[i] == Keys(b)[i];
      assert ValidRecord(b);
      GetEntry(b, i);
    }
  }

  /** Setting a key the record does not hold appends one entry. */
  lemma {:induction false} SetFresh<V>(r: Record<V>, k: string, v: V)
    requires k !in Keys(r)
    ensures Set(r, k, v) == r + [Entry(k, v)]
  {
    if |r| > 0 {
      KeyNotInTail(r, k);
      SetFresh(r[1..], k, v);
      SetUnfold(r, k, v);
      assert r + [Entry(k, v)] == [r[0]] + (r[1..] + [Entry(k, v)]);
    }
  }

  /** Setting a key other than the first one leaves the first entry in front. */
  lemma SetUnfold<V>(r: Record<V>, k: string, v: V)
    requires |r| > 0 && r[0].key != k
    ensures Set(r, k, v) == [r[0]] + Set(r[1..], k, v)
  {
  }

  /** A key missing from a record is neither its first key nor one of the rest. */
  lemma KeyNotInTail<V>(r: Record<V>, k: string)
    requires |r| > 0 && k !in Keys(r)
    ensures r[0].key != k && k !in Keys(r[1..])
  {
    assert Keys(r) == [r[0].key] + Keys(r[1..]);
  }

  /** Without its last entry, a record with distinct keys keeps them distinct and lacks the
      last key. */
  lemma KeysSnoc<V>(init: Record<V>, last: Entry<V>)
    requires Seqs.Distinct(Keys(init + [last]))
    ensures Seqs.Distinct(Keys(init)) && last.key !in Keys(init)
  {
    KeysAppend(init, [last]);
    assert Keys([last]) == [last.key];
    Seqs.DistinctSnoc(Keys(init), last.key);
  }

  lemma {:induction false} KeysAppend<V>(a: Record<V>, b: Record<V>)
    ensures Keys(a + b) == Keys(a) + Keys(b)
  {
    if |a| > 0 {
      assert (a + b)[1..] == a[1..] + b;
      KeysAppend(a[1..], b);
    } else {
      assert a + b == b;
    }
  }

  lemma {:induction false} ValuesAppend<V>(a: Record<V>, b: Record<V>)
    ensures Values(a + b) == Values(a) + Values(b)
  {
    if |a| > 0 {
      assert (a + b)[1..] == a[1..] + b;
      ValuesAppend(a[1..], b);
    } else {
      assert a + b == b;
    }
  }
}
