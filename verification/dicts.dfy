/**
 * Python dictionaries. A dict remembers the order in which keys were first
 * inserted, and iteration follows that order; assigning to an existing key
 * keeps its place. The model is a sequence of (key, value) entries whose
 * keys are distinct in every dict the modelled code builds.
 */
module Dicts {

  import opened Wrappers
  import PySeq

  type Dict<K, V> = seq<(K, V)>

  /** Keys in iteration order. */
  function Keys<K, V>(d: Dict<K, V>): (ks: seq<K>)
    ensures |ks| == |d|
    ensures forall i :: 0 <= i < |d| ==> ks[i] == d[i].0
  {
    if |d| == 0 then [] else [d[0].0] + Keys(d[1..])
  }

  /** Values in iteration order. */
  function Values<K, V>(d: Dict<K, V>): (vs: seq<V>)
    ensures |vs| == |d|
    ensures forall i :: 0 <= i < |d| ==> vs[i] == d[i].1
  {
    seq(|d|, i requires 0 <= i < |d| => d[i].1)
  }

  /** No key occurs twice. */
  predicate Valid<K(==,!new), V>(d: Dict<K, V>) {
    PySeq.Distinct(Keys(d))
  }

  /** `k in d`. */
  predicate Has<K(==,!new), V>(d: Dict<K, V>, k: K) {
    k in Keys(d)
  }

  /** `d.get(k)`: the value stored under `k`, if any. */
  function Get<K(==,!new), V>(d: Dict<K, V>, k: K): (r: Option<V>)
    ensures r.Some? <==> Has(d, k)
    ensures r.Some? ==> (k, r.value) in d
  {
    if |d| == 0 then None
    else if d[0].0 == k then Some(d[0].1)
    else
      assert Keys(d) == [d[0].0] + Keys(d[1..]);
      Get(d[1..], k)
  }

  /** In a valid dict each entry is what its key looks up. */
  lemma {:induction false} GetEntry<K(!new), V>(d: Dict<K, V>, i: nat)
    requires Valid(d) && i < |d|
    ensures Get(d, d[i].0) == Some(d[i].1)
    decreases i
  {
    if i > 0 {
      assert Keys(d)[0] != Keys(d)[i];
      assert Valid(d[1..]) by {
        assert forall a :: 0 <= a < |d| - 1 ==> Keys(d[1..])[a] == Keys(d)[a + 1];
      }
      GetEntry(d[1..], i - 1);
    }
  }

  /** `d[k] = v`: an existing key keeps its place, a new one goes last. */
  function Put<K(==,!new), V>(d: Dict<K, V>, k: K, v: V): (r: Dict<K, V>)
    ensures Get(r, k) == Some(v)
    ensures forall j :: j != k ==> Get(r, j) == Get(d, j)
    ensures Has(d, k) ==> Keys(r) == Keys(d)
    ensures !Has(d, k) ==> Keys(r) == Keys(d) + [k]
  {
    if |d| == 0 then [(k, v)]
    else if d[0].0 == k then
      var r := [(k, v)] + d[1..];
      assert r[1..] == d[1..];
      assert Keys(r) == Keys(d);
      r
    else
      var t := Put(d[1..], k, v);
      PutStep(d[0], d[1..], k, v, t);
      assert [d[0]] + d[1..] == d;
      [d[0]] + t
  }

  /** Putting past a first entry of another key: what holds of the rest
      holds of the whole. */
  lemma PutStep<K(!new), V>(e: (K, V), rest: Dict<K, V>, k: K, v: V, t: Dict<K, V>)
    requires e.0 != k
    requires Get(t, k) == Some(v)
    requires forall j :: j != k ==> Get(t, j) == Get(rest, j)
    requires Has(rest, k) ==> Keys(t) == Keys(rest)
    requires !Has(rest, k) ==> Keys(t) == Keys(rest) + [k]
    ensures Get([e] + t, k) == Some(v)
    ensures forall j :: j != k ==> Get([e] + t, j) == Get([e] + rest, j)
    ensures Has([e] + rest, k) ==> Keys([e] + t) == Keys([e] + rest)
    ensures !Has([e] + rest, k) ==> Keys([e] + t) == Keys([e] + rest) + [k]
  {
    PutStepGet(e, rest, k, v, t);
    PutStepKeys(e, rest, k, t);
  }

  lemma PutStepGet<K(!new), V>(e: (K, V), rest: Dict<K, V>, k: K, v: V, t: Dict<K, V>)
    requires e.0 != k
    requires Get(t, k) == Some(v)
    requires forall j :: j != k ==> Get(t, j) == Get(rest, j)
    ensures Get([e] + t, k) == Some(v)
    ensures forall j :: j != k ==> Get([e] + t, j) == Get([e] + rest, j)
  {
    GetCons(e, t);
    GetCons(e, rest);
  }

  lemma PutStepKeys<K(!new), V>(e: (K, V), rest: Dict<K, V>, k: K, t: Dict<K, V>)
    requires e.0 != k
    requires Has(rest, k) ==> Keys(t) == Keys(rest)
    requires !Has(rest, k) ==> Keys(t) == Keys(rest) + [k]
    ensures Has([e] + rest, k) ==> Keys([e] + t) == Keys([e] + rest)
    ensures !Has([e] + rest, k) ==> Keys([e] + t) == Keys([e] + rest) + [k]
  {
    KeysCons(e, t);
    KeysCons(e, rest);
  }

  lemma KeysCons<K, V>(e: (K, V), t: Dict<K, V>)
    ensures Keys([e] + t) == [e.0] + Keys(t)
  {
    assert ([e] + t)[1..] == t;
  }

  /** A lookup in a dict with a first entry tries that entry, then the
      rest. */
  lemma GetCons<K(!new), V>(e: (K, V), t: Dict<K, V>)
    ensures forall j :: Get([e] + t, j) == if e.0 == j then Some(e.1) else Get(t, j)
  {
    forall j ensures Get([e] + t, j) == if e.0 == j then Some(e.1) else Get(t, j) {
      assert ([e] + t)[1..] == t;
    }
  }

  /** A key no entry carries is absent. */
  lemma KeysAvoid<K(!new), V>(d: Dict<K, V>, k: K)
    requires forall i :: 0 <= i < |d| ==> d[i].0 != k
    ensures !Has(d, k)
  {
  }

  lemma PutCons<K(!new), V>(d: Dict<K, V>, k: K, v: V)
    requires |d| > 0 && d[0].0 != k
    ensures Put(d, k, v) == [d[0]] + Put(d[1..], k, v)
  {
  }

  lemma HasTail<K(!new), V>(d: Dict<K, V>, k: K)
    requires |d| > 0 && !Has(d, k)
    ensures d[0].0 != k && !Has(d[1..], k)
  {
    assert Keys(d) == [d[0].0] + Keys(d[1..]);
  }

  /** A new key is appended as the last entry. */
  lemma {:induction false} PutNew<K(!new), V>(d: Dict<K, V>, k: K, v: V)
    requires !Has(d, k)
    ensures Put(d, k, v) == d + [(k, v)]
    decreases |d|
  {
    if |d| > 0 {
      HasTail(d, k);
      calc {
        Put(d, k, v);
        { PutCons(d, k, v); }
        [d[0]] + Put(d[1..], k, v);
        { PutNew(d[1..], k, v); }
        [d[0]] + (d[1..] + [(k, v)]);
        d + [(k, v)];
      }
    }
  }

  /** Every entry after `d[k] = v` is the new one or an old one. */
  lemma {:induction false} PutEntries<K(!new), V>(d: Dict<K, V>, k: K, v: V)
    ensures forall e :: e in Put(d, k, v) ==> e == (k, v) || e in d
    decreases |d|
  {
    if |d| > 0 && d[0].0 != k {
      PutEntries(d[1..], k, v);
    }
  }

  lemma PutValid<K(!new), V>(d: Dict<K, V>, k: K, v: V)
    ensures Valid(d) ==> Valid(Put(d, k, v))
  {
    if Valid(d) && !Has(d, k) {
      PySeq.DistinctAppend(Keys(d), k);
    }
  }

  /** `del d[k]` (a missing key raises KeyError). */
  function Remove<K(==,!new), V>(d: Dict<K, V>, k: K): (r: Result<Dict<K, V>>)
    ensures r.Ok? <==> Has(d, k)
    ensures r.Err? ==> r.error == KeyError
    ensures r.Ok? ==> r.value == Without(d, k)
  {
    if Has(d, k) then Ok(Without(d, k)) else Err(KeyError)
  }

  /** `d` with every entry for `k` dropped, the others in order. */
  function Without<K(==,!new), V>(d: Dict<K, V>, k: K): (r: Dict<K, V>)
    ensures Get(r, k) == None
    ensures forall j :: j != k ==> Get(r, j) == Get(d, j)
    ensures forall e :: e in r ==> e in d
  {
    if |d| == 0 then []
    else
      var t := Without(d[1..], k);
      assert Keys(d) == [d[0].0] + Keys(d[1..]);
      if d[0].0 == k then t
      else
        var r := [d[0]] + t;
        assert r[1..] == t;
        assert Keys(r) == [d[0].0] + Keys(t);
        r
  }

  /** The quantity-style lookup used throughout: the value under `k`, or a
      default for a missing key. */
  function GetOr<K(==,!new), V>(d: Dict<K, V>, k: K, default: V): (r: V)
    ensures Has(d, k) ==> r == Get(d, k).value
    ensures !Has(d, k) ==> r == default
  {
    match Get(d, k)
    case Some(v) => v
    case None => default
  }
}
