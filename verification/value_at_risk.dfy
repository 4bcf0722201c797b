/**
 * The value-at-risk dict both revisions of qevaluation.py build: one entry
 * `f"q{q:02d}"` per requested percentile `q`, holding numpy's percentile
 * of the return series (taken as a given function `pct`).
 */
module ValueAtRisk {

  import opened PyStr

  /** `f"q{q:02d}"`. */
  function VarKey(q: int): (k: string)
    ensures |k| >= 3 && k[0] == 'q'
  {
    "q" + ZeroPadded(q, 2)
  }

  /** Distinct percentiles have distinct keys. */
  lemma VarKeyInjective(a: int, b: int)
    requires VarKey(a) == VarKey(b)
    ensures a == b
  {
    assert VarKey(a)[1..] == ZeroPadded(a, 2);
    assert VarKey(b)[1..] == ZeroPadded(b, 2);
    ZeroPaddedInjective(a, b, 2);
  }

  /** The dict comprehension over the requested percentiles. */
  function VarMap(qs: seq<int>, pct: int -> real): (m: map<string, real>)
    ensures forall i :: 0 <= i < |qs| ==> VarKey(qs[i]) in m
    decreases |qs|
  {
    if |qs| == 0 then map[]
    else
      var q := qs[|qs| - 1];
      var rest := VarMap(qs[..|qs| - 1], pct);
      assert forall i :: 0 <= i < |qs| - 1 ==> qs[..|qs| - 1][i] == qs[i];
      rest[VarKey(q) := pct(q)]
  }

  /** Every entry of the comprehension is the percentile of a requested
      `q` whose key it is. */
  lemma {:induction false} VarMapEntry(qs: seq<int>, pct: int -> real, k: string) returns (i: nat)
    requires k in VarMap(qs, pct)
    ensures i < |qs| && VarKey(qs[i]) == k && VarMap(qs, pct)[k] == pct(qs[i])
    decreases |qs|
  {
    var q := qs[|qs| - 1];
    if k == VarKey(q) {
      i := |qs| - 1;
    } else {
      i := VarMapEntry(qs[..|qs| - 1], pct, k);
    }
  }

  /** Every key of the comprehension is a "q" key. */
  lemma VarMapKeys(qs: seq<int>, pct: int -> real)
    ensures forall k :: k in VarMap(qs, pct) ==> |k| > 0 && k[0] == 'q'
  {
    forall k | k in VarMap(qs, pct) ensures |k| > 0 && k[0] == 'q' {
      var i := VarMapEntry(qs, pct, k);
    }
  }
}
