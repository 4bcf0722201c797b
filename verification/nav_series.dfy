/**
 * The series arithmetic shared by both revisions of CNAV
 * (src/husfort/qevaluation.py and husfort/qevaluation.py): turning the
 * input into a NAV series that starts at 1 and a return series, the
 * drawdown-scale series, and the two loops that measure drawdown and
 * recovery durations. A series is the list of its values; its index
 * labels are left to the caller, so an `idxmax` is a position.
 */
module NavSeries {

  import opened Wrappers
  import opened PyStr

  /* ------------------------------------------------------ normalisation */

  /** `(srs + 1).cumprod()`. */
  function CumProd(r: seq<real>): (c: seq<real>)
    ensures |c| == |r|
    ensures |r| > 0 ==> c[0] == 1.0 + r[0]
    decreases |r|
  {
    if |r| == 0 then []
    else
      var p := CumProd(r[..|r| - 1]);
      p + [(if |p| == 0 then 1.0 else p[|p| - 1]) * (1.0 + r[|r| - 1])]
  }

  /** Each compounded value grows the previous one by its return. */
  lemma {:induction false} CumProdStep(r: seq<real>, i: nat)
    requires 0 < i < |r|
    ensures CumProd(r)[i] == CumProd(r)[i - 1] * (1.0 + r[i])
    decreases |r|
  {
    var init := r[..|r| - 1];
    if i < |r| - 1 {
      CumProdStep(init, i);
      assert CumProd(r)[i] == CumProd(init)[i] && CumProd(r)[i - 1] == CumProd(init)[i - 1];
    }
  }

  /** One step of `srs / srs.shift(1) - 1` after `fillna(0)`: 0 at the
      start and for 0/0, an infinity for x/0 with x != 0. */
  predicate StepFinite(input: seq<real>) {
    forall i :: 0 < i < |input| ==> (input[i - 1] == 0.0 ==> input[i] == 0.0)
  }

  function StepReturn(input: seq<real>, i: nat): real
    requires i < |input|
  {
    if i == 0 || input[i - 1] == 0.0 then 0.0 else input[i] / input[i - 1] - 1.0
  }

  /** The constructor's conversion. The type is compared upper-cased:
      "NAV" divides by the first value and derives the returns, "RET"
      takes the returns and compounds them; any other type raises
      ValueError. A NAV series with no first value raises IndexError; a
      division by zero that numpy would leave as an infinity stops the
      model with NonFinite. */
  function Normalise(input: seq<real>, inputType: string): (r: Result<(seq<real>, seq<real>)>)
    ensures Upper(inputType) != "NAV" && Upper(inputType) != "RET" <==> r == Err(ValueError)
    ensures r.Ok? ==> |r.value.0| == |input| && |r.value.1| == |input|
    ensures Upper(inputType) == "RET" ==> r == Ok((CumProd(input), input))
    ensures Upper(inputType) == "NAV" ==>
      (r.Ok? <==> |input| > 0 && input[0] != 0.0 && StepFinite(input))
    ensures Upper(inputType) == "NAV" && r.Ok? ==>
      && r.value.0[0] == 1.0 && r.value.1[0] == 0.0
      && (forall i :: 0 <= i < |input| ==> r.value.0[i] * input[0] == input[i])
    ensures Upper(inputType) == "NAV" && |input| == 0 ==> r == Err(IndexError)
  {
    var t := Upper(inputType);
    if t == "NAV" then
      if |input| == 0 then Err(IndexError)
      else if input[0] == 0.0 || !StepFinite(input) then Err(NonFinite)
      else
        var nav := seq(|input|, i requires 0 <= i < |input| => input[i] / input[0]);
        var ret := seq(|input|, i requires 0 <= i < |input| => StepReturn(input, i));
        assert nav[0] == 1.0 by {
          DivSelf(input[0]);
        }
        assert forall i :: 0 <= i < |input| ==> nav[i] * input[0] == input[i] by {
          forall i | 0 <= i < |input| ensures nav[i] * input[0] == input[i] {
            DivTimes(input[i], input[0]);
          }
        }
        Ok((nav, ret))
    else if t == "RET" then Ok((CumProd(input), input))
    else Err(ValueError)
  }

  lemma DivSelf(a: real)
    requires a != 0.0
    ensures a / a == 1.0
  {
  }

  lemma DivTimes(x: real, a: real)
    requires a != 0.0
    ensures (x / a) * a == x
  {
  }

  lemma RatioChain(a: real, b: real, c: real)
    requires a != 0.0 && b != 0.0
    ensures (b / a) * (c / b) == c / a
  {
    assert (b / a) * (c / b) * a * b == c * b;
  }

  /** The two conversions are inverse: compounding the returns derived
      from a NAV series gives back the normalised NAV series. */
  lemma {:induction false} NavReturnRoundTrip(input: seq<real>, inputType: string)
    requires Upper(inputType) == "NAV"
    requires Normalise(input, inputType).Ok?
    ensures CumProd(Normalise(input, inputType).value.1) == Normalise(input, inputType).value.0
  {
    var nav := Normalise(input, inputType).value.0;
    var ret := Normalise(input, inputType).value.1;
    var c := CumProd(ret);
    forall i | 0 <= i < |input| ensures c[i] == nav[i] {
      CumProdAt(input, i);
    }
  }

  lemma {:induction false} CumProdAt(input: seq<real>, i: nat)
    requires |input| > 0 && input[0] != 0.0 && StepFinite(input) && i < |input|
    ensures CumProd(seq(|input|, k requires 0 <= k < |input| => StepReturn(input, k)))[i] == input[i] / input[0]
    decreases i
  {
    var ret := seq(|input|, k requires 0 <= k < |input| => StepReturn(input, k));
    var c := CumProd(ret);
    if i > 0 {
      CumProdAt(input, i - 1);
      CumProdStep(ret, i);
      var a, b, x := input[0], input[i - 1], input[i];
      assert c[i - 1] == b / a;
      if b == 0.0 {
        assert ret[i] == 0.0 && x == 0.0;
      } else {
        assert ret[i] == x / b - 1.0;
        assert 1.0 + ret[i] == x / b;
        RatioChain(a, b, x);
      }
    } else {
      assert input[0] / input[0] == 1.0;
    }
  }

  /* ---------------------------------------------------------- drawdown */

  function Max(a: real, b: real): real {
    if a >= b then a else b
  }

  /** `srs.cummax()`: the running maximum. */
  function CumMax(s: seq<real>): (m: seq<real>)
    ensures |m| == |s|
    ensures forall i, j :: 0 <= j <= i < |s| ==> s[j] <= m[i]
    decreases |s|
  {
    if |s| == 0 then []
    else
      var p := CumMax(s[..|s| - 1]);
      p + [if |p| == 0 then s[0] else Max(p[|p| - 1], s[|s| - 1])]
  }

  /** The running maximum is a value of the series seen so far. */
  lemma {:induction false} CumMaxAttained(s: seq<real>, i: nat) returns (j: nat)
    requires i < |s|
    ensures j <= i && s[j] == CumMax(s)[i]
    decreases |s|
  {
    var init := s[..|s| - 1];
    if i < |s| - 1 {
      j := CumMaxAttained(init, i);
      assert CumMax(s)[i] == CumMax(init)[i];
    } else if |s| == 1 {
      j := 0;
    } else if CumMax(init)[|s| - 2] >= s[|s| - 1] {
      j := CumMaxAttained(init, |s| - 2);
    } else {
      j := |s| - 1;
    }
  }

  /** `1 - nav / nav.cummax()`; a running maximum of 0 makes numpy divide
      by zero. */
  function Drawdown(nav: seq<real>): (r: Result<seq<real>>)
    ensures r.Ok? <==> NoZeroHigh(nav)
    ensures r.Err? ==> r.error == NonFinite
    ensures r.Ok? ==> |r.value| == |nav|
  {
    if NoZeroHigh(nav) then
      var m := CumMax(nav);
      Ok(seq(|nav|, i requires 0 <= i < |nav| => 1.0 - nav[i] / m[i]))
    else Err(NonFinite)
  }

  predicate NoZeroHigh(nav: seq<real>) {
    forall i :: 0 <= i < |nav| ==> CumMax(nav)[i] != 0.0
  }

  lemma DivBounds(a: real, b: real)
    requires 0.0 < a <= b
    ensures 0.0 < a / b <= 1.0
    ensures a / b == 1.0 <==> a == b
  {
    var q := a / b;
    assert q * b == a;
  }

  /** For a positive NAV series the drawdown is defined, lies in [0, 1),
      and is 0 exactly where the series stands at its running maximum. */
  lemma DrawdownPositive(nav: seq<real>, i: nat)
    requires forall k :: 0 <= k < |nav| ==> nav[k] > 0.0
    requires i < |nav|
    ensures Drawdown(nav).Ok?
    ensures 0.0 <= Drawdown(nav).value[i] < 1.0
    ensures Drawdown(nav).value[i] == 0.0 <==> nav[i] == CumMax(nav)[i]
  {
    var m := CumMax(nav);
    forall k | 0 <= k < |nav| ensures m[k] != 0.0 {
      assert nav[k] <= m[k];
    }
    assert nav[i] <= m[i];
    DivBounds(nav[i], m[i]);
    assert Drawdown(nav).value[i] == 1.0 - nav[i] / m[i];
  }

  /** `srs.max()` and `srs.idxmax()`: the largest value and the first
      position holding it. */
  function MaxIdx(s: seq<real>): (r: (real, nat))
    requires |s| > 0
    ensures r.1 < |s| && s[r.1] == r.0
    ensures forall j :: 0 <= j < |s| ==> s[j] <= r.0
    ensures forall j :: 0 <= j < r.1 ==> s[j] < r.0
    decreases |s|
  {
    if |s| == 1 then (s[0], 0)
    else
      var p := MaxIdx(s[..|s| - 1]);
      if s[|s| - 1] > p.0 then (s[|s| - 1], |s| - 1) else p
  }

  /** The same for a series of integers. */
  function MaxIdxInt(s: seq<int>): (r: (int, nat))
    requires |s| > 0
    ensures r.1 < |s| && s[r.1] == r.0
    ensures forall j :: 0 <= j < |s| ==> s[j] <= r.0
    ensures forall j :: 0 <= j < r.1 ==> s[j] < r.0
    decreases |s|
  {
    if |s| == 1 then (s[0], 0)
    else
      var p := MaxIdxInt(s[..|s| - 1]);
      if s[|s| - 1] > p.0 then (s[|s| - 1], |s| - 1) else p
  }

  /* ---------------------------------------------------------- recovery */

  /** The running high and its first position after the recovery loop has
      seen positions 0..i; the loop moves the high only on a strict rise. */
  function HighAfter(nav: seq<real>, i: nat): (h: (real, nat))
    requires i < |nav|
    ensures h.1 <= i
    decreases i
  {
    if i == 0 then (nav[0], 0)
    else
      var p := HighAfter(nav, i - 1);
      if nav[i] > p.0 then (nav[i], i) else p
  }

  /** The entry the recovery loop writes at position i: 0 on a strict new
      high, else the distance to the position of the high. */
  function RecoverAt(nav: seq<real>, i: nat): int
    requires i < |nav|
  {
    if i == 0 then 0
    else
      var p := HighAfter(nav, i - 1);
      if nav[i] > p.0 then 0 else i - p.1
  }

  /** The recovery-duration series. */
  function RecoverSeries(nav: seq<real>): (r: seq<int>)
    ensures |r| == |nav|
    ensures forall i :: 0 <= i < |nav| ==> r[i] == RecoverAt(nav, i)
  {
    seq(|nav|, i requires 0 <= i < |nav| => RecoverAt(nav, i))
  }

  lemma {:induction false} HighAfterIsFirstMax(nav: seq<real>, i: nat)
    requires i < |nav|
    ensures nav[HighAfter(nav, i).1] == HighAfter(nav, i).0
    ensures forall k :: 0 <= k <= i ==> nav[k] <= HighAfter(nav, i).0
    ensures forall k :: 0 <= k < HighAfter(nav, i).1 ==> nav[k] < HighAfter(nav, i).0
    decreases i
  {
    if i > 0 {
      HighAfterIsFirstMax(nav, i - 1);
    }
  }

  /** The recovery duration at i is the distance back to the first
      position of the highest value seen so far: between 0 and i, and 0
      exactly when position i holds that first high. */
  lemma RecoverIsDistanceToHigh(nav: seq<real>, i: nat)
    requires i < |nav|
    ensures 0 <= RecoverSeries(nav)[i] <= i
    ensures var j := i - RecoverSeries(nav)[i];
      && (forall k :: 0 <= k <= i ==> nav[k] <= nav[j])
      && (forall k :: 0 <= k < j ==> nav[k] < nav[j])
  {
    HighAfterIsFirstMax(nav, i);
    if i > 0 {
      HighAfterIsFirstMax(nav, i - 1);
    }
  }

  /* ---------------------------------------------------------- drawdown
                                                               durations */

  /** The variables of the drawdown-duration loop: the running high and
      its position, the deepest drawdown since that high and its
      position. */
  datatype DdState = DdState(high: real, highLoc: nat, scale: real, ddLoc: nat)

  /** One pass of the loop body at position i. */
  function DdStep(st: DdState, x: real, i: nat): (r: Result<DdState>)
  {
    var s1 := if x > st.high then DdState(x, i, 0.0, st.ddLoc) else st;
    if s1.high == 0.0 then Err(NonFinite)
    else
      var scale := 1.0 - x / s1.high;
      Ok(if scale > s1.scale then s1.(scale := scale, ddLoc := i) else s1)
  }

  /** The loop over the first n positions: its final variables and the
      entries written, `drawdown_loc - prev_high_loc` each. */
  function DdLoop(nav: seq<real>, n: nat): (r: Result<(DdState, seq<int>)>)
    requires 0 < |nav| && n <= |nav|
    ensures r.Ok? ==> |r.value.1| == n
    ensures r.Ok? ==> r.value.0.highLoc < |nav| && r.value.0.ddLoc < |nav|
    ensures r.Ok? && n > 0 ==> r.value.0.highLoc < n && r.value.0.ddLoc < n
    ensures r.Ok? ==> nav[r.value.0.highLoc] == r.value.0.high
    ensures r.Ok? ==> forall k :: 0 <= k < n ==> nav[k] <= r.value.0.high
    ensures r.Ok? ==> forall i :: 0 <= i < n ==> -i <= r.value.1[i] <= i
    ensures r.Ok? && n > 0 ==> r.value.1[0] == 0
    ensures (forall k :: 0 <= k < |nav| ==> nav[k] > 0.0) ==> r.Ok?
    decreases n
  {
    if n == 0 then Ok((DdState(nav[0], 0, 0.0, 0), []))
    else
      var (st, srs) :- DdLoop(nav, n - 1);
      var st2 :- DdStep(st, nav[n - 1], n - 1);
      Ok((st2, srs + [st2.ddLoc - st2.highLoc]))
  }

  /** `cal_*_drawdown_duration`'s series; `iloc[0]` of an empty series
      raises IndexError. */
  function DdSeries(nav: seq<real>): (r: Result<seq<int>>)
    ensures |nav| == 0 ==> r == Err(IndexError)
    ensures r.Ok? ==> |r.value| == |nav| && r.value[0] == 0
    ensures r.Ok? ==> forall i :: 0 <= i < |nav| ==> -i <= r.value[i] <= i
    ensures |nav| > 0 && (forall k :: 0 <= k < |nav| ==> nav[k] > 0.0) ==> r.Ok?
  {
    if |nav| == 0 then Err(IndexError)
    else
      var (st, srs) :- DdLoop(nav, |nav|);
      Ok(srs)
  }

  /** At a strict new high after the first position the loop resets the
      high's position but keeps the earlier drawdown position, so the
      entry written there is negative. */
  lemma {:induction false} NewHighNegative(nav: seq<real>, i: nat)
    requires 0 < i < |nav|
    requires forall k :: 0 <= k < i ==> nav[k] < nav[i]
    requires DdLoop(nav, i + 1).Ok?
    ensures DdLoop(nav, i + 1).value.1[i] < 0
  {
    var (st, srs) := DdLoop(nav, i).value;
    assert nav[st.highLoc] < nav[i];
    var st2 := DdStep(st, nav[i], i).value;
    assert nav[i] != 0.0;
    assert nav[i] / nav[i] == 1.0;
    assert st2.highLoc == i;
    assert st2.ddLoc == st.ddLoc;
  }

  /** Because the first entry is 0, the longest drawdown duration reported
      (the series maximum) is never negative. */
  lemma DdMaxNonNegative(nav: seq<real>)
    requires DdSeries(nav).Ok?
    ensures MaxIdxInt(DdSeries(nav).value).0 >= 0
  {
    var s := DdSeries(nav).value;
    assert s[0] == 0;
  }
}
