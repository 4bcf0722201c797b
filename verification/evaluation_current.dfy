/**
 * CNAV of src/husfort/qevaluation.py: a NAV series with a set of
 * performance indicators, each computed at most once. Every indicator
 * carries an `avlb` flag; a `cal_*` method fills an indicator only while
 * its flag is clear and then sets it, and `to_dict` reports exactly the
 * indicators whose flag is set.
 *
 * The statistics numpy computes on the return series (mean, standard
 * deviation, the compound annual return, the annualised volatility, the
 * Sharpe ratio and the percentiles) are taken as given in `Figures`; the
 * arithmetic and the series scans around them are modelled.
 */
module EvaluationCurrent {

  import opened Wrappers
  import opened PyStr
  import opened NavSeries
  import opened ValueAtRisk

  /** What numpy's statistics give on the return series. */
  datatype Figures = Figures(
    mean: real, std: real, compound: real, vol: real, sharpe: real,
    percentile: int -> real)

  /** `CIndicators`: a value and its availability flag. */
  datatype Ind = Ind(avlb: bool, val: real)

  /** `CIndicatorsWithSeries` over a real series; `idx` is the position of
      the reported value. */
  datatype SeriesInd = SeriesInd(avlb: bool, val: real, idx: nat, srs: seq<real>)

  /** `CIndicatorsWithSeries` over an integer series. */
  datatype DurInd = DurInd(avlb: bool, val: int, idx: nat, srs: seq<int>)

  /** `CIndicatorsWithDict`: the value-at-risk figures by key. */
  datatype VarInd = VarInd(avlb: bool, val: map<string, real>)

  datatype Nav = Nav(
    nav: seq<real>, rtn: seq<real>, annualFactor: real, obs: nat, fig: Figures,
    mean: Ind, std: Ind, hpr: Ind, annual: Ind, vol: Ind, sharpe: Ind, calmar: Ind,
    score: Ind, vaR: VarInd, mdd: SeriesInd, ldd: DurInd, lrd: DurInd)

  /** No indicator computed yet. */
  predicate Fresh(n: Nav) {
    && !n.mean.avlb && !n.std.avlb && !n.hpr.avlb && !n.annual.avlb && !n.vol.avlb
    && !n.sharpe.avlb && !n.calmar.avlb && !n.score.avlb && !n.vaR.avlb
    && !n.mdd.avlb && !n.ldd.avlb && !n.lrd.avlb
  }

  function Zeros(n: nat): (s: seq<int>)
    ensures |s| == n && forall i :: 0 <= i < n ==> s[i] == 0
  {
    seq(n, _ => 0)
  }

  /** The constructor: the normalised series and every indicator unset;
      the duration series start as zeros. */
  function NewNav(input: seq<real>, inputType: string, annualFactor: real, fig: Figures): (r: Result<Nav>)
    ensures r.Ok? <==> Normalise(input, inputType).Ok?
    ensures r.Err? ==> r.error == Normalise(input, inputType).error
    ensures r.Ok? ==> Fresh(r.value) && r.value.obs == |input|
    ensures r.Ok? ==> (r.value.nav, r.value.rtn) == Normalise(input, inputType).value
  {
    var (nav, rtn) :- Normalise(input, inputType);
    var unset := Ind(false, 0.0);
    Ok(Nav(nav, rtn, annualFactor, |input|, fig, unset, unset, unset, unset, unset, unset, unset, unset,
           VarInd(false, map[]), SeriesInd(false, 0.0, 0, []),
           DurInd(false, 0, 0, Zeros(|nav|)), DurInd(false, 0, 0, Zeros(|nav|))))
  }

  /** The memoisation rule shared by every `cal_*`. */
  function Memo(i: Ind, v: real): (r: Ind)
    ensures i.avlb ==> r == i
    ensures !i.avlb ==> r.avlb && r.val == v
  {
    if i.avlb then i else Ind(true, v)
  }

  function CalReturnMean(n: Nav): (r: Nav)
    ensures r.mean.avlb && (n.mean.avlb ==> r == n)
    ensures !n.mean.avlb ==> r.mean.val == n.fig.mean
    ensures r == n.(mean := r.mean)
  {
    n.(mean := Memo(n.mean, n.fig.mean))
  }

  function CalReturnStd(n: Nav): (r: Nav)
    ensures r.std.avlb && (n.std.avlb ==> r == n)
    ensures r == n.(std := r.std)
  {
    n.(std := Memo(n.std, n.fig.std))
  }

  /** `cal_hold_period_return`: the last NAV less 1; an empty series has no
      last value. */
  function CalHoldPeriodReturn(n: Nav): (r: Result<Nav>)
    ensures n.hpr.avlb ==> r == Ok(n)
    ensures !n.hpr.avlb ==> (r.Ok? <==> |n.nav| > 0)
    ensures !n.hpr.avlb && r.Ok? ==> r.value.hpr == Ind(true, n.nav[|n.nav| - 1] - 1.0)
    ensures !n.hpr.avlb && r.Err? ==> r.error == IndexError
    ensures r.Ok? ==> r.value.hpr.avlb && r.value == n.(hpr := r.value.hpr)
  {
    if n.hpr.avlb then Ok(n)
    else if |n.nav| == 0 then Err(IndexError)
    else Ok(n.(hpr := Ind(true, n.nav[|n.nav| - 1] - 1.0)))
  }

  /** `cal_annual_return(method)`: "linear" (any case) is the mean return
      scaled by the annual factor, "compound" numpy's power; another
      method raises ValueError, but only while the figure is still unset. */
  function CalAnnualReturn(n: Nav, how: string): (r: Result<Nav>)
    ensures n.annual.avlb ==> r == Ok(n)
    ensures r == Err(ValueError) <==> !n.annual.avlb && Lower(how) != "linear" && Lower(how) != "compound"
    ensures r.Ok? ==> r.value.annual.avlb && r.value == n.(annual := r.value.annual)
    ensures !n.annual.avlb && Lower(how) == "linear" ==> r == Ok(n.(annual := Ind(true, n.fig.mean * n.annualFactor)))
    ensures !n.annual.avlb && Lower(how) == "compound" ==> r == Ok(n.(annual := Ind(true, n.fig.compound)))
  {
    if n.annual.avlb then Ok(n)
    else if Lower(how) == "linear" then Ok(n.(annual := Ind(true, n.fig.mean * n.annualFactor)))
    else if Lower(how) == "compound" then Ok(n.(annual := Ind(true, n.fig.compound)))
    else Err(ValueError)
  }

  function CalAnnualVolatility(n: Nav): (r: Nav)
    ensures r.vol.avlb && (n.vol.avlb ==> r == n)
    ensures r == n.(vol := r.vol)
  {
    n.(vol := Memo(n.vol, n.fig.vol))
  }

  function CalSharpeRatio(n: Nav): (r: Nav)
    ensures r.sharpe.avlb && (n.sharpe.avlb ==> r == n)
    ensures r == n.(sharpe := r.sharpe)
  {
    n.(sharpe := Memo(n.sharpe, n.fig.sharpe))
  }

  /** `cal_max_drawdown_scale`: the drawdown series, its maximum and the
      first position of the maximum; `idxmax` of an empty series raises
      ValueError. */
  function CalMaxDrawdownScale(n: Nav): (r: Result<Nav>)
    ensures n.mdd.avlb ==> r == Ok(n)
    ensures !n.mdd.avlb && r.Ok? ==>
      && Drawdown(n.nav).Ok? && r.value.mdd.srs == Drawdown(n.nav).value
      && r.value.mdd.avlb && r.value.mdd.idx < |n.nav|
      && r.value.mdd.val == r.value.mdd.srs[r.value.mdd.idx]
      && (forall j :: 0 <= j < |n.nav| ==> r.value.mdd.srs[j] <= r.value.mdd.val)
    ensures !n.mdd.avlb && |n.nav| == 0 ==> r == Err(ValueError)
    ensures r.Ok? ==> r.value.mdd.avlb && r.value == n.(mdd := r.value.mdd)
  {
    if n.mdd.avlb then Ok(n)
    else
      var srs :- Drawdown(n.nav);
      if |srs| == 0 then Err(ValueError)
      else
        var (v, k) := MaxIdx(srs);
        Ok(n.(mdd := SeriesInd(true, v, k, srs)))
  }

  /** `cal_calmar_ratio`: the annual return (by the default method) over the
      maximum drawdown, computing either first if needed. A zero drawdown
      makes numpy divide by zero. */
  function CalCalmarRatio(n: Nav): (r: Result<Nav>)
    ensures n.calmar.avlb ==> r == Ok(n)
    ensures !n.calmar.avlb && r.Ok? ==>
      && r.value.annual.avlb && r.value.mdd.avlb && r.value.calmar.avlb
      && r.value.mdd.val != 0.0
      && r.value.calmar.val * r.value.mdd.val == r.value.annual.val
    ensures r.Ok? ==> r.value.calmar.avlb
    ensures r.Ok? ==> r.value == n.(annual := r.value.annual, mdd := r.value.mdd, calmar := r.value.calmar)
    ensures r.Ok? && n.annual.avlb ==> r.value.annual == n.annual
    ensures r.Ok? && n.mdd.avlb ==> r.value.mdd == n.mdd
  {
    if n.calmar.avlb then Ok(n)
    else
      var n1 :- CalAnnualReturn(n, "linear");
      var n2 :- CalMaxDrawdownScale(n1);
      if n2.mdd.val == 0.0 then Err(NonFinite)
      else Ok(n2.(calmar := Ind(true, n2.annual.val / n2.mdd.val)))
  }

  /** `cal_score`: Sharpe plus Calmar, and only once both are available. */
  function CalScore(n: Nav): (r: Nav)
    ensures r.score.avlb <==> n.score.avlb || (n.sharpe.avlb && n.calmar.avlb)
    ensures !n.score.avlb && r.score.avlb ==> r.score.val == n.sharpe.val + n.calmar.val
    ensures r == n.(score := r.score)
  {
    if !n.score.avlb && n.sharpe.avlb && n.calmar.avlb then
      n.(score := Ind(true, n.sharpe.val + n.calmar.val))
    else n
  }

  /** `cal_longest_drawdown_duration`. */
  function CalLongestDrawdownDuration(n: Nav): (r: Result<Nav>)
    ensures n.ldd.avlb ==> r == Ok(n)
    ensures !n.ldd.avlb && r.Ok? ==>
      && DdSeries(n.nav).Ok? && r.value.ldd.srs == DdSeries(n.nav).value
      && r.value.ldd.avlb && r.value.ldd.val >= 0
      && r.value.ldd.idx < |r.value.ldd.srs| && r.value.ldd.val == r.value.ldd.srs[r.value.ldd.idx]
    ensures !n.ldd.avlb && |n.nav| == 0 ==> r == Err(IndexError)
    ensures r.Ok? ==> r.value.ldd.avlb && r.value == n.(ldd := r.value.ldd)
  {
    if n.ldd.avlb then Ok(n)
    else
      var srs :- DdSeries(n.nav);
      DdMaxNonNegative(n.nav);
      var (v, k) := MaxIdxInt(srs);
      Ok(n.(ldd := DurInd(true, v, k, srs)))
  }

  /** `cal_longest_recover_duration`. */
  function CalLongestRecoverDuration(n: Nav): (r: Result<Nav>)
    ensures n.lrd.avlb ==> r == Ok(n)
    ensures !n.lrd.avlb ==> (r.Ok? <==> |n.nav| > 0)
    ensures !n.lrd.avlb && r.Ok? ==>
      && r.value.lrd.avlb && r.value.lrd.srs == RecoverSeries(n.nav)
      && r.value.lrd.idx < |r.value.lrd.srs| && r.value.lrd.val == r.value.lrd.srs[r.value.lrd.idx]
      && (forall j :: 0 <= j < |n.nav| ==> r.value.lrd.srs[j] <= r.value.lrd.val)
    ensures r.Ok? ==> r.value.lrd.avlb && r.value == n.(lrd := r.value.lrd)
  {
    if n.lrd.avlb then Ok(n)
    else if |n.nav| == 0 then Err(IndexError)
    else
      var srs := RecoverSeries(n.nav);
      var (v, k) := MaxIdxInt(srs);
      Ok(n.(lrd := DurInd(true, v, k, srs)))
  }

  /** `cal_value_at_risk(qs)`: nothing when already set or when no
      percentile is requested. */
  function CalValueAtRisk(n: Nav, qs: seq<int>): (r: Nav)
    ensures r.vaR.avlb <==> n.vaR.avlb || |qs| > 0
    ensures n.vaR.avlb || |qs| == 0 ==> r == n
    ensures !n.vaR.avlb && |qs| > 0 ==> r == n.(vaR := VarInd(true, VarMap(qs, n.fig.percentile)))
    ensures r == n.(vaR := r.vaR)
  {
    if !n.vaR.avlb && |qs| > 0 then n.(vaR := VarInd(true, VarMap(qs, n.fig.percentile))) else n
  }

  /** The indicators `cal_all_indicators` leaves computed. */
  predicate Done(n: Nav, excluded: seq<string>, qs: seq<int>) {
    && n.mean.avlb && n.std.avlb && n.hpr.avlb && n.annual.avlb && n.vol.avlb
    && n.sharpe.avlb && n.mdd.avlb && n.calmar.avlb && n.score.avlb
    && ("ldd" !in excluded ==> n.ldd.avlb)
    && ("lrd" !in excluded ==> n.lrd.avlb)
    && ("var" !in excluded ==> n.vaR.avlb || |qs| == 0)
  }

  /** `cal_all_indicators(method, excluded, qs)`: every indicator in
      turn; the durations and the value at risk only when not excluded. */
  function CalAllIndicators(n: Nav, how: string, excluded: seq<string>, qs: seq<int>): (r: Result<Nav>)
    ensures r.Ok? ==> Done(r.value, excluded, qs)
    ensures r.Ok? ==> (r.value.ldd.avlb <==> n.ldd.avlb || "ldd" !in excluded)
    ensures r.Ok? ==> (r.value.lrd.avlb <==> n.lrd.avlb || "lrd" !in excluded)
    ensures r.Ok? ==> (r.value.vaR.avlb <==> n.vaR.avlb || ("var" !in excluded && |qs| > 0))
    ensures r.Ok? && !n.vaR.avlb && r.value.vaR.avlb ==> r.value.vaR.val == VarMap(qs, n.fig.percentile)
  {
    var n1 := CalReturnStd(CalReturnMean(n));
    var n2 :- CalHoldPeriodReturn(n1);
    var n3 :- CalAnnualReturn(n2, how);
    var n4 := CalSharpeRatio(CalAnnualVolatility(n3));
    var n5 :- CalMaxDrawdownScale(n4);
    var n6 :- CalCalmarRatio(n5);
    CalRest(n6, excluded, qs)
  }

  /** The steps of `cal_all_indicators` after the Calmar ratio: the score,
      the two durations and the value at risk, each unless excluded. They
      touch no other indicator. */
  function CalRest(n: Nav, excluded: seq<string>, qs: seq<int>): (r: Result<Nav>)
    ensures r.Ok? ==> r.value == n.(score := r.value.score, ldd := r.value.ldd, lrd := r.value.lrd, vaR := r.value.vaR)
    ensures r.Ok? ==> (r.value.score.avlb <==> n.score.avlb || (n.sharpe.avlb && n.calmar.avlb))
    ensures r.Ok? ==> (r.value.ldd.avlb <==> n.ldd.avlb || "ldd" !in excluded)
    ensures r.Ok? ==> (r.value.lrd.avlb <==> n.lrd.avlb || "lrd" !in excluded)
    ensures r.Ok? ==> (r.value.vaR.avlb <==> n.vaR.avlb || ("var" !in excluded && |qs| > 0))
    ensures r.Ok? && !n.vaR.avlb && r.value.vaR.avlb ==> r.value.vaR.val == VarMap(qs, n.fig.percentile)
  {
    var n7 := CalScore(n);
    var n8 :- if "ldd" !in excluded then CalLongestDrawdownDuration(n7) else Ok(n7);
    var n9 :- if "lrd" !in excluded then CalLongestRecoverDuration(n8) else Ok(n8);
    Ok(if "var" !in excluded then CalValueAtRisk(n9, qs) else n9)
  }

  /** Every step of `cal_all_indicators` leaves a computed indicator
      alone, so once its indicators are computed another run with the
      same arguments changes nothing. */
  lemma CalAllIdempotent(n: Nav, how: string, excluded: seq<string>, qs: seq<int>)
    requires Done(n, excluded, qs)
    ensures CalAllIndicators(n, how, excluded, qs) == Ok(n)
  {
    assert CalReturnStd(CalReturnMean(n)) == n;
    assert CalSharpeRatio(CalAnnualVolatility(n)) == n;
    assert CalScore(n) == n;
  }

  /** From a fresh NAV, `cal_all_indicators` reports the annual return by
      the method asked for: the Calmar step finds it computed and keeps it. */
  lemma CalAllKeepsMethod(n: Nav, how: string, excluded: seq<string>, qs: seq<int>)
    requires Fresh(n)
    requires CalAllIndicators(n, how, excluded, qs).Ok?
    ensures var r := CalAllIndicators(n, how, excluded, qs).value;
      r.annual.val == if Lower(how) == "linear" then n.fig.mean * n.annualFactor else n.fig.compound
  {
    var n1 := CalReturnStd(CalReturnMean(n));
    var n2 := CalHoldPeriodReturn(n1).value;
    var n3 := CalAnnualReturn(n2, how).value;
    assert n2.fig == n.fig && n2.annualFactor == n.annualFactor && !n2.annual.avlb;
    AnnualByMethod(n2, how);
    var n5 := CalMaxDrawdownScale(CalSharpeRatio(CalAnnualVolatility(n3))).value;
    assert n5.annual == n3.annual;
    assert CalCalmarRatio(n5).value.annual == n3.annual;
  }

  /** A missing annual return is computed by the method asked for. */
  lemma AnnualByMethod(n: Nav, how: string)
    requires !n.annual.avlb && CalAnnualReturn(n, how).Ok?
    ensures CalAnnualReturn(n, how).value.annual.val ==
      if Lower(how) == "linear" then n.fig.mean * n.annualFactor else n.fig.compound
  {
  }

  /** From a fresh NAV, `cal_all_indicators` computes the annualised
      volatility. */
  lemma CalAllComputesVolatility(n: Nav, how: string, excluded: seq<string>, qs: seq<int>)
    requires Fresh(n)
    requires CalAllIndicators(n, how, excluded, qs).Ok?
    ensures CalAllIndicators(n, how, excluded, qs).value.vol == Ind(true, n.fig.vol)
  {
    var n1 := CalReturnStd(CalReturnMean(n));
    var n2 := CalHoldPeriodReturn(n1).value;
    var n3 := CalAnnualReturn(n2, how).value;
    assert CalAnnualVolatility(n3).vol == Ind(true, n.fig.vol);
  }

  /** A value reported by `to_dict`; `Label` is the position of an index
      label. */
  datatype Value = Num(real) | Count(int) | Label(nat)

  /** The keys `to_dict` may report besides the value-at-risk ones. */
  const FixedKeys: set<string> := {"retMean", "retStd", "hpr", "retAnnual", "volAnnual", "sharpe",
    "calmar", "score", "mdd", "mddT", "lddDur", "lddDurT", "lrd", "lrdT"}

  /** Whether `to_dict` reports a fixed key: its indicator is available. */
  predicate Reported(n: Nav, k: string) {
    match k
    case "retMean" => n.mean.avlb
    case "retStd" => n.std.avlb
    case "hpr" => n.hpr.avlb
    case "retAnnual" => n.annual.avlb
    case "volAnnual" => n.vol.avlb
    case "sharpe" => n.sharpe.avlb
    case "calmar" => n.calmar.avlb
    case "score" => n.score.avlb
    case "mdd" => n.mdd.avlb
    case "mddT" => n.mdd.avlb
    case "lddDur" => n.ldd.avlb
    case "lddDurT" => n.ldd.avlb
    case "lrd" => n.lrd.avlb
    case "lrdT" => n.lrd.avlb
    case _ => false
  }

  function ValueOf(n: Nav, k: string): Value {
    match k
    case "retMean" => Num(n.mean.val)
    case "retStd" => Num(n.std.val)
    case "hpr" => Num(n.hpr.val)
    case "retAnnual" => Num(n.annual.val)
    case "volAnnual" => Num(n.vol.val)
    case "sharpe" => Num(n.sharpe.val)
    case "calmar" => Num(n.calmar.val)
    case "score" => Num(n.score.val)
    case "mdd" => Num(n.mdd.val)
    case "mddT" => Label(n.mdd.idx)
    case "lddDur" => Count(n.ldd.val)
    case "lddDurT" => Label(n.ldd.idx)
    case "lrd" => Count(n.lrd.val)
    case _ => Label(n.lrd.idx)
  }

  /** `to_dict`: the available fixed entries, then the value-at-risk
      entries. */
  function ToDict(n: Nav): (d: map<string, Value>)
    ensures forall k :: k in d <==> (k in FixedKeys && Reported(n, k)) || (n.vaR.avlb && k in n.vaR.val)
    ensures n.vaR.avlb ==> forall k :: k in n.vaR.val ==> d[k] == Num(n.vaR.val[k])
    ensures forall k :: k in FixedKeys && Reported(n, k) && !(n.vaR.avlb && k in n.vaR.val) ==> d[k] == ValueOf(n, k)
  {
    var fixed := map k | k in FixedKeys && Reported(n, k) :: ValueOf(n, k);
    var v: map<string, Value> := if n.vaR.avlb then map k | k in n.vaR.val :: Num(n.vaR.val[k]) else map[];
    fixed + v
  }

  /** No value-at-risk key collides with a fixed key. */
  lemma VarKeyNotFixed(q: int)
    ensures VarKey(q) !in FixedKeys
  {
    assert VarKey(q)[0] == 'q';
  }

  /** Without a value at risk, `to_dict` reports fixed keys only. */
  lemma ToDictOnlyFixed(r: Nav, k: string)
    requires !r.vaR.avlb && k !in FixedKeys
    ensures k !in ToDict(r)
  {
  }

  /** `to_dict` reports the value-at-risk key of every requested
      percentile once the value at risk is computed over them. */
  lemma ToDictVarKeys(r: Nav, qs: seq<int>, pct: int -> real)
    requires r.vaR == VarInd(true, VarMap(qs, pct))
    ensures forall q :: q in qs ==> VarKey(q) in ToDict(r)
  {
    forall q | q in qs ensures VarKey(q) in ToDict(r) {
      var i :| 0 <= i < |qs| && qs[i] == q;
      assert VarKey(qs[i]) in r.vaR.val;
    }
  }

  /** Without a value at risk `to_dict` reports no percentile key. */
  lemma ToDictNoVarKeys(r: Nav, qs: seq<int>)
    requires !r.vaR.avlb
    ensures forall q :: q in qs ==> VarKey(q) !in ToDict(r)
  {
    forall q | q in qs ensures VarKey(q) !in ToDict(r) {
      VarKeyNotFixed(q);
      ToDictOnlyFixed(r, VarKey(q));
    }
  }

  /** Whether `to_dict` reports a fixed key depends on its indicator
      alone, as long as the value-at-risk keys are all "q" keys. */
  lemma ToDictFixed(r: Nav, k: string)
    requires k in FixedKeys
    requires r.vaR.avlb ==> forall k' :: k' in r.vaR.val ==> |k'| > 0 && k'[0] == 'q'
    ensures k in ToDict(r) <==> Reported(r, k)
  {
    assert k[0] != 'q';
  }

  /** What `to_dict` reports of a NAV whose score is computed and whose
      durations are computed as `onLdd` and `onLrd` say. */
  lemma ToDictReportsFixed(r: Nav, onLdd: bool, onLrd: bool)
    requires r.score.avlb && (r.ldd.avlb <==> onLdd) && (r.lrd.avlb <==> onLrd)
    requires r.vaR.avlb ==> forall k :: k in r.vaR.val ==> |k| > 0 && k[0] == 'q'
    ensures var d := ToDict(r);
      && "score" in d
      && ("lddDur" in d <==> onLdd)
      && ("lrd" in d <==> onLrd)
  {
    ToDictFixed(r, "score");
    ToDictFixed(r, "lddDur");
    ToDictFixed(r, "lrd");
  }

  /** What `to_dict` reports of a NAV whose value at risk is computed over
      `qs` as `onVar` says. */
  lemma ToDictReportsVar(r: Nav, qs: seq<int>, pct: int -> real, onVar: bool)
    requires r.vaR.avlb <==> onVar && |qs| > 0
    requires r.vaR.avlb ==> r.vaR.val == VarMap(qs, pct)
    ensures forall q :: q in qs ==> (VarKey(q) in ToDict(r) <==> onVar)
  {
    if !onVar {
      ToDictNoVarKeys(r, qs);
    } else if |qs| > 0 {
      ToDictVarKeys(r, qs, pct);
    }
  }

  /** From a fresh NAV, `to_dict` after `cal_all_indicators` reports the
      durations exactly when they were not excluded, the value-at-risk
      keys exactly when "var" was not excluded, and always a score. */
  lemma CalAllReports(n: Nav, how: string, excluded: seq<string>, qs: seq<int>)
    requires Fresh(n)
    requires CalAllIndicators(n, how, excluded, qs).Ok?
    ensures var d := ToDict(CalAllIndicators(n, how, excluded, qs).value);
      && "score" in d
      && ("lddDur" in d <==> "ldd" !in excluded)
      && ("lrd" in d <==> "lrd" !in excluded)
      && (forall q :: q in qs ==> (VarKey(q) in d <==> "var" !in excluded))
  {
    var r := CalAllIndicators(n, how, excluded, qs).value;
    VarMapKeys(qs, n.fig.percentile);
    ToDictReportsFixed(r, "ldd" !in excluded, "lrd" !in excluded);
    ToDictReportsVar(r, qs, n.fig.percentile, "var" !in excluded);
  }
}
