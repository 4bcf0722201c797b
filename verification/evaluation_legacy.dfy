/**
 * CNAV of husfort/qevaluation.py, the earlier revision: the same NAV and
 * return series as the later one, but every indicator is a plain field
 * that starts at zero (or an empty label) and every `cal_*` overwrites
 * it. `to_dict` reports all of them, under English or Chinese names.
 *
 * As in the later revision, numpy's statistics on the return series are
 * taken as given in `Figures`, and the label of a series position is the
 * position itself (`None` for the empty label the constructor sets).
 */
module EvaluationLegacy {

  import opened Wrappers
  import opened PyStr
  import opened NavSeries
  import opened ValueAtRisk
  import EvaluationCurrent

  type Figures = EvaluationCurrent.Figures

  /** What the constructor fixes: the normalised series and the
      parameters. */
  datatype Series = Series(nav: seq<real>, rtn: seq<real>, annualFactor: real, obs: nat, fig: Figures, scale: real)

  /** The plain figures, each overwritten by its `cal_*`. */
  datatype Primary = Primary(mean: real, std: real, hpr: real, annual: real, vol: real, sharpe: real, calmar: real)

  /** A maximum over a series with the label of its first position. */
  datatype Scan<T> = Scan(val: T, idx: Option<nat>, srs: seq<T>)

  datatype Cnav = Cnav(s: Series, p: Primary, vaR: map<string, real>, mdd: Scan<real>, ddur: Scan<int>, rdur: Scan<int>)

  /** The value-at-risk keys are all "q" keys. */
  predicate QKeys(m: map<string, real>) {
    forall k :: k in m ==> |k| > 0 && k[0] == 'q'
  }

  /** The annual return by the linear method: the mean return times the
      annual factor. */
  function LinearAnnual(s: Series): real {
    s.fig.mean * s.annualFactor
  }

  /** The Calmar ratio divides the annual return by a nonzero maximum
      drawdown. */
  predicate CalmarOf(annual: real, mdd: real, calmar: real) {
    mdd != 0.0 && calmar * mdd == annual
  }

  /** The constructor: the normalised series, every figure zero, every
      label empty and every series zeros over the NAV's positions. */
  function NewCnav(input: seq<real>, inputType: string, annualFactor: real, scale: real, fig: Figures): (r: Result<Cnav>)
    ensures r.Ok? <==> Normalise(input, inputType).Ok?
    ensures r.Err? ==> r.error == Normalise(input, inputType).error
    ensures r.Ok? ==> (r.value.s.nav, r.value.s.rtn) == Normalise(input, inputType).value
    ensures r.Ok? ==> && r.value.s.obs == |input| && r.value.p == Primary(0.0, 0.0, 0.0, 0.0, 0.0, 0.0, 0.0)
                      && r.value.vaR == map[] && QKeys(r.value.vaR)
                      && r.value.mdd.idx.None? && r.value.ddur.idx.None? && r.value.rdur.idx.None?
                      && |r.value.ddur.srs| == |r.value.rdur.srs| == |r.value.s.nav|
  {
    var (nav, rtn) :- Normalise(input, inputType);
    Ok(Cnav(Series(nav, rtn, annualFactor, |input|, fig, scale),
            Primary(0.0, 0.0, 0.0, 0.0, 0.0, 0.0, 0.0), map[],
            Scan(0.0, None, seq(|nav|, _ => 0.0)),
            Scan(0, None, seq(|nav|, _ => 0)),
            Scan(0, None, seq(|nav|, _ => 0))))
  }

  /** `cal_hold_period_return`: the last NAV less 1; an empty series has no
      last value. */
  function CalHoldPeriodReturn(n: Cnav): (r: Result<Cnav>)
    ensures r.Ok? <==> |n.s.nav| > 0
    ensures r.Err? ==> r.error == IndexError
    ensures r.Ok? ==> r.value == n.(p := n.p.(hpr := n.s.nav[|n.s.nav| - 1] - 1.0))
  {
    if |n.s.nav| == 0 then Err(IndexError)
    else Ok(n.(p := n.p.(hpr := n.s.nav[|n.s.nav| - 1] - 1.0)))
  }

  /** `cal_annual_return(method)`: "linear" or "compound" in any case;
      another method raises ValueError. The figure is always overwritten. */
  function CalAnnualReturn(n: Cnav, how: string): (r: Result<Cnav>)
    ensures r.Err? <==> Lower(how) != "linear" && Lower(how) != "compound"
    ensures r.Err? ==> r.error == ValueError
    ensures r.Ok? ==> r.value == n.(p := n.p.(annual := r.value.p.annual))
    ensures Lower(how) == "linear" ==> r.Ok? && r.value.p.annual == LinearAnnual(n.s)
    ensures Lower(how) == "compound" ==> r.Ok? && r.value.p.annual == n.s.fig.compound
  {
    if Lower(how) == "linear" then Ok(n.(p := n.p.(annual := LinearAnnual(n.s))))
    else if Lower(how) == "compound" then Ok(n.(p := n.p.(annual := n.s.fig.compound)))
    else Err(ValueError)
  }

  /** `cal_max_drawdown_scale`: the drawdown series, its maximum and the
      first position of the maximum; `idxmax` of an empty series raises
      ValueError. */
  function CalMaxDrawdownScale(n: Cnav): (r: Result<Cnav>)
    ensures |n.s.nav| == 0 ==> r == Err(ValueError)
    ensures |n.s.nav| > 0 ==> (r.Ok? <==> Drawdown(n.s.nav).Ok?)
    ensures r.Ok? ==>
      && Drawdown(n.s.nav).Ok? && r.value.mdd.srs == Drawdown(n.s.nav).value
      && r.value.mdd.idx.Some? && r.value.mdd.idx.value < |n.s.nav|
      && r.value.mdd.val == r.value.mdd.srs[r.value.mdd.idx.value]
      && (forall j :: 0 <= j < |n.s.nav| ==> r.value.mdd.srs[j] <= r.value.mdd.val)
    ensures r.Ok? ==> r.value == n.(mdd := r.value.mdd)
  {
    var srs :- Drawdown(n.s.nav);
    if |srs| == 0 then Err(ValueError)
    else
      var (v, k) := MaxIdx(srs);
      Ok(n.(mdd := Scan(v, Some(k), srs)))
  }

  /** `cal_calmar_ratio`: recomputes the annual return by the default
      linear method and the maximum drawdown, then divides. A zero
      drawdown makes numpy divide by zero. */
  function CalCalmarRatio(n: Cnav): (r: Result<Cnav>)
    ensures r.Ok? ==>
      && r.value.p.annual == LinearAnnual(n.s)
      && CalmarOf(r.value.p.annual, r.value.mdd.val, r.value.p.calmar)
    ensures r.Ok? ==> r.value == n.(p := n.p.(annual := r.value.p.annual, calmar := r.value.p.calmar), mdd := r.value.mdd)
  {
    var n1 :- CalAnnualReturn(n, "linear");
    var n2 :- CalMaxDrawdownScale(n1);
    if n2.mdd.val == 0.0 then Err(NonFinite)
    else Ok(n2.(p := n2.p.(calmar := n2.p.annual / n2.mdd.val)))
  }

  /** `cal_max_drawdown_duration`: the scan over the NAV, its maximum and
      the first position of the maximum. */
  function CalMaxDrawdownDuration(n: Cnav): (r: Result<Cnav>)
    ensures |n.s.nav| == 0 ==> r == Err(IndexError)
    ensures r.Ok? ==>
      && DdSeries(n.s.nav).Ok? && r.value.ddur.srs == DdSeries(n.s.nav).value
      && r.value.ddur.val >= 0 && r.value.ddur.idx.Some?
      && r.value.ddur.idx.value < |r.value.ddur.srs|
      && r.value.ddur.val == r.value.ddur.srs[r.value.ddur.idx.value]
    ensures r.Ok? ==> r.value == n.(ddur := r.value.ddur)
  {
    var srs :- DdSeries(n.s.nav);
    DdMaxNonNegative(n.s.nav);
    var (v, k) := MaxIdxInt(srs);
    Ok(n.(ddur := Scan(v, Some(k), srs)))
  }

  /** `cal_max_recover_duration`: positions since the running high, its
      maximum and the first position of the maximum. */
  function CalMaxRecoverDuration(n: Cnav): (r: Result<Cnav>)
    ensures r.Ok? <==> |n.s.nav| > 0
    ensures r.Err? ==> r.error == IndexError
    ensures r.Ok? ==>
      && r.value.rdur.srs == RecoverSeries(n.s.nav) && r.value.rdur.idx.Some?
      && r.value.rdur.idx.value < |n.s.nav| && r.value.rdur.val == r.value.rdur.srs[r.value.rdur.idx.value]
      && (forall j :: 0 <= j < |n.s.nav| ==> 0 <= r.value.rdur.srs[j] <= r.value.rdur.val)
    ensures r.Ok? ==> r.value == n.(rdur := r.value.rdur)
  {
    if |n.s.nav| == 0 then Err(IndexError)
    else
      var srs := RecoverSeries(n.s.nav);
      var (v, k) := MaxIdxInt(srs);
      forall j | 0 <= j < |n.s.nav| ensures 0 <= srs[j] {
        RecoverIsDistanceToHigh(n.s.nav, j);
      }
      Ok(n.(rdur := Scan(v, Some(k), srs)))
  }

  /** `cal_value_at_risk(qs)`: `dict.update` with the requested
      percentiles; earlier keys stay unless requested again. */
  function CalValueAtRisk(n: Cnav, qs: seq<int>): (r: Cnav)
    ensures r == n.(vaR := r.vaR)
    ensures forall q :: q in qs ==> VarKey(q) in r.vaR && r.vaR[VarKey(q)] == n.s.fig.percentile(q)
    ensures forall k :: k in n.vaR && k !in VarMap(qs, n.s.fig.percentile) ==> k in r.vaR && r.vaR[k] == n.vaR[k]
    ensures forall k :: k in r.vaR ==> k in n.vaR || exists q :: q in qs && VarKey(q) == k
    ensures QKeys(n.vaR) ==> QKeys(r.vaR)
  {
    forall k | k in VarMap(qs, n.s.fig.percentile)
      ensures exists q :: q in qs && VarKey(q) == k
    {
      var i := VarMapEntry(qs, n.s.fig.percentile, k);
      assert qs[i] in qs;
    }
    forall q | q in qs
      ensures VarMap(qs, n.s.fig.percentile)[VarKey(q)] == n.s.fig.percentile(q)
    {
      var i := VarMapEntry(qs, n.s.fig.percentile, VarKey(q));
      VarKeyInjective(q, qs[i]);
    }
    VarMapKeys(qs, n.s.fig.percentile);
    n.(vaR := n.vaR + VarMap(qs, n.s.fig.percentile))
  }

  /** The first steps of `cal_all_indicators`: mean, standard deviation,
      holding period return, annual return by the method asked for and
      Sharpe ratio. */
  function CalPrimary(n: Cnav, how: string): (r: Result<Cnav>)
    ensures r.Ok? <==> |n.s.nav| > 0 && (Lower(how) == "linear" || Lower(how) == "compound")
    ensures r.Err? ==> r.error == if |n.s.nav| == 0 then IndexError else ValueError
    ensures r.Ok? ==> && r.value.p.mean == n.s.fig.mean && r.value.p.std == n.s.fig.std
                      && r.value.p.sharpe == n.s.fig.sharpe && r.value.p.hpr == n.s.nav[|n.s.nav| - 1] - 1.0
    ensures r.Ok? ==> r.value == n.(p := r.value.p) && r.value.p.vol == n.p.vol
  {
    var n1 := n.(p := n.p.(mean := n.s.fig.mean, std := n.s.fig.std));
    var n2 :- CalHoldPeriodReturn(n1);
    var n3 :- CalAnnualReturn(n2, how);
    Ok(n3.(p := n3.p.(sharpe := n3.s.fig.sharpe)))
  }

  /** The scans of `cal_all_indicators` after the first maximum drawdown:
      the Calmar ratio (which takes the maximum drawdown once more) and
      both durations. */
  function CalSecondary(n: Cnav): (r: Result<Cnav>)
    ensures r.Ok? ==> && r.value.p.annual == LinearAnnual(n.s)
                      && CalmarOf(r.value.p.annual, r.value.mdd.val, r.value.p.calmar)
    ensures r.Ok? ==> r.value.s == n.s && r.value.vaR == n.vaR
                      && r.value.p == n.p.(annual := r.value.p.annual, calmar := r.value.p.calmar)
  {
    var n6 :- CalCalmarRatio(n);
    var n7 :- CalMaxDrawdownDuration(n6);
    CalMaxRecoverDuration(n7)
  }

  /** `cal_all_indicators(method, qs)`: every indicator in the order the
      source calls them. The annual return ends by the linear method
      whatever method is asked for, since the Calmar step recomputes it by
      the default one, and the annualised volatility is never computed, so
      whatever was there before stays (zero on a new CNAV). */
  function CalAllIndicators(n: Cnav, how: string, qs: seq<int>): (r: Result<Cnav>)
    ensures |n.s.nav| == 0 ==> r == Err(IndexError)
    ensures |n.s.nav| > 0 && Lower(how) != "linear" && Lower(how) != "compound" ==> r == Err(ValueError)
    ensures r.Ok? ==>
      && r.value.p.mean == n.s.fig.mean && r.value.p.std == n.s.fig.std && r.value.p.sharpe == n.s.fig.sharpe
      && |n.s.nav| > 0 && r.value.p.hpr == n.s.nav[|n.s.nav| - 1] - 1.0
      && r.value.p.annual == LinearAnnual(n.s)
      && CalmarOf(r.value.p.annual, r.value.mdd.val, r.value.p.calmar)
      && r.value.p.vol == n.p.vol
    ensures r.Ok? ==> forall q :: q in qs ==> VarKey(q) in r.value.vaR && r.value.vaR[VarKey(q)] == n.s.fig.percentile(q)
    ensures r.Ok? && QKeys(n.vaR) ==> QKeys(r.value.vaR)
  {
    var n4 :- CalPrimary(n, how);
    var n5 :- CalMaxDrawdownScale(n4);
    var n8 :- CalSecondary(n5);
    assert n5.s == n4.s == n.s && n5.p == n4.p && n5.vaR == n.vaR;
    assert n8.s == n.s && n8.vaR == n.vaR;
    assert n8.p.mean == n4.p.mean && n8.p.std == n4.p.std && n8.p.sharpe == n4.p.sharpe;
    assert n8.p.hpr == n4.p.hpr && n8.p.vol == n.p.vol;
    Ok(CalValueAtRisk(n8, qs))
  }

  /** With "compound" the compound figure is lost: `cal_all_indicators`
      reports the linear one in its place. */
  lemma CalAllLosesCompound(n: Cnav, qs: seq<int>)
    requires CalAllIndicators(n, "compound", qs).Ok?
    requires n.s.fig.compound != LinearAnnual(n.s)
    ensures CalAllIndicators(n, "compound", qs).value.p.annual != n.s.fig.compound
  {
  }

  /** A figure reported by `to_dict`: a number, a duration or a label. */
  datatype Entry = Num(real) | Count(int) | Label(Option<nat>)

  /** The English keys of `to_dict("eng")`, in order. */
  const EngKeys: seq<string> := ["retMean", "retStd", "hpr", "retAnnual", "volAnnual", "sharpeRatio",
    "calmarRatio", "mdd", "mddT", "mddDur", "mddDurT", "mrd", "mrdT"]

  /** The Chinese keys of `to_dict("chs")`, in the same order. */
  const ChsKeys: seq<string> := ["收益率平均", "收益率波动", "持有期收益", "年化收益", "年化波动", "夏普比率",
    "卡玛比率", "最大回撤", "最大回撤时点", "最长回撤期", "最长回撤期时点", "最长恢复期", "最长恢复期时点"]

  /** The figures both languages report, in key order; returns are scaled
      by the display scale. */
  function Entries(n: Cnav): (e: seq<Entry>)
    ensures |e| == |EngKeys| == |ChsKeys| == 13
  {
    var (p, k) := (n.p, n.s.scale);
    [Num(p.mean * k), Num(p.std * k), Num(p.hpr * k), Num(p.annual * k), Num(p.vol * k),
     Num(p.sharpe), Num(p.calmar), Num(n.mdd.val * k), Label(n.mdd.idx),
     Count(n.ddur.val), Label(n.ddur.idx), Count(n.rdur.val), Label(n.rdur.idx)]
  }

  /** The fixed keys of either language paired with the figures. */
  function Fixed(keys: seq<string>, e: seq<Entry>): (d: map<string, Entry>)
    requires |keys| == |e|
    ensures forall k :: k in d <==> k in keys
    decreases |keys|
  {
    if |keys| == 0 then map[]
    else Fixed(keys[..|keys| - 1], e[..|e| - 1])[keys[|keys| - 1] := e[|e| - 1]]
  }

  /** `to_dict(save_type)`: "eng" or "chs" in any case; another save type
      raises ValueError. The value-at-risk entries are added last. */
  function ToDict(n: Cnav, saveType: string): (r: Result<map<string, Entry>>)
    ensures r.Err? <==> Lower(saveType) != "eng" && Lower(saveType) != "chs"
    ensures r.Err? ==> r.error == ValueError
    ensures r.Ok? ==> forall k :: k in r.value <==> k in (if Lower(saveType) == "eng" then EngKeys else ChsKeys) || k in n.vaR
  {
    if Lower(saveType) == "eng" then Ok(Report(n, EngKeys))
    else if Lower(saveType) == "chs" then Ok(Report(n, ChsKeys))
    else Err(ValueError)
  }

  /** The dict `to_dict` builds from one language's keys: the fixed
      entries, then `update` with the value-at-risk entries. */
  function Report(n: Cnav, keys: seq<string>): (d: map<string, Entry>)
    requires |keys| == 13
    ensures forall k :: k in d <==> k in keys || k in n.vaR
  {
    Fixed(keys, Entries(n)) + map k | k in n.vaR :: Num(n.vaR[k])
  }

  /** The fixed keys are distinct, so each reports its own figure. */
  lemma {:induction false} FixedAt(keys: seq<string>, e: seq<Entry>, i: nat)
    requires |keys| == |e| && i < |keys|
    requires forall a, b :: 0 <= a < b < |keys| ==> keys[a] != keys[b]
    ensures Fixed(keys, e)[keys[i]] == e[i]
    decreases |keys|
  {
    if i < |keys| - 1 {
      assert keys[..|keys| - 1][i] == keys[i];
      FixedAt(keys[..|keys| - 1], e[..|e| - 1], i);
    }
  }

  lemma EngKeysDistinct()
    ensures forall a, b :: 0 <= a < b < |EngKeys| ==> EngKeys[a] != EngKeys[b]
  {
  }

  lemma ChsKeysDistinct()
    ensures forall a, b :: 0 <= a < b < |ChsKeys| ==> ChsKeys[a] != ChsKeys[b]
  {
  }

  lemma LowerSaveTypes()
    ensures Lower("eng") == "eng" && Lower("chs") == "chs"
  {
  }

  /** No fixed key of either language is a "q" key. */
  lemma FixedKeysNotQ(keys: seq<string>, i: nat)
    requires keys == EngKeys || keys == ChsKeys
    requires i < 13
    ensures |keys[i]| > 0 && keys[i][0] != 'q'
  {
  }

  /** Each fixed key of the chosen language reports its own figure: the
      value-at-risk keys are "q" keys and cannot shadow it. */
  lemma ReportFixedEntry(n: Cnav, keys: seq<string>, i: nat)
    requires QKeys(n.vaR) && |keys| == 13
    requires forall a, b :: 0 <= a < b < |keys| ==> keys[a] != keys[b]
    requires i < 13 && |keys[i]| > 0 && keys[i][0] != 'q'
    ensures keys[i] in Report(n, keys)
    ensures Report(n, keys)[keys[i]] == Entries(n)[i]
  {
    FixedAt(keys, Entries(n), i);
  }

  /** "eng" and "chs" select the English and the Chinese keys. */
  lemma ToDictAsReport(n: Cnav)
    ensures ToDict(n, "eng") == Ok(Report(n, EngKeys))
    ensures ToDict(n, "chs") == Ok(Report(n, ChsKeys))
  {
    LowerSaveTypes();
  }

  lemma ReportEng(n: Cnav, i: nat)
    requires QKeys(n.vaR) && i < 13
    ensures EngKeys[i] in Report(n, EngKeys)
    ensures Report(n, EngKeys)[EngKeys[i]] == Entries(n)[i]
  {
    EngKeysDistinct();
    FixedKeysNotQ(EngKeys, i);
    ReportFixedEntry(n, EngKeys, i);
  }

  lemma ReportChs(n: Cnav, i: nat)
    requires QKeys(n.vaR) && i < 13
    ensures ChsKeys[i] in Report(n, ChsKeys)
    ensures Report(n, ChsKeys)[ChsKeys[i]] == Entries(n)[i]
  {
    ChsKeysDistinct();
    FixedKeysNotQ(ChsKeys, i);
    ReportFixedEntry(n, ChsKeys, i);
  }

  /** The two save types report the same figures: the i-th English key and
      the i-th Chinese key carry the same entry. */
  lemma ToDictLanguagesAgree(n: Cnav, i: nat)
    requires QKeys(n.vaR)
    requires i < 13
    ensures ToDict(n, "eng").Ok? && ToDict(n, "chs").Ok?
    ensures EngKeys[i] in ToDict(n, "eng").value && ChsKeys[i] in ToDict(n, "chs").value
    ensures ToDict(n, "eng").value[EngKeys[i]] == ToDict(n, "chs").value[ChsKeys[i]]
  {
    ToDictAsReport(n);
    ReportEng(n, i);
    ReportChs(n, i);
  }
}
