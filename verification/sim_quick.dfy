/**
 * The weight-based quick simulation of src/husfort/qsimquick.py (class
 * CSimQuick): signal dates and execution dates cut from one calendar
 * window, signals merged onto test returns, the daily gross return
 * (weights times returns), turnover cost, the net return, the shift of the
 * result onto execution dates, and the NAV chained from the last stored
 * value.
 */
module SimQuick {

  import opened Wrappers
  import opened PyStr
  import PySeq
  import Numeric
  import StrSort
  import Calendar
  import Months

  /* ------------------------------------------------------------- dates */

  /** The signal dates and the execution dates of one run. */
  datatype Dates = Dates(sig: seq<string>, exe: seq<string>)

  /** `ds` is `iter` read twice, the execution copy `shift` positions later:
      the signal dates drop the last `shift` dates and the execution dates
      the first `shift` (both are empty when the window is shorter). */
  predicate Lagged(iter: seq<string>, ds: Dates, shift: nat) {
    var k := if shift <= |iter| then |iter| - shift else 0;
    ds.sig == iter[..k] && ds.exe == iter[|iter| - k..]
  }

  /** The calendar window the dates are cut from: it starts `shift + 1`
      trade dates before `bgn` (one extra date for the weight changes). The
      step back is the documented reading of `get_next_date`. */
  function Buffer(c: Calendar.Calendar, bgn: string, stp: string, shift: nat): (r: Result<seq<string>>)
    ensures r.Err? <==> Calendar.GetNextDate(c, bgn, -(shift + 1)).Err?
    ensures r.Ok? ==> r.value == Calendar.Window(c.dates, Calendar.GetNextDate(c, bgn, -(shift + 1)).value, stp)
  {
    var first :- Calendar.GetNextDate(c, bgn, -(shift + 1));
    Ok(Calendar.IterList(c, first, stp, true))
  }

  /** The same window with the step back as written: too close to the
      calendar's start it wraps round to a date near its end. */
  function BufferAsWritten(c: Calendar.Calendar, bgn: string, stp: string, shift: nat): (r: Result<seq<string>>)
    ensures r.Err? <==> Calendar.GetNextDateAsWritten(c, bgn, -(shift + 1)).Err?
    ensures r.Ok? ==> r.value == Calendar.Window(c.dates, Calendar.GetNextDateAsWritten(c, bgn, -(shift + 1)).value, stp)
  {
    var first :- Calendar.GetNextDateAsWritten(c, bgn, -(shift + 1));
    Ok(Calendar.IterList(c, first, stp, true))
  }

  /** Where the calendar can step back far enough both windows agree. */
  lemma BufferAgrees(c: Calendar.Calendar, bgn: string, stp: string, shift: nat)
    requires Buffer(c, bgn, stp, shift).Ok?
    ensures BufferAsWritten(c, bgn, stp, shift) == Buffer(c, bgn, stp, shift)
  {
    Calendar.GetNextDateAgrees(c, bgn, -(shift + 1));
  }

  /** From the calendar's first trade date the intended window fails, while
      the one as written starts at the last trade date. */
  lemma BufferWrapsAtStart(c: Calendar.Calendar, stp: string)
    requires Calendar.Sorted(c) && |c.dates| >= 2
    ensures Buffer(c, c.dates[0], stp, 0) == Err(IndexError)
    ensures BufferAsWritten(c, c.dates[0], stp, 0) == Ok(Calendar.Window(c.dates, c.dates[|c.dates| - 1], stp))
  {
    Calendar.GetNextDateWrapsAtStart(c);
  }

  /** `get_dates` as written: with d = shift + 1 the window is cut from
      the wrapping step back, the signal dates are `iter[0:-d + 1]` and the
      execution dates `iter[d - 1:]`. For shift 0 the first slice is
      `iter[0:0]`, which is empty. */
  function GetDatesAsWritten(c: Calendar.Calendar, bgn: string, stp: string, shift: nat): (r: Result<Dates>)
    ensures r.Err? <==> BufferAsWritten(c, bgn, stp, shift).Err?
    ensures r.Ok? && shift >= 1 ==> Lagged(BufferAsWritten(c, bgn, stp, shift).value, r.value, shift)
    ensures r.Ok? && shift == 0 ==> r.value.sig == [] && r.value.exe == BufferAsWritten(c, bgn, stp, shift).value
  {
    var iter :- BufferAsWritten(c, bgn, stp, shift);
    var d := shift + 1;
    Ok(Dates(PySeq.Slice(iter, 0, -d + 1), PySeq.From(iter, d - 1)))
  }

  /** `get_dates` as intended: the signal dates are the window without its
      last `shift` dates, so a shift of 0 uses every date twice. */
  function GetDates(c: Calendar.Calendar, bgn: string, stp: string, shift: nat): (r: Result<Dates>)
    ensures r.Err? <==> Buffer(c, bgn, stp, shift).Err?
    ensures r.Ok? ==> Lagged(Buffer(c, bgn, stp, shift).value, r.value, shift)
    ensures r.Ok? ==> |r.value.sig| == |r.value.exe|
  {
    var iter :- Buffer(c, bgn, stp, shift);
    var k := if shift <= |iter| then |iter| - shift else 0;
    Ok(Dates(iter[..k], iter[|iter| - k..]))
  }

  /** For every positive shift the code as written computes the intended
      dates wherever the calendar can step back far enough. */
  lemma GetDatesAgree(c: Calendar.Calendar, bgn: string, stp: string, shift: nat)
    requires shift >= 1
    ensures Buffer(c, bgn, stp, shift).Ok? ==> GetDatesAsWritten(c, bgn, stp, shift) == GetDates(c, bgn, stp, shift)
  {
    if Buffer(c, bgn, stp, shift).Ok? {
      BufferAgrees(c, bgn, stp, shift);
    }
  }

  /** With shift 0 the code as written has no signal date at all while the
      execution dates still cover the window, which holds `bgn` itself
      whenever `bgn` is a trade date before `stp` that has a predecessor. */
  lemma GetDatesShiftZero(c: Calendar.Calendar, bgn: string, stp: string)
    requires Calendar.Sorted(c) && bgn in c.dates && Less(bgn, stp)
    requires Calendar.GetSn(c, bgn).value >= 1
    ensures GetDatesAsWritten(c, bgn, stp, 0).Ok?
    ensures GetDatesAsWritten(c, bgn, stp, 0).value.sig == []
    ensures bgn in GetDatesAsWritten(c, bgn, stp, 0).value.exe
    ensures GetDates(c, bgn, stp, 0).value.sig == GetDatesAsWritten(c, bgn, stp, 0).value.exe
  {
    var first := Calendar.GetNextDate(c, bgn, -1).value;
    BufferAgrees(c, bgn, stp, 0);
    Calendar.GetNextDateDirection(c, bgn, -1);
    LessEqRefl(bgn);
    Calendar.WindowMembers(c.dates, first, stp, bgn);
  }

  lemma LessEqRefl(a: string)
    ensures LessEq(a, a)
  {
  }

  /** On a sorted calendar each execution date is the trade date `shift`
      positions after the signal date of the same index. */
  lemma ExeFollowsSig(c: Calendar.Calendar, bgn: string, stp: string, shift: nat, i: nat)
    requires Calendar.Sorted(c) && GetDates(c, bgn, stp, shift).Ok?
    requires i < |GetDates(c, bgn, stp, shift).value.sig|
    ensures Calendar.GetNextDate(c, GetDates(c, bgn, stp, shift).value.sig[i], shift)
            == Ok(GetDates(c, bgn, stp, shift).value.exe[i])
  {
    var iter, lo := BufferSlice(c, bgn, stp, shift);
    LaggedFollows(c, iter, lo, GetDates(c, bgn, stp, shift).value, shift, i);
  }

  /** The dates of a run are a lagged copy of a run of consecutive calendar
      dates. */
  lemma BufferSlice(c: Calendar.Calendar, bgn: string, stp: string, shift: nat) returns (iter: seq<string>, lo: nat)
    requires Calendar.Sorted(c) && GetDates(c, bgn, stp, shift).Ok?
    ensures lo + |iter| <= |c.dates| && iter == c.dates[lo..lo + |iter|]
    ensures Lagged(iter, GetDates(c, bgn, stp, shift).value, shift)
  {
    var first := Calendar.GetNextDate(c, bgn, -(shift + 1)).value;
    iter := Calendar.Window(c.dates, first, stp);
    lo := Calendar.WindowIsSlice(c.dates, first, stp);
    assert Buffer(c, bgn, stp, shift).value == iter;
  }

  /** The same for any lagged copy of a run of consecutive calendar dates. */
  lemma LaggedFollows(c: Calendar.Calendar, iter: seq<string>, lo: nat, ds: Dates, shift: nat, i: nat)
    requires Calendar.Sorted(c) && lo + |iter| <= |c.dates| && iter == c.dates[lo..lo + |iter|]
    requires Lagged(iter, ds, shift) && i < |ds.sig|
    ensures Calendar.GetNextDate(c, ds.sig[i], shift) == Ok(ds.exe[i])
  {
    assert ds.sig[i] == iter[i] == c.dates[lo + i];
    assert ds.exe[i] == iter[i + shift] == c.dates[lo + i + shift];
    Calendar.NextOfPosition(c, lo + i, shift);
  }

  /** The execution dates are increasing. */
  lemma ExeSorted(c: Calendar.Calendar, bgn: string, stp: string, shift: nat)
    requires Calendar.Sorted(c) && GetDates(c, bgn, stp, shift).Ok?
    ensures StrictlySorted(GetDates(c, bgn, stp, shift).value.exe)
  {
    var first := Calendar.GetNextDate(c, bgn, -(shift + 1)).value;
    var iter := Calendar.Window(c.dates, first, stp);
    var lo := Calendar.WindowIsSlice(c.dates, first, stp);
    assert iter == c.dates[lo..lo + |iter|];
    StrictlySortedSlice(c.dates, lo, lo + |iter|);
    assert Buffer(c, bgn, stp, shift).value == iter;
    assert Lagged(iter, GetDates(c, bgn, stp, shift).value, shift);
    var k := if shift <= |iter| then |iter| - shift else 0;
    StrictlySortedSlice(iter, |iter| - k, |iter|);
  }

  /* ------------------------------------------------------------- loading */

  /** A stored signal row; a NaN weight is None. */
  datatype Signal = Signal(date: string, instrument: string, weight: Option<real>)

  /** A test-return row; a NaN return is None. */
  datatype Return = Return(date: string, instrument: string, ret: Option<real>)

  /** `CSignalsLoader.load(bgn, stp)`: the stored rows with
      bgn <= trade_date < stp, in stored order. */
  function Load(store: seq<Signal>, bgn: string, stp: string): (r: seq<Signal>)
    ensures forall x :: x in r <==> x in store && LessEq(bgn, x.date) && Less(x.date, stp)
    ensures |r| <= |store|
  {
    if |store| == 0 then []
    else
      var rest := Load(store[1..], bgn, stp);
      assert store == [store[0]] + store[1..];
      if LessEq(bgn, store[0].date) && Less(store[0].date, stp) then [store[0]] + rest else rest
  }

  /** Loading the loaded rows again changes nothing. */
  lemma {:induction false} LoadIdempotent(store: seq<Signal>, bgn: string, stp: string)
    ensures Load(Load(store, bgn, stp), bgn, stp) == Load(store, bgn, stp)
    decreases |store|
  {
    if |store| > 0 {
      LoadIdempotent(store[1..], bgn, stp);
      var rest := Load(store[1..], bgn, stp);
      if LessEq(bgn, store[0].date) && Less(store[0].date, stp) {
        assert ([store[0]] + rest)[1..] == rest;
      }
    }
  }

  /** For rows dated on a sorted calendar, the loaded rows are exactly those
      whose date lies in the calendar window `get_iter_list(bgn, stp)`. */
  lemma LoadCalendarWindow(c: Calendar.Calendar, store: seq<Signal>, bgn: string, stp: string, x: Signal)
    requires Calendar.Sorted(c) && x.date in c.dates
    ensures x in Load(store, bgn, stp) <==> x in store && x.date in Calendar.IterList(c, bgn, stp, true)
  {
    Calendar.WindowMembers(c.dates, bgn, stp, x.date);
  }

  /* ------------------------------------------------------------- merging */

  /** A row of the merged table: NaN weights and returns are filled with 0. */
  datatype Row = Row(date: string, instrument: string, weight: real, ret: real)

  /** `fillna(0)`. */
  function Fill(x: Option<real>): (r: real)
    ensures x.Some? ==> r == x.value
    ensures x.None? ==> r == 0.0
  {
    if x.Some? then x.value else 0.0
  }

  /** The signal rows with the given date and instrument, in stored order. */
  function Matches(sigs: seq<Signal>, date: string, instrument: string): (m: seq<Signal>)
    ensures forall s :: s in m <==> s in sigs && s.date == date && s.instrument == instrument
    ensures |m| <= |sigs|
  {
    if |sigs| == 0 then []
    else
      var rest := Matches(sigs[1..], date, instrument);
      assert sigs == [sigs[0]] + sigs[1..];
      if sigs[0].date == date && sigs[0].instrument == instrument then [sigs[0]] + rest else rest
  }

  /** The merged rows of one return row: one per matching signal, or one
      with weight 0 when no signal matches. */
  function MergeOne(sigs: seq<Signal>, x: Return): (rows: seq<Row>)
    ensures |rows| >= 1
    ensures forall i :: 0 <= i < |rows| ==>
      rows[i].date == x.date && rows[i].instrument == x.instrument && rows[i].ret == Fill(x.ret)
  {
    var m := Matches(sigs, x.date, x.instrument);
    if |m| == 0 then [Row(x.date, x.instrument, 0.0, Fill(x.ret))]
    else seq(|m|, i requires 0 <= i < |m| => Row(x.date, x.instrument, Fill(m[i].weight), Fill(x.ret)))
  }

  /** `pd.merge(sigs, rets, how="right", on=[trade_date, instrument])`
      followed by `fillna(0)`: the return rows in order, each joined with
      its signals. */
  function Merge(sigs: seq<Signal>, rets: seq<Return>): (data: seq<Row>)
    ensures |data| >= |rets|
  {
    if |rets| == 0 then []
    else Merge(sigs, rets[..|rets| - 1]) + MergeOne(sigs, rets[|rets| - 1])
  }

  /** No two signal rows share a date and an instrument. */
  predicate UniqueSignals(sigs: seq<Signal>) {
    forall i, j :: 0 <= i < j < |sigs| ==>
      (sigs[i].date, sigs[i].instrument) != (sigs[j].date, sigs[j].instrument)
  }

  /** The weight a return row receives: the signal's weight (0 if NaN), or
      0 when there is no signal for its date and instrument. */
  function WeightFor(sigs: seq<Signal>, date: string, instrument: string): (w: real)
  {
    var m := Matches(sigs, date, instrument);
    if |m| == 0 then 0.0 else Fill(m[0].weight)
  }

  lemma {:induction false} MatchesUnique(sigs: seq<Signal>, date: string, instrument: string)
    requires UniqueSignals(sigs)
    ensures |Matches(sigs, date, instrument)| <= 1
    decreases |sigs|
  {
    if |sigs| > 0 {
      assert UniqueSignals(sigs[1..]);
      MatchesUnique(sigs[1..], date, instrument);
      if sigs[0].date == date && sigs[0].instrument == instrument {
        forall s | s in sigs[1..] ensures s.date != date || s.instrument != instrument {
          var j :| 0 <= j < |sigs| - 1 && sigs[1..][j] == s;
          assert (sigs[0].date, sigs[0].instrument) != (sigs[j + 1].date, sigs[j + 1].instrument);
        }
        MatchesNone(sigs[1..], date, instrument);
      }
    }
  }

  lemma {:induction false} MatchesNone(sigs: seq<Signal>, date: string, instrument: string)
    requires forall s :: s in sigs ==> s.date != date || s.instrument != instrument
    ensures Matches(sigs, date, instrument) == []
    decreases |sigs|
  {
    if |sigs| > 0 {
      assert sigs[0] in sigs;
      MatchesNone(sigs[1..], date, instrument);
    }
  }

  /** With at most one signal per date and instrument the merge keeps one
      row per return row, in order, carrying the signal's weight or 0. */
  lemma {:induction false} MergeUnique(sigs: seq<Signal>, rets: seq<Return>)
    requires UniqueSignals(sigs)
    ensures |Merge(sigs, rets)| == |rets|
    ensures forall i :: 0 <= i < |rets| ==>
      Merge(sigs, rets)[i] == Row(rets[i].date, rets[i].instrument,
                                  WeightFor(sigs, rets[i].date, rets[i].instrument), Fill(rets[i].ret))
    decreases |rets|
  {
    if |rets| > 0 {
      var init := rets[..|rets| - 1];
      var x := rets[|rets| - 1];
      MergeUnique(sigs, init);
      MatchesUnique(sigs, x.date, x.instrument);
      MergeOneUnique(sigs, x);
      var row := Row(x.date, x.instrument, WeightFor(sigs, x.date, x.instrument), Fill(x.ret));
      var m := Merge(sigs, init);
      assert Merge(sigs, rets) == m + [row];
      forall i | 0 <= i < |rets|
        ensures Merge(sigs, rets)[i] == Row(rets[i].date, rets[i].instrument,
                                            WeightFor(sigs, rets[i].date, rets[i].instrument), Fill(rets[i].ret))
      {
        if i < |init| {
          assert init[i] == rets[i];
          assert Merge(sigs, rets)[i] == m[i];
        }
      }
    }
  }

  /** A return row with at most one signal gives exactly one merged row. */
  lemma MergeOneUnique(sigs: seq<Signal>, x: Return)
    requires |Matches(sigs, x.date, x.instrument)| <= 1
    ensures MergeOne(sigs, x) == [Row(x.date, x.instrument, WeightFor(sigs, x.date, x.instrument), Fill(x.ret))]
  {
  }

  /** A return row without a signal gets weight 0. */
  lemma MissingSignalWeighsZero(sigs: seq<Signal>, date: string, instrument: string)
    requires forall s :: s in sigs ==> s.date != date || s.instrument != instrument
    ensures WeightFor(sigs, date, instrument) == 0.0
  {
  }

  /* ---------------------------------------------------------------- core */

  /** The dates of the merged table, increasing and without repetition
      (the index of `groupby("trade_date")` and of the pivot table). */
  function DateKeys(data: seq<Row>): (ks: seq<string>)
    ensures StrictlySorted(ks)
    ensures forall k :: k in ks <==> exists i :: 0 <= i < |data| && data[i].date == k
    decreases |data|
  {
    if |data| == 0 then []
    else
      var init := data[..|data| - 1];
      assert forall i :: 0 <= i < |init| ==> init[i] == data[i];
      Months.AddKey(data[|data| - 1].date, DateKeys(init))
  }

  /** The instruments of the merged table (the pivot table's columns). */
  function InstrumentKeys(data: seq<Row>): (ks: seq<string>)
    ensures StrictlySorted(ks)
    ensures forall k :: k in ks <==> exists i :: 0 <= i < |data| && data[i].instrument == k
    decreases |data|
  {
    if |data| == 0 then []
    else
      var init := data[..|data| - 1];
      assert forall i :: 0 <= i < |init| ==> init[i] == data[i];
      Months.AddKey(data[|data| - 1].instrument, InstrumentKeys(init))
  }

  /** The rows of one date, in table order (one group of the groupby). */
  function DayRows(data: seq<Row>, date: string): (rows: seq<Row>)
    ensures forall x :: x in rows <==> x in data && x.date == date
    ensures |rows| <= |data|
  {
    if |data| == 0 then []
    else
      var rest := DayRows(data[1..], date);
      assert data == [data[0]] + data[1..];
      if data[0].date == date then [data[0]] + rest else rest
  }

  /** The groups partition the table: every row lies in the group of its
      date, every group is non-empty and holds only rows of its date. */
  lemma DayRowsPartition(data: seq<Row>, x: Row)
    requires x in data
    ensures x.date in DateKeys(data) && x in DayRows(data, x.date)
    ensures forall d :: d in DateKeys(data) ==> |DayRows(data, d)| > 0
  {
    var i :| 0 <= i < |data| && data[i] == x;
    assert data[i].date == x.date;
    forall d | d in DateKeys(data) ensures |DayRows(data, d)| > 0 {
      var j :| 0 <= j < |data| && data[j].date == d;
      assert data[j] in DayRows(data, d);
    }
  }

  /** The gross return of a day: `weight @ ret` over its rows. */
  function RawRet(rows: seq<Row>): (r: real)
    decreases |rows|
  {
    if |rows| == 0 then 0.0 else RawRet(rows[..|rows| - 1]) + rows[|rows| - 1].weight * rows[|rows| - 1].ret
  }

  /** A day in which every weight is 0 earns nothing. */
  lemma {:induction false} RawRetUnweighted(rows: seq<Row>)
    requires forall i :: 0 <= i < |rows| ==> rows[i].weight == 0.0
    ensures RawRet(rows) == 0.0
    decreases |rows|
  {
    if |rows| > 0 {
      RawRetUnweighted(rows[..|rows| - 1]);
    }
  }

  /** The weights of one instrument in a day's rows. */
  function WeightsOf(rows: seq<Row>, instrument: string): (ws: seq<real>)
    ensures |ws| <= |rows|
  {
    if |rows| == 0 then []
    else
      var rest := WeightsOf(rows[1..], instrument);
      if rows[0].instrument == instrument then [rows[0].weight] + rest else rest
  }

  /** One cell of `pivot_table(values="weight")`: the mean weight of the
      instrument that day, NaN (None) when it has no row. */
  function Pivot(rows: seq<Row>, instrument: string): (w: Option<real>)
    ensures w.None? <==> |WeightsOf(rows, instrument)| == 0
  {
    var ws := WeightsOf(rows, instrument);
    if |ws| == 0 then None else Some(Numeric.Sum(ws) / |ws| as real)
  }

  /** Turnover between two days as written: `diff().fillna(0)` makes the
      change of an instrument that is missing on either day 0. */
  function TurnoverAsWritten(prev: seq<Row>, cur: seq<Row>, cols: seq<string>): (t: real)
    ensures t >= 0.0
    decreases |cols|
  {
    if |cols| == 0 then 0.0
    else
      var a := Pivot(cur, cols[0]);
      var b := Pivot(prev, cols[0]);
      (if a.Some? && b.Some? then Numeric.Abs(a.value - b.value) else 0.0) + TurnoverAsWritten(prev, cur, cols[1..])
  }

  /** Turnover between two days as intended: an instrument without a row
      holds weight 0, so entering or leaving it is a change of weight. */
  function Turnover(prev: seq<Row>, cur: seq<Row>, cols: seq<string>): (t: real)
    ensures t >= 0.0
    decreases |cols|
  {
    if |cols| == 0 then 0.0
    else
      var a := Pivot(cur, cols[0]);
      var b := Pivot(prev, cols[0]);
      Numeric.Abs(Fill(a) - Fill(b)) + Turnover(prev, cur, cols[1..])
  }

  /** The code as written never charges more than the intended turnover. */
  lemma {:induction false} TurnoverAsWrittenAtMost(prev: seq<Row>, cur: seq<Row>, cols: seq<string>)
    ensures TurnoverAsWritten(prev, cur, cols) <= Turnover(prev, cur, cols)
    decreases |cols|
  {
    if |cols| > 0 {
      TurnoverAsWrittenAtMost(prev, cur, cols[1..]);
    }
  }

  /** Both agree when each instrument has rows on both days or on neither. */
  lemma {:induction false} TurnoverAgree(prev: seq<Row>, cur: seq<Row>, cols: seq<string>)
    requires forall k :: k in cols ==> Pivot(prev, k).Some? == Pivot(cur, k).Some?
    ensures TurnoverAsWritten(prev, cur, cols) == Turnover(prev, cur, cols)
    decreases |cols|
  {
    if |cols| > 0 {
      assert cols[0] in cols;
      TurnoverAgree(prev, cur, cols[1..]);
    }
  }

  /** Moving the whole book from instrument A to instrument B when each day
      lists only its own instrument: the intended turnover is 2, the code as
      written charges nothing. */
  lemma TurnoverSwitchExample()
    ensures TurnoverAsWritten([Row("20240102", "A", 1.0, 0.0)], [Row("20240103", "B", 1.0, 0.0)], ["A", "B"]) == 0.0
    ensures Turnover([Row("20240102", "A", 1.0, 0.0)], [Row("20240103", "B", 1.0, 0.0)], ["A", "B"]) == 2.0
  {
    var prev := [Row("20240102", "A", 1.0, 0.0)];
    var cur := [Row("20240103", "B", 1.0, 0.0)];
    assert WeightsOf(cur, "A") == [] && WeightsOf(prev, "B") == [];
    assert WeightsOf(cur, "B") == [1.0] && WeightsOf(prev, "A") == [1.0];
    assert Numeric.Sum([1.0]) == 1.0;
    assert ["A", "B"][1..] == ["B"];
  }

  /** One row of the result of `cal_core`, still indexed by signal date. */
  datatype CoreRow = CoreRow(date: string, raw: real, turnover: real, cost: real, ret: real, exe: string)

  /** The cost of a day's turnover. */
  function Cost(turnover: real, rate: real): real {
    turnover * rate
  }

  /** The result rows for given per-day turnovers. */
  function Assemble(data: seq<Row>, exe: seq<string>, rate: real, turnovers: seq<real>): (r: seq<CoreRow>)
    requires |turnovers| == |DateKeys(data)| == |exe|
    requires forall i :: 0 <= i < |turnovers| ==> turnovers[i] >= 0.0
    requires |turnovers| > 0 ==> turnovers[0] == 0.0
    ensures CoreRows(data, exe, rate, r)
  {
    var ks := DateKeys(data);
    seq(|ks|, i requires 0 <= i < |ks| =>
      var raw := RawRet(DayRows(data, ks[i]));
      CoreRow(ks[i], raw, turnovers[i], Cost(turnovers[i], rate), raw - Cost(turnovers[i], rate), exe[i]))
  }

  /** The per-day turnovers as written: 0 on the first date. */
  function TurnoversAsWritten(data: seq<Row>): (ts: seq<real>)
    ensures |ts| == |DateKeys(data)|
    ensures forall i :: 0 <= i < |ts| ==> ts[i] >= 0.0
    ensures |ts| > 0 ==> ts[0] == 0.0
  {
    var ks := DateKeys(data);
    seq(|ks|, i requires 0 <= i < |ks| => StepTurnover(data, ks, i, true))
  }

  /** The per-day turnovers as intended: 0 on the first date. */
  function Turnovers(data: seq<Row>): (ts: seq<real>)
    ensures |ts| == |DateKeys(data)|
    ensures forall i :: 0 <= i < |ts| ==> ts[i] >= 0.0
    ensures |ts| > 0 ==> ts[0] == 0.0
  {
    var ks := DateKeys(data);
    seq(|ks|, i requires 0 <= i < |ks| => StepTurnover(data, ks, i, false))
  }

  /** The turnover into date `ks[i]`, as written or as intended; 0 on the
      first date. */
  function StepTurnover(data: seq<Row>, ks: seq<string>, i: nat, asWritten: bool): (t: real)
    requires i < |ks|
    ensures t >= 0.0
    ensures i == 0 ==> t == 0.0
  {
    if i == 0 then 0.0
    else
      var prev, cur := DayRows(data, ks[i - 1]), DayRows(data, ks[i]);
      if asWritten then TurnoverAsWritten(prev, cur, InstrumentKeys(data))
      else Turnover(prev, cur, InstrumentKeys(data))
  }

  /** What a result row of `cal_core` means: the gross return of the rows
      of its date, a non-negative turnover (0 on the first date) charged at
      `rate`, the net return, and the execution date of the same position. */
  predicate CoreRows(data: seq<Row>, exe: seq<string>, rate: real, r: seq<CoreRow>) {
    var ks := DateKeys(data);
    && |r| == |ks| == |exe|
    && forall i :: 0 <= i < |r| ==>
      && r[i].date == ks[i] && r[i].exe == exe[i]
      && r[i].raw == RawRet(DayRows(data, ks[i]))
      && r[i].turnover >= 0.0 && (i == 0 ==> r[i].turnover == 0.0)
      && r[i].cost == Cost(r[i].turnover, rate)
      && r[i].ret == r[i].raw - r[i].cost
  }

  /** `cal_core` as written. Building the frame raises ValueError when there
      are not as many execution dates as dates in the table. */
  function CalCoreAsWritten(data: seq<Row>, exe: seq<string>, rate: real): (r: Result<seq<CoreRow>>)
    ensures r.Ok? <==> |exe| == |DateKeys(data)|
    ensures r.Err? ==> r.error == ValueError
    ensures r.Ok? ==> CoreRows(data, exe, rate, r.value)
  {
    if |exe| != |DateKeys(data)| then Err(ValueError)
    else Ok(Assemble(data, exe, rate, TurnoversAsWritten(data)))
  }

  /** `cal_core` with the intended turnover. */
  function CalCore(data: seq<Row>, exe: seq<string>, rate: real): (r: Result<seq<CoreRow>>)
    ensures r.Ok? <==> |exe| == |DateKeys(data)|
    ensures r.Err? ==> r.error == ValueError
    ensures r.Ok? ==> CoreRows(data, exe, rate, r.value)
  {
    if |exe| != |DateKeys(data)| then Err(ValueError)
    else Ok(Assemble(data, exe, rate, Turnovers(data)))
  }

  /** With a non-negative cost rate the net return never exceeds the gross
      return. */
  lemma NetBelowRaw(data: seq<Row>, exe: seq<string>, rate: real, r: seq<CoreRow>, i: nat)
    requires CoreRows(data, exe, rate, r) && rate >= 0.0 && i < |r|
    ensures r[i].cost >= 0.0 && r[i].ret <= r[i].raw
  {
  }

  /** Both readings agree on everything but the turnover and the cost; the
      code as written charges at most the intended cost. */
  lemma CalCoreAsWrittenUndercharges(data: seq<Row>, exe: seq<string>, rate: real, i: nat)
    requires CalCore(data, exe, rate).Ok? && rate >= 0.0 && i < |exe|
    ensures CalCoreAsWritten(data, exe, rate).Ok?
    ensures CalCoreAsWritten(data, exe, rate).value[i].raw == CalCore(data, exe, rate).value[i].raw
    ensures CalCoreAsWritten(data, exe, rate).value[i].cost <= CalCore(data, exe, rate).value[i].cost
  {
    var ks := DateKeys(data);
    if i > 0 {
      TurnoverAsWrittenAtMost(DayRows(data, ks[i - 1]), DayRows(data, ks[i]), InstrumentKeys(data));
    }
    CostMonotone(TurnoversAsWritten(data)[i], Turnovers(data)[i], rate);
  }

  lemma CostMonotone(a: real, b: real, rate: real)
    requires a <= b && rate >= 0.0
    ensures Cost(a, rate) <= Cost(b, rate)
  {
    assert Cost(b, rate) - Cost(a, rate) == (b - a) * rate;
  }

  /* ---------------------------------------------------------- recalibrate */

  /** A row of the net result, indexed by execution date. */
  datatype Net = Net(date: string, raw: real, turnover: real, cost: real, ret: real)

  function NetOf(x: CoreRow): (n: Net)
    ensures n.date == x.exe && n.ret == x.ret
  {
    Net(x.exe, x.raw, x.turnover, x.cost, x.ret)
  }

  function Exes(rows: seq<CoreRow>): (s: seq<string>)
    ensures |s| == |rows| && forall i :: 0 <= i < |rows| ==> s[i] == rows[i].exe
  {
    seq(|rows|, i requires 0 <= i < |rows| => rows[i].exe)
  }

  /** Each date is at least its predecessor (`is_monotonic_decreasing`). */
  predicate Descending(s: seq<string>) {
    forall i :: 0 < i < |s| ==> LessEq(s[i], s[i - 1])
  }

  /** The rows whose execution date is not before `bgn`, in order. */
  function Keep(rows: seq<CoreRow>, bgn: string): (r: seq<Net>)
    ensures forall x :: x in r ==> !Less(x.date, bgn)
    ensures |r| <= |rows|
  {
    if |rows| == 0 then []
    else
      var rest := Keep(rows[1..], bgn);
      if !Less(rows[0].exe, bgn) then [NetOf(rows[0])] + rest else rest
  }

  /** `recalibrate_dates`: index the rows by execution date and
      `truncate(before=bgn)`. pandas truncates only a sorted index (either
      direction) and raises ValueError otherwise. */
  function Recalibrate(rows: seq<CoreRow>, bgn: string): (r: Result<seq<Net>>)
    ensures r.Err? <==> !StrSort.Ordered(Exes(rows)) && !Descending(Exes(rows))
    ensures r.Err? ==> r.error == ValueError
    ensures r.Ok? ==> forall x :: x in r.value ==> !Less(x.date, bgn)
  {
    if !StrSort.Ordered(Exes(rows)) && !Descending(Exes(rows)) then Err(ValueError)
    else Ok(Keep(rows, bgn))
  }

  /** A row is kept exactly when its execution date is not before `bgn`. */
  lemma {:induction false} KeepMembers(rows: seq<CoreRow>, bgn: string, i: nat)
    requires i < |rows|
    ensures !Less(rows[i].exe, bgn) ==> NetOf(rows[i]) in Keep(rows, bgn)
    decreases |rows|
  {
    if i > 0 {
      KeepMembers(rows[1..], bgn, i - 1);
    }
  }

  /** On increasing execution dates the rows kept are a suffix: from the
      first row dated `bgn` or later to the end. */
  lemma {:induction false} KeepSuffix(rows: seq<CoreRow>, bgn: string) returns (lo: nat)
    requires StrictlySorted(Exes(rows))
    ensures lo <= |rows|
    ensures forall i :: 0 <= i < lo ==> Less(rows[i].exe, bgn)
    ensures Keep(rows, bgn) == seq(|rows| - lo, j requires 0 <= j < |rows| - lo => NetOf(rows[lo + j]))
    decreases |rows|
  {
    if |rows| == 0 {
      lo := 0;
    } else if Less(rows[0].exe, bgn) {
      assert Exes(rows[1..]) == Exes(rows)[1..];
      SortedTail(Exes(rows));
      var k := KeepSuffix(rows[1..], bgn);
      lo := k + 1;
    } else {
      forall j | 0 < j < |rows| ensures !Less(rows[j].exe, bgn) {
        assert Less(Exes(rows)[0], Exes(rows)[j]);
        if Less(rows[j].exe, bgn) {
          LessTransitive(rows[0].exe, rows[j].exe, bgn);
        }
      }
      KeepAll(rows[1..], bgn);
      lo := 0;
    }
  }

  lemma {:induction false} KeepAll(rows: seq<CoreRow>, bgn: string)
    requires forall j :: 0 <= j < |rows| ==> !Less(rows[j].exe, bgn)
    ensures Keep(rows, bgn) == seq(|rows|, j requires 0 <= j < |rows| => NetOf(rows[j]))
    decreases |rows|
  {
    if |rows| > 0 {
      KeepAll(rows[1..], bgn);
    }
  }

  /* ----------------------------------------------------------------- nav */

  /** One day's growth of the NAV. */
  function Grow(nav: real, ret: real): real {
    nav * (1.0 + ret)
  }

  /** `nav` compounds `rets` starting from `lastNav`. */
  predicate Compounds(nav: seq<real>, rets: seq<real>, lastNav: real) {
    && |nav| == |rets|
    && (|rets| > 0 ==> nav[0] == Grow(lastNav, rets[0]))
    && forall i :: 0 < i < |rets| ==> nav[i] == Grow(nav[i - 1], rets[i])
  }

  lemma MulSwap(a: real, b: real, c: real)
    ensures (a * b) * c == (a * c) * b
  {
  }

  /** One step of the cumulative product, scaled by the start value. */
  lemma NavStep(g: real, prev: real, ret: real, lastNav: real)
    requires g == prev * (1.0 + ret)
    ensures g * lastNav == Grow(prev * lastNav, ret)
  {
    MulSwap(prev, 1.0 + ret, lastNav);
  }

  /** `update_nav`: `(ret + 1).cumprod() * last_nav`. */
  function UpdateNav(rets: seq<real>, lastNav: real): (nav: seq<real>)
    ensures Compounds(nav, rets, lastNav)
  {
    var g := Numeric.CumProd(seq(|rets|, i requires 0 <= i < |rets| => 1.0 + rets[i]));
    var nav := seq(|g|, i requires 0 <= i < |g| => g[i] * lastNav);
    assert |rets| > 0 ==> nav[0] == Grow(lastNav, rets[0]) by {
      if |rets| > 0 {
        assert g[0] == 1.0 + rets[0];
      }
    }
    forall i | 0 < i < |rets| ensures nav[i] == Grow(nav[i - 1], rets[i]) {
      assert nav[i] == g[i] * lastNav && nav[i - 1] == g[i - 1] * lastNav;
      NavStep(g[i], g[i - 1], rets[i], lastNav);
    }
    nav
  }

  lemma {:induction false} CompoundsAt(a: seq<real>, b: seq<real>, rets: seq<real>, lastNav: real, i: nat)
    requires Compounds(a, rets, lastNav) && Compounds(b, rets, lastNav) && i < |rets|
    ensures a[i] == b[i]
    decreases i
  {
    if i > 0 {
      CompoundsAt(a, b, rets, lastNav, i - 1);
    }
  }

  /** At most one series compounds given returns from a given start. */
  lemma CompoundsUnique(a: seq<real>, b: seq<real>, rets: seq<real>, lastNav: real)
    requires Compounds(a, rets, lastNav) && Compounds(b, rets, lastNav)
    ensures a == b
  {
    forall i | 0 <= i < |rets| ensures a[i] == b[i] {
      CompoundsAt(a, b, rets, lastNav, i);
    }
  }

  /** The last value of a compounded series, `lastNav` when it is empty. */
  function Last(nav: seq<real>, lastNav: real): real {
    if |nav| == 0 then lastNav else nav[|nav| - 1]
  }

  /** Running the returns in two pieces, the second starting from the last
      NAV of the first, gives the same NAV as one run: the stored NAV of the
      day before `bgn` continues the series. */
  lemma NavContinues(a: seq<real>, b: seq<real>, lastNav: real)
    ensures UpdateNav(a + b, lastNav) == UpdateNav(a, lastNav) + UpdateNav(b, Last(UpdateNav(a, lastNav), lastNav))
  {
    var x := UpdateNav(a, lastNav);
    var y := UpdateNav(b, Last(x, lastNav));
    var rets := a + b;
    var joined := x + y;
    forall i | 0 < i < |rets| ensures joined[i] == joined[i - 1] * (1.0 + rets[i]) {
      if i > |a| {
        assert joined[i] == y[i - |a|] && joined[i - 1] == y[i - 1 - |a|];
      } else if i == |a| {
        assert joined[i] == y[0] && joined[i - 1] == x[|a| - 1];
      }
    }
    if |a| == 0 {
      assert joined == y && rets == b;
    }
    CompoundsUnique(UpdateNav(rets, lastNav), joined, rets, lastNav);
  }

  /** Each NAV step recovers the day's return. */
  lemma NavReturns(rets: seq<real>, lastNav: real, i: nat)
    requires 0 < i < |rets| && UpdateNav(rets, lastNav)[i - 1] != 0.0
    ensures UpdateNav(rets, lastNav)[i] / UpdateNav(rets, lastNav)[i - 1] - 1.0 == rets[i]
  {
    var nav := UpdateNav(rets, lastNav);
    assert nav[i] == Grow(nav[i - 1], rets[i]);
    GrowReturn(nav[i - 1], rets[i]);
  }

  lemma GrowReturn(nav: real, ret: real)
    requires nav != 0.0
    ensures Grow(nav, ret) / nav - 1.0 == ret
  {
    DivUnique(Grow(nav, ret), nav, 1.0 + ret);
  }

  /** The quotient is the one number that multiplies back. */
  lemma DivUnique(a: real, b: real, q: real)
    requires b != 0.0 && q * b == a
    ensures a / b == q
  {
  }

  /* ---------------------------------------------------------------- main */

  /** `load_nav_at_date`: the stored NAV of the date, 1.0 when none. */
  function LastNav(navs: map<string, real>, date: string): (v: real)
    ensures date in navs ==> v == navs[date]
    ensures date !in navs ==> v == 1.0
  {
    if date in navs then navs[date] else 1.0
  }

  function NetRets(net: seq<Net>): (s: seq<real>)
    ensures |s| == |net| && forall i :: 0 <= i < |net| ==> s[i] == net[i].ret
  {
    seq(|net|, i requires 0 <= i < |net| => net[i].ret)
  }

  /** The net result and its NAV column. */
  datatype Outcome = Outcome(net: seq<Net>, nav: seq<real>)

  /** The steps of `main` after `get_dates`: load signals and returns on
      [first signal date, trade date after the last signal date), merge,
      `cal_core`, `recalibrate_dates`, and chain the NAV from the stored NAV
      of the trade date before `bgn`. Calendar steps use the documented
      reading of `get_next_date` and the turnover is the intended one; the
      return loader is a parameter. */
  function Run(c: Calendar.Calendar, bgn: string, ds: Dates, store: seq<Signal>,
               rets: (string, string) -> seq<Return>, rate: real, navs: map<string, real>): (r: Result<Outcome>)
    ensures |ds.sig| == 0 ==> r == Err(IndexError)
    ensures r.Ok? ==> forall x :: x in r.value.net ==> !Less(x.date, bgn)
    ensures r.Ok? ==> Calendar.GetNextDate(c, bgn, -1).Ok? &&
                      Compounds(r.value.nav, NetRets(r.value.net),
                                LastNav(navs, Calendar.GetNextDate(c, bgn, -1).value))
  {
    var base :- PySeq.At(ds.sig, 0);
    var baseStp :- Calendar.GetNextDate(c, ds.sig[|ds.sig| - 1], 1);
    var lastDate :- Calendar.GetNextDate(c, bgn, -1);
    var raw :- CalCore(Loaded(store, rets, base, baseStp), ds.exe, rate);
    Finish(bgn, raw, lastDate, navs)
  }

  /** The same steps as written: `get_next_date` wraps, so the trade date
      before the calendar's first date is its last one, whose stored NAV is
      used; the turnover is the one of `cal_core` as written. */
  function RunAsWritten(c: Calendar.Calendar, bgn: string, ds: Dates, store: seq<Signal>,
                        rets: (string, string) -> seq<Return>, rate: real, navs: map<string, real>): (r: Result<Outcome>)
    ensures |ds.sig| == 0 ==> r == Err(IndexError)
    ensures r.Ok? ==> forall x :: x in r.value.net ==> !Less(x.date, bgn)
    ensures r.Ok? ==> Calendar.GetNextDateAsWritten(c, bgn, -1).Ok? &&
                      Compounds(r.value.nav, NetRets(r.value.net),
                                LastNav(navs, Calendar.GetNextDateAsWritten(c, bgn, -1).value))
  {
    var base :- PySeq.At(ds.sig, 0);
    var baseStp :- Calendar.GetNextDateAsWritten(c, ds.sig[|ds.sig| - 1], 1);
    var lastDate :- Calendar.GetNextDateAsWritten(c, bgn, -1);
    var raw :- CalCoreAsWritten(Loaded(store, rets, base, baseStp), ds.exe, rate);
    Finish(bgn, raw, lastDate, navs)
  }

  /** `get_sigs_and_rets(base, baseStp)`. */
  function Loaded(store: seq<Signal>, rets: (string, string) -> seq<Return>, base: string, baseStp: string): seq<Row> {
    Merge(Load(store, base, baseStp), rets(base, baseStp))
  }

  /** The truncation and the NAV chain, once `cal_core` has run. */
  function Finish(bgn: string, raw: seq<CoreRow>, lastDate: string, navs: map<string, real>): (r: Result<Outcome>)
    ensures r.Ok? <==> Recalibrate(raw, bgn).Ok?
    ensures r.Ok? ==> forall x :: x in r.value.net ==> !Less(x.date, bgn)
    ensures r.Ok? ==> Compounds(r.value.nav, NetRets(r.value.net), LastNav(navs, lastDate))
  {
    var net :- Recalibrate(raw, bgn);
    Ok(Outcome(net, UpdateNav(NetRets(net), LastNav(navs, lastDate))))
  }

  /** `a` is `b` with the same dates and raw returns and costs no higher. */
  predicate Undercharged(a: seq<Net>, b: seq<Net>) {
    && |a| == |b|
    && forall i :: 0 <= i < |a| ==> a[i].date == b[i].date && a[i].raw == b[i].raw && a[i].cost <= b[i].cost
  }

  /** Rows with the same execution dates and raw returns and costs no higher
      keep the same rows, costs no higher. */
  lemma {:induction false} KeepUndercharged(r1: seq<CoreRow>, r2: seq<CoreRow>, bgn: string)
    requires |r1| == |r2|
    requires forall i :: 0 <= i < |r1| ==> r1[i].exe == r2[i].exe && r1[i].raw == r2[i].raw && r1[i].cost <= r2[i].cost
    ensures Undercharged(Keep(r1, bgn), Keep(r2, bgn))
    decreases |r1|
  {
    if |r1| > 0 {
      assert forall i :: 0 <= i < |r1| - 1 ==> r1[1..][i] == r1[i + 1] && r2[1..][i] == r2[i + 1];
      KeepUndercharged(r1[1..], r2[1..], bgn);
      if !Less(r1[0].exe, bgn) {
        UnderchargedCons(NetOf(r1[0]), NetOf(r2[0]), Keep(r1[1..], bgn), Keep(r2[1..], bgn));
      }
    }
  }

  lemma UnderchargedCons(x: Net, y: Net, a: seq<Net>, b: seq<Net>)
    requires x.date == y.date && x.raw == y.raw && x.cost <= y.cost && Undercharged(a, b)
    ensures Undercharged([x] + a, [y] + b)
  {
    assert forall i :: 0 < i <= |a| ==> ([x] + a)[i] == a[i - 1] && ([y] + b)[i] == b[i - 1];
  }

  /** Both readings of `cal_core` give rows with the same execution dates
      and raw returns, the code as written costing no more. */
  lemma CalCoreRelated(data: seq<Row>, exe: seq<string>, rate: real)
    requires CalCore(data, exe, rate).Ok? && rate >= 0.0
    ensures CalCoreAsWritten(data, exe, rate).Ok?
    ensures var r1, r2 := CalCoreAsWritten(data, exe, rate).value, CalCore(data, exe, rate).value;
      |r1| == |r2| &&
      forall i :: 0 <= i < |r1| ==> r1[i].exe == r2[i].exe && r1[i].raw == r2[i].raw && r1[i].cost <= r2[i].cost
  {
    forall i | 0 <= i < |exe|
      ensures CalCoreAsWritten(data, exe, rate).value[i].raw == CalCore(data, exe, rate).value[i].raw
      ensures CalCoreAsWritten(data, exe, rate).value[i].cost <= CalCore(data, exe, rate).value[i].cost
    {
      CalCoreAsWrittenUndercharges(data, exe, rate, i);
    }
  }

  /** Where the calendar holds a date before `bgn`, both runs succeed or
      fail together; with a non-negative cost rate they report the same
      dates and raw returns, and the code as written charges no more. */
  lemma RunAgrees(c: Calendar.Calendar, bgn: string, ds: Dates, store: seq<Signal>,
                  rets: (string, string) -> seq<Return>, rate: real, navs: map<string, real>)
    requires Calendar.GetNextDate(c, bgn, -1).Ok?
    ensures RunAsWritten(c, bgn, ds, store, rets, rate, navs).Ok? <==> Run(c, bgn, ds, store, rets, rate, navs).Ok?
    ensures rate >= 0.0 && Run(c, bgn, ds, store, rets, rate, navs).Ok? ==>
      Undercharged(RunAsWritten(c, bgn, ds, store, rets, rate, navs).value.net, Run(c, bgn, ds, store, rets, rate, navs).value.net)
  {
    Calendar.GetNextDateAgrees(c, bgn, -1);
    if |ds.sig| > 0 {
      var base, last := ds.sig[0], ds.sig[|ds.sig| - 1];
      Calendar.GetNextDateForwardAgrees(c, last, 1);
      var baseStp := Calendar.GetNextDate(c, last, 1);
      if baseStp.Ok? {
        var data := Loaded(store, rets, base, baseStp.value);
        if CalCore(data, ds.exe, rate).Ok? {
          var r1, r2 := CalCoreAsWritten(data, ds.exe, rate).value, CalCore(data, ds.exe, rate).value;
          assert Exes(r1) == ds.exe == Exes(r2);
          if rate >= 0.0 {
            CalCoreRelated(data, ds.exe, rate);
            KeepUndercharged(r1, r2, bgn);
          }
        }
      }
    }
  }

  /** `main` up to the NAV update, with the intended dates and turnover. */
  function Main(c: Calendar.Calendar, bgn: string, stp: string, shift: nat, store: seq<Signal>,
                rets: (string, string) -> seq<Return>, rate: real, navs: map<string, real>): (r: Result<Outcome>)
    ensures r.Ok? ==> GetDates(c, bgn, stp, shift).Ok?
    ensures r.Ok? ==> forall x :: x in r.value.net ==> !Less(x.date, bgn)
  {
    var ds :- GetDates(c, bgn, stp, shift);
    Run(c, bgn, ds, store, rets, rate, navs)
  }

  /** `main` as written: its dates, calendar steps and turnover. */
  function MainAsWritten(c: Calendar.Calendar, bgn: string, stp: string, shift: nat, store: seq<Signal>,
                         rets: (string, string) -> seq<Return>, rate: real, navs: map<string, real>): (r: Result<Outcome>)
    ensures r.Ok? ==> GetDatesAsWritten(c, bgn, stp, shift).Ok?
    ensures r.Ok? ==> forall x :: x in r.value.net ==> !Less(x.date, bgn)
  {
    var ds :- GetDatesAsWritten(c, bgn, stp, shift);
    RunAsWritten(c, bgn, ds, store, rets, rate, navs)
  }

  /** For a positive shift, wherever the calendar can step back far enough,
      the code as written succeeds exactly when the intended run does, and
      then differs from it only in charging no more cost. */
  lemma MainAgrees(c: Calendar.Calendar, bgn: string, stp: string, shift: nat, store: seq<Signal>,
                   rets: (string, string) -> seq<Return>, rate: real, navs: map<string, real>)
    requires shift >= 1 && Buffer(c, bgn, stp, shift).Ok?
    ensures MainAsWritten(c, bgn, stp, shift, store, rets, rate, navs).Ok? <==> Main(c, bgn, stp, shift, store, rets, rate, navs).Ok?
    ensures rate >= 0.0 && Main(c, bgn, stp, shift, store, rets, rate, navs).Ok? ==>
      Undercharged(MainAsWritten(c, bgn, stp, shift, store, rets, rate, navs).value.net,
                   Main(c, bgn, stp, shift, store, rets, rate, navs).value.net)
  {
    GetDatesAgree(c, bgn, stp, shift);
    RunAgrees(c, bgn, GetDates(c, bgn, stp, shift).value, store, rets, rate, navs);
  }

  /** With shift 0 the code as written always fails: either the calendar
      has no date before `bgn`, or `sig_dates[0]` raises IndexError. */
  lemma MainShiftZeroFails(c: Calendar.Calendar, bgn: string, stp: string, store: seq<Signal>,
                           rets: (string, string) -> seq<Return>, rate: real, navs: map<string, real>)
    ensures MainAsWritten(c, bgn, stp, 0, store, rets, rate, navs).Err?
  {
  }

  /** On a sorted calendar the execution dates are increasing, so the
      truncation in `recalibrate_dates` never raises. */
  lemma RecalibrateSorted(c: Calendar.Calendar, bgn: string, stp: string, shift: nat, rows: seq<CoreRow>)
    requires Calendar.Sorted(c) && GetDates(c, bgn, stp, shift).Ok?
    requires Exes(rows) == GetDates(c, bgn, stp, shift).value.exe
    ensures Recalibrate(rows, bgn).Ok?
  {
    ExeSorted(c, bgn, stp, shift);
    var s := Exes(rows);
    forall i | 0 < i < |s| ensures LessEq(s[i - 1], s[i]) {
      assert Less(s[i - 1], s[i]);
    }
  }
}
