/**
 * The portfolio and the daily loop of husfort/qsimulation.py (CPortfolio).
 * Each trade date is initialised, traded (toward the signal's targets on a
 * rebalance day, into the major contracts otherwise) at the close, marked
 * to the close, and the NAV is rolled forward with one snapshot per day.
 * Signals, major contracts and prices are lookups passed in as functions;
 * a NaN close is `None`.
 */
module SimLegacyRun {

  import opened Wrappers
  import opened Dicts
  import opened InstrumentsBuild
  import opened SimLegacy
  import Numeric
  import Calendar
  import PyStr

  /* ------------------------------------------------------------ portfolio */

  /** One row of `save_nav_snapshots`. */
  datatype Snapshot = Snapshot(
    tradeDate: string, dailyRealized: real, cumRealized: real, unrealized: real, nav: real, navps: real)

  datatype Portfolio = Portfolio(
    initCash: real, costReservation: real, costRate: real,
    dailyRealized: real, cumRealized: real, unrealized: real, nav: real,
    book: Book, updateDate: string, records: seq<Record>, snapshots: seq<Snapshot>)

  /** The NAV identity the portfolio keeps after every `update_nav`. */
  predicate Balanced(p: Portfolio) {
    p.nav == p.initCash + p.cumRealized + p.unrealized
  }

  /** `CPortfolio(...)`: no positions, nothing realized, NAV equal to the
      initial cash. */
  function NewPortfolio(initCash: real, costReservation: real, costRate: real): (p: Portfolio)
    ensures p.nav == initCash && p.initCash == initCash
    ensures p.book == [] && p.snapshots == [] && p.cumRealized == 0.0
    ensures Balanced(p)
  {
    Portfolio(initCash, costReservation, costRate, 0.0, 0.0, 0.0, initCash, [], "", [], [])
  }

  /** `initialize_daily(trade_date)`: a new date with no trade records and
      no realized profit yet; everything else is kept. */
  function InitializeDaily(p: Portfolio, date: string): (q: Portfolio)
    ensures q.updateDate == date && q.records == [] && q.dailyRealized == 0.0
    ensures q.book == p.book && q.cumRealized == p.cumRealized && q.unrealized == p.unrealized
    ensures q.nav == p.nav && q.snapshots == p.snapshots && q.initCash == p.initCash
    ensures q.costRate == p.costRate && q.costReservation == p.costReservation
  {
    p.(updateDate := date, records := [], dailyRealized := 0.0)
  }

  /** The realized profit net of costs of some trade records. */
  function NetOf(records: seq<Record>): real
    decreases |records|
  {
    if |records| == 0 then 0.0 else (records[0].realized - records[0].cost) + NetOf(records[1..])
  }

  /** `Σ realized_pnl - Σ cost` taken column by column, as the data frame
      does it. */
  function ColumnSum(records: seq<Record>, realized: bool): real
    decreases |records|
  {
    if |records| == 0 then 0.0
    else (if realized then records[0].realized else records[0].cost) + ColumnSum(records[1..], realized)
  }

  lemma {:induction false} ColumnsNet(records: seq<Record>)
    ensures ColumnSum(records, true) - ColumnSum(records, false) == NetOf(records)
    decreases |records|
  {
    if |records| > 0 {
      ColumnsNet(records[1..]);
    }
  }

  /** `update_realized_pnl()`: with trade records the day's realized profit
      is their realized profit minus their cost (otherwise it stays as
      initialised); the cumulative total takes the day's. */
  function UpdateRealizedPnl(p: Portfolio): (q: Portfolio)
    ensures |p.records| > 0 ==> q.dailyRealized == NetOf(p.records)
    ensures |p.records| == 0 ==> q.dailyRealized == p.dailyRealized
    ensures q.cumRealized == p.cumRealized + q.dailyRealized
    ensures q.book == p.book && q.records == p.records && q.snapshots == p.snapshots
    ensures q.initCash == p.initCash && q.unrealized == p.unrealized && q.updateDate == p.updateDate
    ensures q.costRate == p.costRate && q.costReservation == p.costReservation
  {
    var daily := if |p.records| > 0 then ColumnSum(p.records, true) - ColumnSum(p.records, false) else p.dailyRealized;
    ColumnsNet(p.records);
    p.(dailyRealized := daily, cumRealized := p.cumRealized + daily)
  }

  /** `update_nav()`. */
  function UpdateNav(p: Portfolio): (q: Portfolio)
    ensures Balanced(q)
    ensures q == p.(nav := q.nav)
  {
    p.(nav := p.initCash + p.cumRealized + p.unrealized)
  }

  /** `save_nav_snapshots()`: one row per day; the NAV per share divides by
      the initial cash, which raises on a zero initial cash. */
  function SaveNavSnapshot(p: Portfolio): (r: Result<Portfolio>)
    ensures r.Err? <==> p.initCash == 0.0
    ensures r.Err? ==> r.error == ZeroDivisionError
    ensures r.Ok? ==> r.value == p.(snapshots := r.value.snapshots)
    ensures r.Ok? ==> |r.value.snapshots| == |p.snapshots| + 1 && r.value.snapshots[..|p.snapshots|] == p.snapshots
    ensures r.Ok? ==> var s := r.value.snapshots[|p.snapshots|];
      s.tradeDate == p.updateDate && s.dailyRealized == p.dailyRealized && s.cumRealized == p.cumRealized &&
      s.unrealized == p.unrealized && s.nav == p.nav && s.navps * p.initCash == p.nav
  {
    if p.initCash == 0.0 then Err(ZeroDivisionError)
    else
      var s := Snapshot(p.updateDate, p.dailyRealized, p.cumRealized, p.unrealized, p.nav, p.nav / p.initCash);
      var ss := p.snapshots + [s];
      assert ss[..|p.snapshots|] == p.snapshots;
      Ok(p.(snapshots := ss))
  }

  /* ------------------------------------------------------------ scheduling */

  /** `(ti - start_delay) % hold_period_n == 0`, with Python's remainder; a
      zero holding period raises ZeroDivisionError. */
  function IsRebalanceDay(ti: int, startDelay: int, hold: int): (r: Result<bool>)
    ensures r.Err? <==> hold == 0
    ensures r.Err? ==> r.error == ZeroDivisionError
    ensures r.Ok? ==> (r.value <==> (ti - startDelay) % hold == 0)
  {
    if hold == 0 then Err(ZeroDivisionError)
    else
      var m := Numeric.FloorMod(ti - startDelay, hold);
      Numeric.FloorModZero(ti - startDelay, hold);
      Ok(m == 0)
  }

  /** Rebalance days recur every `hold_period_n` dates. */
  lemma RebalancePeriodic(ti: int, startDelay: int, hold: int)
    requires hold != 0
    ensures IsRebalanceDay(ti + hold, startDelay, hold) == IsRebalanceDay(ti, startDelay, hold)
  {
    Numeric.ModPeriodic(ti - startDelay, hold);
    assert ti + hold - startDelay == (ti - startDelay) + hold;
  }

  /** The first date the loop reaches at its start delay is a rebalance
      day. */
  lemma RebalanceAtDelay(startDelay: int, hold: int)
    requires hold != 0
    ensures IsRebalanceDay(startDelay, startDelay, hold) == Ok(true)
  {
  }

  /* ------------------------------------------------------------- the day */

  /** The lookups behind the loop: the trade calendar, the signal header
      of a signal date (`cal_position_header`), the major contract of an
      instrument at a date, and the close of a contract of an instrument at
      a date (`None` for NaN). */
  datatype Env = Env(
    calendar: Calendar.Calendar,
    rows: string -> seq<Row>,
    major: (string, string) -> string,
    close: (string, string, string) -> Option<real>)

  /** The trades' executed prices set to the day's close; a NaN close
      would carry NaN into the cost and the NAV, so it is an error here. */
  function PriceTrades(trades: seq<Trade>, close: (string, string) -> Option<real>): (r: Result<seq<Trade>>)
    ensures r.Ok? <==> forall i :: 0 <= i < |trades| ==> Priced(trades[i], close)
    ensures r.Err? ==> r.error == NonFinite
    ensures r.Ok? ==> SamePlan(trades, r.value)
    ensures r.Ok? ==> forall i :: 0 <= i < |trades| ==>
      r.value[i].exePrice == close(trades[i].key.contract.contract, trades[i].key.contract.instrument).value
    decreases |trades|
  {
    if |trades| == 0 then Ok([])
    else
      var t := trades[0];
      var c := close(t.key.contract.contract, t.key.contract.instrument);
      if c.None? then Err(NonFinite)
      else
        var rest :- PriceTrades(trades[1..], close);
        var r := [t.(exePrice := c.value)] + rest;
        assert forall i :: 0 < i < |trades| ==> trades[i] == trades[1..][i - 1] && r[i] == rest[i - 1];
        Ok(r)
  }

  /** Whether a trade's close is a number. */
  predicate Priced(t: Trade, close: (string, string) -> Option<real>) {
    close(t.key.contract.contract, t.key.contract.instrument).Some?
  }

  /** The major contract lookup at one date. */
  function MajorAt(env: Env, date: string): string -> string {
    (instrument: string) => env.major(instrument, date)
  }

  /** The close lookup at one date. */
  function CloseAt(env: Env, date: string): (string, string) -> Option<real> {
    (contract: string, instrument: string) => env.close(contract, instrument, date)
  }

  /** The day's unpriced trades: toward the targets of the previous trade
      date's signal on a rebalance day, into the major contracts on any
      other day. */
  function PlanOf(env: Env, p: Portfolio, date: string, sigDate: string, rebalance: bool): (r: Result<seq<Trade>>)
    ensures rebalance ==> r == (var t := CalTargetPosition(p.nav, p.costReservation, env.rows(sigDate));
      if t.Ok? then Ok(CalTradesForSignal(p.book, t.value)) else Err(t.error))
    ensures !rebalance ==> r == Ok(CalTradesForMajor(p.book, MajorAt(env, date)))
  {
    if rebalance then
      var targets :- CalTargetPosition(p.nav, p.costReservation, env.rows(sigDate));
      Ok(CalTradesForSignal(p.book, targets))
    else Ok(CalTradesForMajor(p.book, MajorAt(env, date)))
  }

  /** The book after the day's trades, before marking. It needs a trade
      date with a predecessor to read the signal of, and a holding period
      to divide by; no empty position is left in it. */
  function Traded(env: Env, p: Portfolio, ti: int, date: string, startDelay: int, hold: int): (r: Result<Applied>)
    ensures date !in env.calendar.dates ==> r == Err(ValueError)
    ensures r.Ok? ==> Calendar.GetNextDate(env.calendar, date, -1).Ok? && hold != 0
    ensures Calendar.GetNextDate(env.calendar, date, -1).Ok? && hold == 0 ==> r == Err(ZeroDivisionError)
    ensures r.Ok? ==> forall e :: e in r.value.book ==> e.1.qty != 0
  {
    var sigDate :- Calendar.GetNextDate(env.calendar, date, -1);
    var rebalance :- IsRebalanceDay(ti, startDelay, hold);
    var plan :- PlanOf(env, p, date, sigDate, rebalance);
    var trades :- PriceTrades(plan, CloseAt(env, date));
    UpdateFromTrades(p.book, trades, p.costRate)
  }

  /** The book after the day's trades as the code is written: the signal
      date comes from `get_next_date` as written, so on the calendar's
      first trade date it is the last one, and the prune raises
      RuntimeError once any position is empty. */
  function TradedAsWritten(env: Env, p: Portfolio, ti: int, date: string, startDelay: int, hold: int): (r: Result<Applied>)
    ensures date !in env.calendar.dates ==> r == Err(ValueError)
    ensures r.Ok? ==> forall e :: e in r.value.book ==> e.1.qty != 0
  {
    var sigDate :- Calendar.GetNextDateAsWritten(env.calendar, date, -1);
    var rebalance :- IsRebalanceDay(ti, startDelay, hold);
    var plan :- PlanOf(env, p, date, sigDate, rebalance);
    var trades :- PriceTrades(plan, CloseAt(env, date));
    UpdateFromTradesAsWritten(p.book, trades, p.costRate)
  }

  /** The rest of a day once the trades are applied: realized profit, the
      book marked at the close, the NAV and the snapshot. */
  function Settle(env: Env, p: Portfolio, date: string, a: Applied): (r: Result<Portfolio>)
    ensures r.Err? <==> p.initCash == 0.0
    ensures r.Err? ==> r.error == ZeroDivisionError
    ensures r.Ok? ==> r.value.initCash == p.initCash && r.value.costRate == p.costRate
    ensures r.Ok? ==> r.value.costReservation == p.costReservation
    ensures r.Ok? ==> Balanced(r.value) && r.value.records == a.records
    ensures r.Ok? ==> r.value.cumRealized == p.cumRealized + NetOf(a.records)
    ensures r.Ok? ==> r.value.unrealized == TotalUnrealizedOf(r.value.book)
    ensures r.Ok? ==> r.value.book == UpdateUnrealizedPnl(a.book, CloseAt(env, date)).book
    ensures r.Ok? && (forall e :: e in a.book ==> e.1.qty != 0) ==> forall e :: e in r.value.book ==> e.1.qty != 0
    ensures r.Ok? ==> |r.value.snapshots| == |p.snapshots| + 1 && r.value.snapshots[..|p.snapshots|] == p.snapshots
    ensures r.Ok? ==> var s := r.value.snapshots[|p.snapshots|];
      s.tradeDate == date && s.dailyRealized == NetOf(a.records) &&
      s.cumRealized == r.value.cumRealized && s.unrealized == r.value.unrealized && s.nav == r.value.nav
  {
    var p1 := InitializeDaily(p, date).(book := a.book, records := a.records);
    var p2 := UpdateRealizedPnl(p1);
    assert p2.dailyRealized == NetOf(a.records);
    var m := UpdateUnrealizedPnl(p2.book, CloseAt(env, date));
    MarkedNonEmpty(p2.book, CloseAt(env, date));
    var p3 := UpdateNav(p2.(book := m.book, unrealized := m.unrealized));
    SaveNavSnapshot(p3)
  }

  /** One iteration of `main_loop` at position `ti` of the date list: the
      signal date is the previous trade date, trades are priced at the
      close and applied, then realized and unrealized profit and the NAV
      are updated and a snapshot is taken. */
  function Day(env: Env, p: Portfolio, ti: int, date: string, startDelay: int, hold: int): (r: Result<Portfolio>)
    ensures r.Ok? ==> r.value.initCash == p.initCash && r.value.costRate == p.costRate
    ensures r.Ok? ==> r.value.costReservation == p.costReservation
    ensures r.Ok? ==> Balanced(r.value)
    ensures r.Ok? ==> r.value.cumRealized == p.cumRealized + NetOf(r.value.records)
    ensures r.Ok? ==> r.value.unrealized == TotalUnrealizedOf(r.value.book)
    ensures r.Ok? ==> forall e :: e in r.value.book ==> e.1.qty != 0
    ensures r.Ok? ==> |r.value.snapshots| == |p.snapshots| + 1 && r.value.snapshots[..|p.snapshots|] == p.snapshots
    ensures r.Ok? ==> var s := r.value.snapshots[|p.snapshots|];
      s.tradeDate == date && s.dailyRealized == NetOf(r.value.records) &&
      s.cumRealized == r.value.cumRealized && s.unrealized == r.value.unrealized && s.nav == r.value.nav
  {
    var a :- Traded(env, InitializeDaily(p, date), ti, date, startDelay, hold);
    Settle(env, p, date, a)
  }

  /** One iteration of `main_loop` as the code is written. */
  function DayAsWritten(env: Env, p: Portfolio, ti: int, date: string, startDelay: int, hold: int): (r: Result<Portfolio>)
    ensures date !in env.calendar.dates ==> r == Err(ValueError)
    ensures r.Ok? ==> r.value.initCash == p.initCash && Balanced(r.value)
    ensures r.Ok? ==> forall e :: e in r.value.book ==> e.1.qty != 0
    ensures r.Ok? ==> |r.value.snapshots| == |p.snapshots| + 1 && r.value.snapshots[..|p.snapshots|] == p.snapshots
  {
    var a :- TradedAsWritten(env, InitializeDaily(p, date), ti, date, startDelay, hold);
    Settle(env, p, date, a)
  }

  /** Wherever the trade date has a trade date before it, the written day
      fails exactly as the intended one does, agrees with it when it
      completes, and otherwise raises RuntimeError from the prune. */
  lemma TradedAgrees(env: Env, p: Portfolio, ti: int, date: string, startDelay: int, hold: int)
    requires Calendar.GetNextDate(env.calendar, date, -1).Ok?
    ensures var w := TradedAsWritten(env, p, ti, date, startDelay, hold);
      var u := Traded(env, p, ti, date, startDelay, hold);
      (u.Err? ==> w == u) && (w.Ok? ==> w == u) && (u.Ok? && w.Err? ==> w.error == RuntimeError)
  {
    Calendar.GetNextDateAgrees(env.calendar, date, -1);
    var sigDate := Calendar.GetNextDate(env.calendar, date, -1).value;
    var rebalance := IsRebalanceDay(ti, startDelay, hold);
    if rebalance.Ok? {
      var plan := PlanOf(env, p, date, sigDate, rebalance.value);
      if plan.Ok? {
        var trades := PriceTrades(plan.value, CloseAt(env, date));
        if trades.Ok? {
          UpdateFromTradesAgrees(p.book, trades.value, p.costRate);
        }
      }
    }
  }

  /** The same for the whole day: a completed written day is the
      intended one, and where the two differ the written one raised
      RuntimeError. */
  lemma DayAgrees(env: Env, p: Portfolio, ti: int, date: string, startDelay: int, hold: int)
    requires Calendar.GetNextDate(env.calendar, date, -1).Ok?
    ensures var w := DayAsWritten(env, p, ti, date, startDelay, hold);
      var u := Day(env, p, ti, date, startDelay, hold);
      (w.Ok? ==> w == u) && (w != u ==> w == Err(RuntimeError))
  {
    var p0 := InitializeDaily(p, date);
    TradedAgrees(env, p0, ti, date, startDelay, hold);
    var tw := TradedAsWritten(env, p0, ti, date, startDelay, hold);
    var tu := Traded(env, p0, ti, date, startDelay, hold);
    SettleAfterAgrees(env, p, date, tw, tu);
  }

  /** Settling two trade outcomes related as `TradedAgrees` states keeps
      them so related. */
  lemma SettleAfterAgrees(env: Env, p: Portfolio, date: string, tw: Result<Applied>, tu: Result<Applied>)
    requires (tu.Err? ==> tw == tu) && (tw.Ok? ==> tw == tu) && (tu.Ok? && tw.Err? ==> tw.error == RuntimeError)
    ensures var w := (var a :- tw; Settle(env, p, date, a));
      var u := (var a :- tu; Settle(env, p, date, a));
      (w.Ok? ==> w == u) && (w != u ==> w == Err(RuntimeError))
  {
  }

  /** Marking keeps every position's quantity. */
  lemma MarkedNonEmpty(book: Book, close: (string, string) -> Option<real>)
    ensures (forall e :: e in book ==> e.1.qty != 0) ==>
      forall e :: e in UpdateUnrealizedPnl(book, close).book ==> e.1.qty != 0
  {
    var r := UpdateUnrealizedPnl(book, close).book;
    if forall e :: e in book ==> e.1.qty != 0 {
      forall e | e in r ensures e.1.qty != 0 {
        var i :| 0 <= i < |r| && r[i] == e;
        assert book[i] in book;
      }
    }
  }

  /** Marking keeps every key's quantity. */
  lemma {:induction false} MarkedQty(book: Book, close: (string, string) -> Option<real>, k: PosKey)
    ensures QtyOf(UpdateUnrealizedPnl(book, close).book, k) == QtyOf(book, k)
    ensures Has(UpdateUnrealizedPnl(book, close).book, k) <==> Has(book, k)
    decreases |book|
  {
    var r := UpdateUnrealizedPnl(book, close).book;
    if |book| > 0 {
      MarkedQty(book[1..], close, k);
      var rest := UpdateUnrealizedPnl(book[1..], close).book;
      assert r[1..] == rest;
      assert Keys(r) == [r[0].0] + Keys(rest);
      assert Keys(book) == [book[0].0] + Keys(book[1..]);
    }
  }

  /* ------------------------------------------------------------ the loop */

  /** The loop of `main_loop` from position `ti` of the date list on. */
  function Loop(env: Env, p: Portfolio, dates: seq<string>, ti: int, startDelay: int, hold: int): (r: Result<Portfolio>)
    ensures r.Ok? ==> r.value.initCash == p.initCash
    ensures r.Ok? ==> |r.value.snapshots| == |p.snapshots| + |dates|
    ensures r.Ok? ==> r.value.snapshots[..|p.snapshots|] == p.snapshots
    decreases |dates|
  {
    if |dates| == 0 then Ok(p)
    else
      var q :- Day(env, p, ti, dates[0], startDelay, hold);
      var r :- Loop(env, q, dates[1..], ti + 1, startDelay, hold);
      assert r.snapshots[..|p.snapshots|] == q.snapshots[..|q.snapshots|][..|p.snapshots|];
      Ok(r)
  }

  /** `main_loop(bgn, stp, start_delay, hold_period_n, ...)` up to saving:
      the dates of the calendar in [bgn, stp), numbered from 0. */
  function MainLoop(env: Env, p: Portfolio, bgn: string, stp: string, startDelay: int, hold: int): (r: Result<Portfolio>)
    ensures r.Ok? ==> |r.value.snapshots| == |p.snapshots| + |Calendar.IterList(env.calendar, bgn, stp, true)|
  {
    Loop(env, p, Calendar.IterList(env.calendar, bgn, stp, true), 0, startDelay, hold)
  }

  /** The loop of `main_loop` as the code is written. */
  function LoopAsWritten(env: Env, p: Portfolio, dates: seq<string>, ti: int, startDelay: int, hold: int): (r: Result<Portfolio>)
    ensures r.Ok? ==> r.value.initCash == p.initCash
    ensures r.Ok? ==> |r.value.snapshots| == |p.snapshots| + |dates|
    decreases |dates|
  {
    if |dates| == 0 then Ok(p)
    else
      var q :- DayAsWritten(env, p, ti, dates[0], startDelay, hold);
      LoopAsWritten(env, q, dates[1..], ti + 1, startDelay, hold)
  }

  /** `main_loop(...)` as the code is written. */
  function MainLoopAsWritten(env: Env, p: Portfolio, bgn: string, stp: string, startDelay: int, hold: int): (r: Result<Portfolio>)
    ensures r.Ok? ==> |r.value.snapshots| == |p.snapshots| + |Calendar.IterList(env.calendar, bgn, stp, true)|
  {
    LoopAsWritten(env, p, Calendar.IterList(env.calendar, bgn, stp, true), 0, startDelay, hold)
  }

  /** Over dates that each have a trade date before them, a completed
      written loop is the intended one, and where the two differ the
      written one raised RuntimeError. */
  lemma {:induction false} LoopAgrees(env: Env, p: Portfolio, dates: seq<string>, ti: int, startDelay: int, hold: int)
    requires forall i :: 0 <= i < |dates| ==> Calendar.GetNextDate(env.calendar, dates[i], -1).Ok?
    ensures var w := LoopAsWritten(env, p, dates, ti, startDelay, hold);
      var u := Loop(env, p, dates, ti, startDelay, hold);
      (w.Ok? ==> w == u) && (w != u ==> w == Err(RuntimeError))
    decreases |dates|
  {
    if |dates| > 0 {
      DayAgrees(env, p, ti, dates[0], startDelay, hold);
      var dw := DayAsWritten(env, p, ti, dates[0], startDelay, hold);
      if dw.Ok? {
        assert forall i :: 0 <= i < |dates| - 1 ==> dates[1..][i] == dates[i + 1];
        LoopAgrees(env, dw.value, dates[1..], ti + 1, startDelay, hold);
      }
    }
  }

  /** When some trade date precedes `bgn` on a sorted calendar, the written
      main loop agrees with the intended one up to the prune's
      RuntimeError: no date of the window is the calendar's first. */
  lemma MainLoopAgrees(env: Env, p: Portfolio, bgn: string, stp: string, startDelay: int, hold: int)
    requires Calendar.Sorted(env.calendar) && |env.calendar.dates| > 0
    requires PyStr.Less(env.calendar.dates[0], bgn)
    ensures var w := MainLoopAsWritten(env, p, bgn, stp, startDelay, hold);
      var u := MainLoop(env, p, bgn, stp, startDelay, hold);
      (w.Ok? ==> w == u) && (w != u ==> w == Err(RuntimeError))
  {
    var c := env.calendar;
    var dates := Calendar.IterList(c, bgn, stp, true);
    forall i | 0 <= i < |dates| ensures Calendar.GetNextDate(c, dates[i], -1).Ok? {
      WindowDateHasPredecessor(c, bgn, stp, dates[i]);
    }
    LoopAgrees(env, p, dates, 0, startDelay, hold);
  }

  /** A window date after the first trade date is not at position 0. */
  lemma WindowDateHasPredecessor(c: Calendar.Calendar, bgn: string, stp: string, x: string)
    requires Calendar.Sorted(c) && |c.dates| > 0 && PyStr.Less(c.dates[0], bgn)
    requires x in Calendar.Window(c.dates, bgn, stp)
    ensures Calendar.GetNextDate(c, x, -1).Ok?
  {
    Calendar.WindowMembers(c.dates, bgn, stp, x);
    if x == c.dates[0] {
      PyStr.LessIrreflexive(x);
      PyStr.LessAsymmetric(x, bgn);
    }
  }

  /* --------------------------------------------------------- the ledger */

  /** The sum of the days' realized profit over some snapshots. */
  function DailySum(ss: seq<Snapshot>): real
    decreases |ss|
  {
    if |ss| == 0 then 0.0 else DailySum(ss[..|ss| - 1]) + ss[|ss| - 1].dailyRealized
  }

  /** Snapshot `i` carries the running sum of daily realized profit, and
      its NAV is the initial cash plus that sum plus its unrealized
      profit. */
  predicate Chained(ss: seq<Snapshot>, initCash: real, i: int)
    requires 0 <= i < |ss|
  {
    ss[i].cumRealized == DailySum(ss[..i + 1]) &&
    ss[i].nav == initCash + ss[i].cumRealized + ss[i].unrealized
  }

  /** The portfolio invariant of the loop: the cumulative realized profit
      is the sum of the days', the NAV balances, and every snapshot does. */
  predicate Ledger(p: Portfolio) {
    p.cumRealized == DailySum(p.snapshots) && Balanced(p) &&
    forall i :: 0 <= i < |p.snapshots| ==> Chained(p.snapshots, p.initCash, i)
  }

  lemma NewPortfolioLedger(initCash: real, costReservation: real, costRate: real)
    ensures Ledger(NewPortfolio(initCash, costReservation, costRate))
  {
  }

  /** A day keeps the ledger. */
  lemma DayLedger(env: Env, p: Portfolio, ti: int, date: string, startDelay: int, hold: int)
    requires Ledger(p)
    ensures var r := Day(env, p, ti, date, startDelay, hold); r.Ok? ==> Ledger(r.value)
  {
    var r := Day(env, p, ti, date, startDelay, hold);
    if r.Ok? {
      var q := r.value;
      var ss := q.snapshots;
      var n := |p.snapshots|;
      assert ss[..n] == p.snapshots;
      assert ss[..n + 1] == ss;
      assert DailySum(ss) == DailySum(p.snapshots) + ss[n].dailyRealized;
      forall i | 0 <= i < n + 1 ensures Chained(ss, q.initCash, i) {
        if i < n {
          assert Chained(p.snapshots, p.initCash, i);
          assert ss[..i + 1] == p.snapshots[..i + 1];
        }
      }
    }
  }

  /** The loop keeps the ledger: in particular the final NAV is the
      initial cash plus the sum of every day's realized profit net of
      costs plus the last unrealized profit. */
  lemma {:induction false} LoopLedger(env: Env, p: Portfolio, dates: seq<string>, ti: int, startDelay: int, hold: int)
    requires Ledger(p)
    ensures var r := Loop(env, p, dates, ti, startDelay, hold);
      r.Ok? ==> (Ledger(r.value) &&
        r.value.nav == r.value.initCash + DailySum(r.value.snapshots) + r.value.unrealized)
    decreases |dates|
  {
    if |dates| > 0 {
      DayLedger(env, p, ti, dates[0], startDelay, hold);
      var q := Day(env, p, ti, dates[0], startDelay, hold);
      if q.Ok? {
        LoopLedger(env, q.value, dates[1..], ti + 1, startDelay, hold);
      }
    }
  }

  /* ------------------------------------------------------ what a day does */

  /** On a rebalance day that completes, the book holds exactly the targets
      computed from the previous trade date's signal, at their quantities. */
  lemma RebalanceDayReachesTarget(env: Env, p: Portfolio, ti: int, date: string, startDelay: int, hold: int, k: PosKey)
    requires Valid(p.book) && KeyedBy(p.book)
    requires IsRebalanceDay(ti, startDelay, hold) == Ok(true)
    requires Day(env, p, ti, date, startDelay, hold).Ok?
    ensures var sigDate := Calendar.GetNextDate(env.calendar, date, -1).value;
      var targets := CalTargetPosition(p.nav, p.costReservation, env.rows(sigDate)).value;
      var q := Day(env, p, ti, date, startDelay, hold).value;
      QtyOf(q.book, k) == TargetQty(targets, k) && (Has(q.book, k) <==> Has(targets, k))
  {
    var p0 := InitializeDaily(p, date);
    var sigDate := Calendar.GetNextDate(env.calendar, date, -1).value;
    var targets := CalTargetPosition(p.nav, p.costReservation, env.rows(sigDate)).value;
    var plan := CalTradesForSignal(p.book, targets);
    assert PlanOf(env, p0, date, sigDate, true) == Ok(plan);
    var trades := PriceTrades(plan, CloseAt(env, date)).value;
    SignalTradesPlan(targets, p.book, k);
    SamePlanShift(plan, trades, k);
    assert DistinctKeys(trades) by {
      forall i, j | 0 <= i < j < |trades| ensures trades[i].key != trades[j].key {
        assert plan[i].key != plan[j].key;
      }
    }
    forall i | 0 <= i < |trades| ensures Applicable(QtyOf(p.book, trades[i].key), trades[i]) {
      assert Applicable(QtyOf(p.book, plan[i].key), plan[i]);
    }
    PlanReachesTarget(targets, p.book, trades, p.costRate, k);
    var a := UpdateFromTrades(p.book, trades, p.costRate).value;
    MarkedQty(a.book, CloseAt(env, date), k);
  }

  /** On any other day that completes, every position whose contract is no
      longer the major one is gone, and every other key holds what it held
      plus what was rolled into it. */
  lemma OtherDayRolls(env: Env, p: Portfolio, ti: int, date: string, startDelay: int, hold: int, k: PosKey)
    requires Valid(p.book) && KeyedBy(p.book)
    requires IsRebalanceDay(ti, startDelay, hold) == Ok(false)
    requires Day(env, p, ti, date, startDelay, hold).Ok?
    ensures var q := Day(env, p, ti, date, startDelay, hold).value;
      var major := MajorAt(env, date);
      QtyOf(q.book, k) == if Rolls(k, major) then 0 else QtyOf(p.book, k) + Inflow(p.book, major, k)
  {
    var p0 := InitializeDaily(p, date);
    DayBook(env, p, ti, date, startDelay, hold);
    var trades := TradedOnOtherDay(env, p0, ti, date, startDelay, hold);
    RolledQty(p.book, trades, p.costRate, MajorAt(env, date), CloseAt(env, date), k);
  }

  /** As written, a completed rebalance day that closes a position the
      new targets no longer hold raises RuntimeError in the prune. */
  lemma RebalanceCloseCrashesAsWritten(env: Env, p: Portfolio, ti: int, date: string, startDelay: int, hold: int, k: PosKey)
    requires Valid(p.book) && KeyedBy(p.book) && Has(p.book, k)
    requires IsRebalanceDay(ti, startDelay, hold) == Ok(true)
    requires Day(env, p, ti, date, startDelay, hold).Ok?
    requires var sigDate := Calendar.GetNextDate(env.calendar, date, -1).value;
      !Has(CalTargetPosition(p.nav, p.costReservation, env.rows(sigDate)).value, k)
    ensures DayAsWritten(env, p, ti, date, startDelay, hold) == Err(RuntimeError)
  {
    var p0 := InitializeDaily(p, date);
    var sigDate := Calendar.GetNextDate(env.calendar, date, -1).value;
    var targets := CalTargetPosition(p.nav, p.costReservation, env.rows(sigDate)).value;
    var plan := CalTradesForSignal(p.book, targets);
    assert PlanOf(env, p0, date, sigDate, true) == Ok(plan);
    var trades := PriceTrades(plan, CloseAt(env, date)).value;
    SignalTradesPlan(targets, p.book, k);
    SamePlanShift(plan, trades, k);
    EmptiedCrashes(env, p, ti, date, startDelay, hold, trades, k);
  }

  /** As written, a completed day that is no rebalance day and rolls a
      position off a contract that is no longer the major one raises
      RuntimeError in the prune. */
  lemma RolloverCrashesAsWritten(env: Env, p: Portfolio, ti: int, date: string, startDelay: int, hold: int, k: PosKey)
    requires Valid(p.book) && KeyedBy(p.book) && Has(p.book, k)
    requires IsRebalanceDay(ti, startDelay, hold) == Ok(false)
    requires Day(env, p, ti, date, startDelay, hold).Ok?
    requires Rolls(k, MajorAt(env, date))
    ensures DayAsWritten(env, p, ti, date, startDelay, hold) == Err(RuntimeError)
  {
    var p0 := InitializeDaily(p, date);
    var major := MajorAt(env, date);
    var sigDate := Calendar.GetNextDate(env.calendar, date, -1).value;
    var plan := CalTradesForMajor(p.book, major);
    assert PlanOf(env, p0, date, sigDate, false) == Ok(plan);
    var trades := PriceTrades(plan, CloseAt(env, date)).value;
    RolloverShift(p.book, major, k);
    InflowRolled(p.book, major, k);
    SamePlanShift(plan, trades, k);
    EmptiedCrashes(env, p, ti, date, startDelay, hold, trades, k);
  }

  /** A day whose priced trades leave a held key at quantity 0 fails as
      written with RuntimeError. */
  lemma EmptiedCrashes(env: Env, p: Portfolio, ti: int, date: string, startDelay: int, hold: int, trades: seq<Trade>, k: PosKey)
    requires Day(env, p, ti, date, startDelay, hold).Ok? && Has(p.book, k)
    requires var p0 := InitializeDaily(p, date);
      var sigDate := Calendar.GetNextDate(env.calendar, date, -1).value;
      var rebalance := IsRebalanceDay(ti, startDelay, hold).value;
      PriceTrades(PlanOf(env, p0, date, sigDate, rebalance).value, CloseAt(env, date)) == Ok(trades)
    requires QtyOf(p.book, k) + Shift(trades, k) == 0
    ensures DayAsWritten(env, p, ti, date, startDelay, hold) == Err(RuntimeError)
  {
    var p0 := InitializeDaily(p, date);
    Calendar.GetNextDateAgrees(env.calendar, date, -1);
    ApplyTradesQty(p.book, trades, p.costRate, k);
    EmptiedCrashesAsWritten(p.book, trades, p.costRate, k);
    assert TradedAsWritten(env, p0, ti, date, startDelay, hold) == Err(RuntimeError);
  }

  /** The priced rollover plan applied, pruned and marked: rolled keys are
      emptied, the others gain what is rolled into them. */
  lemma RolledQty(book: Book, trades: seq<Trade>, rate: real, major: string -> string,
                  close: (string, string) -> Option<real>, k: PosKey)
    requires Valid(book) && KeyedBy(book)
    requires SamePlan(CalTradesForMajor(book, major), trades)
    requires ApplyTrades(book, trades, rate).Ok?
    ensures QtyOf(UpdateUnrealizedPnl(Prune(ApplyTrades(book, trades, rate).value.book), close).book, k) ==
      if Rolls(k, major) then 0 else QtyOf(book, k) + Inflow(book, major, k)
  {
    var applied := ApplyTrades(book, trades, rate).value.book;
    var s := Shift(trades, k);
    assert s == (if Has(book, k) && Rolls(k, major) then -QtyOf(book, k) else 0) + Inflow(book, major, k) by {
      RolloverShift(book, major, k);
      SamePlanShift(CalTradesForMajor(book, major), trades, k);
    }
    assert Rolls(k, major) ==> Inflow(book, major, k) == 0 by {
      if Rolls(k, major) {
        InflowRolled(book, major, k);
      }
    }
    assert QtyOf(applied, k) == QtyOf(book, k) + s by {
      ApplyTradesQty(book, trades, rate, k);
    }
    assert QtyOf(UpdateUnrealizedPnl(Prune(applied), close).book, k) == QtyOf(applied, k) by {
      PruneKeeps(applied, k);
      MarkedQty(Prune(applied), close, k);
    }
  }

  /** A completed day's book is the traded book, marked at the close. */
  lemma DayBook(env: Env, p: Portfolio, ti: int, date: string, startDelay: int, hold: int)
    requires Day(env, p, ti, date, startDelay, hold).Ok?
    ensures Traded(env, InitializeDaily(p, date), ti, date, startDelay, hold).Ok?
    ensures Day(env, p, ti, date, startDelay, hold).value.book ==
      UpdateUnrealizedPnl(Traded(env, InitializeDaily(p, date), ti, date, startDelay, hold).value.book, CloseAt(env, date)).book
  {
  }

  /** On a day that is no rebalance day the traded book is the priced
      rollover plan applied and pruned. */
  lemma TradedOnOtherDay(env: Env, p: Portfolio, ti: int, date: string, startDelay: int, hold: int) returns (trades: seq<Trade>)
    requires IsRebalanceDay(ti, startDelay, hold) == Ok(false)
    requires Traded(env, p, ti, date, startDelay, hold).Ok?
    ensures SamePlan(CalTradesForMajor(p.book, MajorAt(env, date)), trades)
    ensures ApplyTrades(p.book, trades, p.costRate).Ok?
    ensures Traded(env, p, ti, date, startDelay, hold).value.book == Prune(ApplyTrades(p.book, trades, p.costRate).value.book)
  {
    var sigDate := Calendar.GetNextDate(env.calendar, date, -1).value;
    var plan := CalTradesForMajor(p.book, MajorAt(env, date));
    assert PlanOf(env, p, date, sigDate, false) == Ok(plan);
    trades := PriceTrades(plan, CloseAt(env, date)).value;
  }
}
