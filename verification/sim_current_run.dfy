/**
 * The account and the daily loop of src/husfort/qsimulation.py (CAccount
 * and CSimulation): signal weights become target positions, the book is
 * traded toward them at the execution price, marked to the close, and the
 * account's NAV is rolled forward with one snapshot per day. Signals,
 * multipliers, major contracts and market data are lookups passed in as
 * functions; the signal table keeps its KeyError for a missing date.
 */
module SimCurrentRun {

  import opened Wrappers
  import opened Dicts
  import Numeric
  import Calendar
  import PySeq
  import PyStr
  import opened SimCurrent

  /* -------------------------------------------------------------- account */

  /** One row of `take_snapshot`. */
  datatype Snapshot = Snapshot(
    tradeDate: string, initCash: real, totRealized: real, dayRealized: real, dayCost: real,
    totUnrealized: real, lastNav: real, nav: real, navps: real, ret: real)

  datatype Account = Account(
    initCash: real, costRate: real, totRealized: real, totUnrealized: real,
    book: Book, snapshots: seq<Snapshot>, lastNav: real)

  /** `CAccount(init_cash, cost_rate)`. */
  function NewAccount(initCash: real, costRate: real): (a: Account)
    ensures a.book == [] && a.snapshots == [] && a.lastNav == initCash
    ensures Nav(a) == initCash
  {
    Account(initCash, costRate, 0.0, 0.0, [], [], initCash)
  }

  /** `CAccount.nav`. */
  function Nav(a: Account): real {
    a.initCash + a.totRealized + a.totUnrealized
  }

  /** `CAccount.navps`: NAV per unit of initial cash. */
  function Navps(a: Account): (r: Result<real>)
    ensures r.Ok? <==> a.initCash != 0.0
    ensures r.Ok? ==> r.value * a.initCash == Nav(a)
    ensures r.Err? ==> r.error == ZeroDivisionError
  {
    if a.initCash == 0.0 then Err(ZeroDivisionError) else Ok(Nav(a) / a.initCash)
  }

  /** `CAccount.ret`: the return since the last recorded NAV. */
  function Ret(a: Account): (r: Result<real>)
    ensures r.Ok? <==> a.lastNav != 0.0
    ensures r.Ok? ==> (r.value + 1.0) * a.lastNav == Nav(a)
    ensures r.Err? ==> r.error == ZeroDivisionError
  {
    if a.lastNav == 0.0 then Err(ZeroDivisionError) else Ok(Nav(a) / a.lastNav - 1.0)
  }

  /** `update_pnl`: the day's realized profit net of fees is added, the
      unrealized total is replaced. */
  function UpdatePnl(a: Account, unrealized: real, realized: real, cost: real): (b: Account)
    ensures Nav(b) == Nav(a) - a.totUnrealized + realized - cost + unrealized
    ensures b.totUnrealized == unrealized
    ensures b.book == a.book && b.snapshots == a.snapshots && b.lastNav == a.lastNav
    ensures b.initCash == a.initCash && b.costRate == a.costRate
  {
    a.(totRealized := a.totRealized + (realized - cost), totUnrealized := unrealized)
  }

  /** `take_snapshot`: appends one row; the ratios raise ZeroDivisionError
      on a zero initial cash or a zero last NAV. */
  function TakeSnapshot(a: Account, date: string, realized: real, cost: real): (r: Result<Account>)
    ensures r.Ok? <==> a.initCash != 0.0 && a.lastNav != 0.0
    ensures r.Err? ==> r.error == ZeroDivisionError
    ensures r.Ok? ==> r.value == a.(snapshots := r.value.snapshots)
    ensures r.Ok? ==> |r.value.snapshots| == |a.snapshots| + 1 && r.value.snapshots[..|a.snapshots|] == a.snapshots
    ensures r.Ok? ==> var s := r.value.snapshots[|a.snapshots|];
      s.tradeDate == date && s.nav == Nav(a) && s.lastNav == a.lastNav &&
      s.totRealized == a.totRealized && s.totUnrealized == a.totUnrealized &&
      s.dayRealized == realized && s.dayCost == cost && s.initCash == a.initCash
  {
    var navps :- Navps(a);
    var ret :- Ret(a);
    var s := Snapshot(date, a.initCash, a.totRealized, realized, cost, a.totUnrealized, a.lastNav, Nav(a), navps, ret);
    Ok(a.(snapshots := a.snapshots + [s]))
  }

  /** `update_last_nav`. */
  function UpdateLastNav(a: Account): (b: Account)
    ensures b.lastNav == Nav(a) && Nav(b) == Nav(a)
    ensures b.book == a.book && b.snapshots == a.snapshots
  {
    a.(lastNav := Nav(a))
  }

  /* ------------------------------------------------------- signal to target */

  /** The lookups the simulation consults. `md(date, contract, field)` is a
      market-data value ("close", or the execution price field). */
  datatype Env = Env(
    signals: map<string, Dict<string, real>>,
    multiplier: string -> real,
    major: (string, string) -> string,
    md: (string, string, string) -> real,
    exeField: string)

  /** The direction a weight asks for: positive is long, anything else short. */
  function DirectionOf(w: real): Direction {
    if w > 0.0 then LNG else SRT
  }

  /** The key of the target position for one signal entry. */
  function TargetKey(env: Env, sigDate: string, instru: string, w: real): PosKey {
    PosKey(env.major(sigDate, instru), DirectionOf(w))
  }

  /** The target position for one signal entry: NAV times |weight| over
      multiplier and close, rounded half to even. A zero divisor is where
      numpy would produce an infinity or a NaN. */
  function TargetPosition(env: Env, lastNav: real, sigDate: string, instru: string, w: real): (r: Result<Position>)
    ensures r.Ok? <==> env.multiplier(instru) != 0.0 && env.md(sigDate, env.major(sigDate, instru), "close") != 0.0
    ensures r.Err? ==> r.error == NonFinite
    ensures r.Ok? ==> var m := env.multiplier(instru);
      var price := env.md(sigDate, env.major(sigDate, instru), "close");
      r.value.key == TargetKey(env, sigDate, instru, w) && r.value.multiplier == m &&
      r.value.costPrice == 0.0 && r.value.lastPrice == 0.0 &&
      -0.5 <= lastNav * Numeric.Abs(w) / m / price - r.value.qty as real <= 0.5
    ensures (r.Ok? && lastNav >= 0.0 && env.multiplier(instru) > 0.0 &&
      env.md(sigDate, env.major(sigDate, instru), "close") > 0.0) ==> r.value.qty >= 0
  {
    var m := env.multiplier(instru);
    var contract := env.major(sigDate, instru);
    var price := env.md(sigDate, contract, "close");
    if m == 0.0 || price == 0.0 then Err(NonFinite)
    else
      var x := lastNav * Numeric.Abs(w) / m / price;
      var key := TargetKey(env, sigDate, instru, w);
      Ok(Position(key, Numeric.RoundHalfEven(x), m, 0.0, 0.0))
  }

  /** The loop of `covert_sig_to_target_pos` from a partial result `acc`:
      each entry's position is stored under its key, a later entry
      overwriting an earlier one on the same key. */
  function TargetsFrom(env: Env, lastNav: real, sigDate: string, sigs: Dict<string, real>, acc: Book): (r: Result<Book>)
    ensures r.Ok? && Valid(acc) ==> Valid(r.value)
    ensures r.Ok? && KeyedBy(acc) ==> KeyedBy(r.value)
    decreases |sigs|
  {
    if |sigs| == 0 then Ok(acc)
    else
      var (instru, w) := sigs[0];
      var p :- TargetPosition(env, lastNav, sigDate, instru, w);
      var acc' := Put(acc, p.key, p);
      PutValid(acc, p.key, p);
      PutEntries(acc, p.key, p);
      TargetsFrom(env, lastNav, sigDate, sigs[1..], acc')
  }

  /** `covert_sig_to_target_pos(sig_date)`: KeyError when the signal table
      has no entry for the date. */
  function CovertSigToTargetPos(env: Env, lastNav: real, sigDate: string): (r: Result<Book>)
    ensures sigDate !in env.signals ==> r == Err(KeyError)
    ensures r.Ok? ==> Valid(r.value) && KeyedBy(r.value)
  {
    var sigs :- Lookup(env.signals, sigDate);
    TargetsFrom(env, lastNav, sigDate, sigs, [])
  }

  /** Whether every signal entry has a non-zero multiplier and close. */
  predicate Priced(env: Env, sigDate: string, sigs: Dict<string, real>) {
    forall e :: e in sigs ==>
      env.multiplier(e.0) != 0.0 && env.md(sigDate, env.major(sigDate, e.0), "close") != 0.0
  }

  /** The target positions succeed exactly when every entry is priced, and
      then hold exactly the keys some entry asks for. */
  lemma {:induction false} TargetsFromKeys(env: Env, lastNav: real, sigDate: string, sigs: Dict<string, real>, acc: Book, k: PosKey)
    ensures TargetsFrom(env, lastNav, sigDate, sigs, acc).Ok? <==> Priced(env, sigDate, sigs)
    ensures TargetsFrom(env, lastNav, sigDate, sigs, acc).Ok? ==>
      (Has(TargetsFrom(env, lastNav, sigDate, sigs, acc).value, k) <==>
        Has(acc, k) || exists e :: e in sigs && TargetKey(env, sigDate, e.0, e.1) == k)
    decreases |sigs|
  {
    if |sigs| > 0 {
      var (instru, w) := sigs[0];
      var r0 := TargetPosition(env, lastNav, sigDate, instru, w);
      PricedCons(env, sigDate, sigs);
      AskedCons(env, sigDate, sigs, k);
      if r0.Ok? {
        var p := r0.value;
        TargetsFromKeys(env, lastNav, sigDate, sigs[1..], Put(acc, p.key, p), k);
        assert Has(Put(acc, p.key, p), k) <==> Has(acc, k) || p.key == k;
      }
    }
  }

  /** Every entry is priced when the first one and the rest are. */
  lemma PricedCons(env: Env, sigDate: string, sigs: Dict<string, real>)
    requires |sigs| > 0
    ensures Priced(env, sigDate, sigs) <==>
      env.multiplier(sigs[0].0) != 0.0 && env.md(sigDate, env.major(sigDate, sigs[0].0), "close") != 0.0 &&
      Priced(env, sigDate, sigs[1..])
  {
    assert sigs == [sigs[0]] + sigs[1..];
  }

  /** Some entry asks for key k when the first one or one of the rest
      does. */
  lemma AskedCons(env: Env, sigDate: string, sigs: Dict<string, real>, k: PosKey)
    requires |sigs| > 0
    ensures (exists e :: e in sigs && TargetKey(env, sigDate, e.0, e.1) == k) <==>
      TargetKey(env, sigDate, sigs[0].0, sigs[0].1) == k ||
      exists e :: e in sigs[1..] && TargetKey(env, sigDate, e.0, e.1) == k
  {
    assert sigs == [sigs[0]] + sigs[1..];
  }

  /** With a non-negative NAV, positive multipliers and positive closes,
      every target quantity is non-negative. */
  lemma {:induction false} TargetsFromNonNegative(env: Env, lastNav: real, sigDate: string, sigs: Dict<string, real>, acc: Book)
    requires lastNav >= 0.0 && NonNegative(acc)
    requires forall e :: e in sigs ==>
      env.multiplier(e.0) > 0.0 && env.md(sigDate, env.major(sigDate, e.0), "close") > 0.0
    ensures TargetsFrom(env, lastNav, sigDate, sigs, acc).Ok?
    ensures NonNegative(TargetsFrom(env, lastNav, sigDate, sigs, acc).value)
    decreases |sigs|
  {
    if |sigs| > 0 {
      var (instru, w) := sigs[0];
      assert sigs[0] in sigs;
      assert forall e :: e in sigs[1..] ==> e in sigs;
      var p := TargetPosition(env, lastNav, sigDate, instru, w).value;
      PutEntries(acc, p.key, p);
      TargetsFromNonNegative(env, lastNav, sigDate, sigs[1..], Put(acc, p.key, p));
    }
  }

  /* ---------------------------------------------------------------- dates */

  /** `gen_sig_exe_dates(bgn, stp, calendar)`: the window from the trade
      date before `bgn` up to `stp`; signal dates drop its last date and
      execution dates its first. The step back is `get_next_date` as
      written, so from the calendar's first date it lands on the last. */
  function GenSigExeDates(cal: Calendar.Calendar, bgn: string, stp: string): (r: Result<(seq<string>, seq<string>)>)
    ensures r.Ok? ==> |r.value.0| == |r.value.1|
    ensures r.Err? <==> Calendar.GetNextDateAsWritten(cal, bgn, -1).Err?
  {
    var sigBgn :- Calendar.GetNextDateAsWritten(cal, bgn, -1);
    var iter := Calendar.IterList(cal, sigBgn, stp, true);
    Ok((PySeq.Slice(iter, 0, -1), PySeq.From(iter, 1)))
  }

  /** Each execution date is the trade date after its signal date, the
      first signal date is the date the step back from `bgn` lands on, and
      no execution date reaches `stp`. */
  lemma GenSigExeDatesNext(cal: Calendar.Calendar, bgn: string, stp: string)
    requires Calendar.Sorted(cal)
    ensures var r := GenSigExeDates(cal, bgn, stp);
      r.Ok? ==> forall i :: 0 <= i < |r.value.0| ==>
        Calendar.GetNextDate(cal, r.value.0[i], 1) == Ok(r.value.1[i]) &&
        PyStr.Less(r.value.1[i], stp)
    ensures var r := GenSigExeDates(cal, bgn, stp);
      r.Ok? && |r.value.0| > 0 ==> Calendar.GetNextDateAsWritten(cal, bgn, -1) == Ok(r.value.0[0])
  {
    var r := GenSigExeDates(cal, bgn, stp);
    if r.Ok? {
      var sigBgn := Calendar.GetNextDateAsWritten(cal, bgn, -1).value;
      var iter := Calendar.Window(cal.dates, sigBgn, stp);
      var lo := Calendar.WindowIsSlice(cal.dates, sigBgn, stp);
      var n := |iter|;
      if n > 0 {
        var sig := r.value.0;
        var exe := r.value.1;
        assert sig == iter[..n - 1] && exe == iter[1..];
        forall i | 0 <= i < |sig| ensures Calendar.GetNextDate(cal, sig[i], 1) == Ok(exe[i]) &&
          PyStr.Less(exe[i], stp) {
          assert sig[i] == iter[i] && exe[i] == iter[i + 1];
          WindowSuccessor(cal, sigBgn, stp, lo, i);
        }
        WindowStartsAt(cal, sigBgn, stp, lo);
      }
    }
  }

  /** Where the calendar holds a date before `bgn`, the first signal date
      is that trade date, as the documentation of `get_next_date` reads. */
  lemma GenSigExeDatesStart(cal: Calendar.Calendar, bgn: string, stp: string)
    requires Calendar.Sorted(cal) && Calendar.GetNextDate(cal, bgn, -1).Ok?
    ensures var r := GenSigExeDates(cal, bgn, stp);
      r.Ok? && (|r.value.0| > 0 ==> Calendar.GetNextDate(cal, bgn, -1) == Ok(r.value.0[0]))
  {
    Calendar.GetNextDateAgrees(cal, bgn, -1);
    GenSigExeDatesNext(cal, bgn, stp);
  }

  /** From the calendar's first trade date the step back wraps to the last
      one, the window holds at most that date, and the run trades on no
      day at all. */
  lemma GenSigExeDatesWrapsAtStart(cal: Calendar.Calendar, stp: string)
    requires Calendar.Sorted(cal) && |cal.dates| >= 2
    ensures GenSigExeDates(cal, cal.dates[0], stp) == Ok(([], []))
  {
    Calendar.GetNextDateWrapsAtStart(cal);
    var n := |cal.dates|;
    var last := cal.dates[n - 1];
    var iter := Calendar.Window(cal.dates, last, stp);
    var lo := Calendar.WindowIsSlice(cal.dates, last, stp);
    if |iter| > 0 {
      WindowStartsAt(cal, last, stp, lo);
      assert cal.dates[lo] == cal.dates[n - 1];
      if lo != n - 1 {
        PyStr.StrictlySortedDistinct(cal.dates, lo, n - 1);
      }
    }
    assert |iter| <= 1;
  }

  /** Consecutive window dates are calendar neighbours. */
  lemma WindowSuccessor(cal: Calendar.Calendar, b: string, stp: string, lo: nat, i: nat)
    requires Calendar.Sorted(cal)
    requires var w := Calendar.Window(cal.dates, b, stp);
      lo + |w| <= |cal.dates| && w == cal.dates[lo..lo + |w|] && i + 1 < |w|
    ensures var w := Calendar.Window(cal.dates, b, stp);
      Calendar.GetNextDate(cal, w[i], 1) == Ok(w[i + 1]) && PyStr.Less(w[i + 1], stp)
  {
    var w := Calendar.Window(cal.dates, b, stp);
    assert w[i] == cal.dates[lo + i] && w[i + 1] == cal.dates[lo + i + 1];
    Calendar.GetSnOfDate(cal, lo + i);
    Calendar.WindowMembers(cal.dates, b, stp, w[i + 1]);
  }

  /** A non-empty window that starts at a calendar date starts at that date. */
  lemma WindowStartsAt(cal: Calendar.Calendar, b: string, stp: string, lo: nat)
    requires Calendar.Sorted(cal) && b in cal.dates
    requires var w := Calendar.Window(cal.dates, b, stp);
      |w| > 0 && lo + |w| <= |cal.dates| && w == cal.dates[lo..lo + |w|]
    ensures Calendar.Window(cal.dates, b, stp)[0] == b
  {
    var w := Calendar.Window(cal.dates, b, stp);
    var k :| 0 <= k < |cal.dates| && cal.dates[k] == b;
    Calendar.WindowMembers(cal.dates, b, stp, w[0]);
    assert PyStr.Less(b, stp) by {
      if b != w[0] {
        PyStr.LessTransitive(b, w[0], stp);
      }
    }
    Calendar.WindowMembers(cal.dates, b, stp, b);
    var j :| 0 <= j < |w| && w[j] == b;
    assert cal.dates[lo + j] == cal.dates[k];
    if lo + j != k {
      PyStr.StrictlySortedDistinct(cal.dates, lo + j, k);
    }
    if j > 0 {
      assert PyStr.Less(cal.dates[lo], cal.dates[lo + j]);
      PyStr.LessAsymmetric(cal.dates[lo], cal.dates[lo + j]);
      PyStr.LessIrreflexive(b);
    }
  }

  /* ------------------------------------------------------------------ day */

  /** One iteration of `main`: target, trades at the execution price,
      trades applied, book marked to the close, P&L, snapshot, last NAV. */
  function Step(env: Env, a: Account, sigDate: string, exeDate: string): (r: Result<Account>)
    ensures r.Ok? ==> |r.value.snapshots| == |a.snapshots| + 1 && r.value.snapshots[..|a.snapshots|] == a.snapshots
    ensures r.Ok? ==> r.value.initCash == a.initCash && r.value.costRate == a.costRate
    ensures r.Ok? ==> var s := r.value.snapshots[|a.snapshots|];
      s.tradeDate == exeDate && s.lastNav == a.lastNav && s.nav == Nav(r.value) && r.value.lastNav == s.nav &&
      s.totRealized == a.totRealized + s.dayRealized - s.dayCost &&
      s.totRealized == r.value.totRealized && s.totUnrealized == r.value.totUnrealized &&
      s.initCash == a.initCash && s.nav == a.initCash + s.totRealized + s.totUnrealized
  {
    var target :- CovertSigToTargetPos(env, a.lastNav, sigDate);
    var exePrice := (c: string) => env.md(exeDate, c, env.exeField);
    var close := (c: string) => env.md(exeDate, c, "close");
    var applied :- UpdateFromTrades(a.book, CalTrades(target, a.book, exePrice), a.costRate);
    var marked := UpdateBookFromMarket(applied.book, close);
    var a1 := UpdatePnl(a.(book := marked.book), marked.unrealized, applied.realized, applied.cost);
    var a2 :- TakeSnapshot(a1, exeDate, applied.realized, applied.cost);
    Ok(UpdateLastNav(a2))
  }

  /** A day of trading leaves the book holding exactly the positive target
      positions, at their target quantities, with the unrealized profit of
      that book as the account's unrealized total. */
  lemma StepBook(env: Env, a: Account, sigDate: string, exeDate: string)
    requires Valid(a.book) && KeyedBy(a.book) && NonNegative(a.book)
    requires a.initCash != 0.0 && a.lastNav != 0.0
    requires var t := CovertSigToTargetPos(env, a.lastNav, sigDate); t.Ok? && NonNegative(t.value)
    ensures var r := Step(env, a, sigDate, exeDate);
      var target := CovertSigToTargetPos(env, a.lastNav, sigDate).value;
      (r.Ok? &&
       r.value.totUnrealized == Unrealized(r.value.book) &&
       Valid(r.value.book) && KeyedBy(r.value.book) && NonNegative(r.value.book) &&
       forall k :: (Has(r.value.book, k) <==> QtyOf(target, k) > 0) && QtyOf(r.value.book, k) == QtyOf(target, k))
  {
    var target := CovertSigToTargetPos(env, a.lastNav, sigDate).value;
    var exePrice := (c: string) => env.md(exeDate, c, env.exeField);
    var close := (c: string) => env.md(exeDate, c, "close");
    DayReachesTarget(target, a.book, exePrice, close, a.costRate);
    var applied := UpdateFromTrades(a.book, CalTrades(target, a.book, exePrice), a.costRate).value;
    MarketValid(applied.book, close);
  }

  /* ------------------------------------------------------------------ run */

  /** The loop of `main` over the paired signal and execution dates. */
  function Run(env: Env, a: Account, sigs: seq<string>, exes: seq<string>): (r: Result<Account>)
    requires |sigs| == |exes|
    ensures r.Ok? ==> |r.value.snapshots| == |a.snapshots| + |sigs|
    ensures r.Ok? ==> r.value.snapshots[..|a.snapshots|] == a.snapshots
    ensures r.Ok? ==> r.value.initCash == a.initCash
    decreases |sigs|
  {
    if |sigs| == 0 then Ok(a)
    else
      var b :- Step(env, a, sigs[0], exes[0]);
      Run(env, b, sigs[1..], exes[1..])
  }

  /** The sum of the daily realized profit net of fees over some snapshots. */
  function NetRealized(ss: seq<Snapshot>): real
    decreases |ss|
  {
    if |ss| == 0 then 0.0 else NetRealized(ss[..|ss| - 1]) + (ss[|ss| - 1].dayRealized - ss[|ss| - 1].dayCost)
  }

  /** The account invariant of the loop: every snapshot's NAV is the initial
      cash plus the net realized profit so far plus that day's unrealized
      profit, each snapshot's last NAV is the previous snapshot's NAV (the
      initial cash for the first), and the account's last NAV is the last
      snapshot's NAV. */
  predicate Ledger(a: Account) {
    var ss := a.snapshots;
    a.totRealized == NetRealized(ss) &&
    a.lastNav == (if |ss| == 0 then a.initCash else ss[|ss| - 1].nav) &&
    (|ss| == 0 ==> a.totUnrealized == 0.0) &&
    (|ss| > 0 ==> a.totUnrealized == ss[|ss| - 1].totUnrealized) &&
    forall i :: 0 <= i < |ss| ==> Chained(ss, a.initCash, i)
  }

  /** Snapshot `i` is the initial cash plus the net realized profit up to it
      plus its unrealized profit, and its last NAV is the NAV before it. */
  predicate Chained(ss: seq<Snapshot>, initCash: real, i: int)
    requires 0 <= i < |ss|
  {
    ss[i].nav == initCash + NetRealized(ss[..i + 1]) + ss[i].totUnrealized &&
    ss[i].lastNav == (if i == 0 then initCash else ss[i - 1].nav)
  }

  lemma NewAccountLedger(initCash: real, costRate: real)
    ensures Ledger(NewAccount(initCash, costRate))
  {
  }

  /** Appending a snapshot that continues the ledger keeps it. */
  lemma LedgerAppend(a: Account, b: Account)
    requires Ledger(a)
    requires b.initCash == a.initCash && |b.snapshots| == |a.snapshots| + 1
    requires b.snapshots[..|a.snapshots|] == a.snapshots
    requires var s := b.snapshots[|a.snapshots|];
      s.lastNav == a.lastNav && b.lastNav == s.nav &&
      s.totRealized == a.totRealized + s.dayRealized - s.dayCost &&
      s.totRealized == b.totRealized && s.totUnrealized == b.totUnrealized &&
      s.nav == a.initCash + s.totRealized + s.totUnrealized
    ensures Ledger(b)
  {
    var n := |a.snapshots|;
    var ss := b.snapshots;
    assert ss[..n + 1] == ss;
    assert ss[..|ss| - 1] == a.snapshots;
    assert NetRealized(ss) == NetRealized(a.snapshots) + (ss[n].dayRealized - ss[n].dayCost);
    assert b.totRealized == NetRealized(ss);
    forall i | 0 <= i < n + 1 ensures Chained(ss, b.initCash, i) {
      if i < n {
        assert Chained(a.snapshots, a.initCash, i);
        assert ss[..i + 1] == a.snapshots[..i + 1];
      } else if n > 0 {
        assert ss[n - 1] == a.snapshots[n - 1];
      }
    }
  }

  /** A day keeps the ledger. */
  lemma StepLedger(env: Env, a: Account, sigDate: string, exeDate: string)
    requires Ledger(a)
    ensures var r := Step(env, a, sigDate, exeDate); r.Ok? ==> Ledger(r.value)
  {
    var r := Step(env, a, sigDate, exeDate);
    if r.Ok? {
      LedgerAppend(a, r.value);
    }
  }

  /** The whole run keeps the ledger, so the final NAV is the initial cash
      plus all net realized profit plus the last unrealized profit. */
  lemma {:induction false} RunLedger(env: Env, a: Account, sigs: seq<string>, exes: seq<string>)
    requires |sigs| == |exes| && Ledger(a)
    ensures var r := Run(env, a, sigs, exes);
      r.Ok? ==> (Ledger(r.value) &&
        Nav(r.value) == r.value.initCash + NetRealized(r.value.snapshots) + r.value.totUnrealized)
    decreases |sigs|
  {
    if |sigs| > 0 {
      StepLedger(env, a, sigs[0], exes[0]);
      var s := Step(env, a, sigs[0], exes[0]);
      if s.Ok? {
        RunLedger(env, s.value, sigs[1..], exes[1..]);
      }
    }
  }

  /** `main` up to saving: dates from the calendar, then the loop from a
      fresh account. */
  function Main(env: Env, initCash: real, costRate: real, cal: Calendar.Calendar, bgn: string, stp: string): (r: Result<Account>)
    ensures r.Ok? ==> Ledger(r.value) && r.value.initCash == initCash
    ensures r.Ok? ==> (GenSigExeDates(cal, bgn, stp).Ok? &&
      |r.value.snapshots| == |GenSigExeDates(cal, bgn, stp).value.1|)
  {
    var dates :- GenSigExeDates(cal, bgn, stp);
    NewAccountLedger(initCash, costRate);
    RunLedger(env, NewAccount(initCash, costRate), dates.0, dates.1);
    Run(env, NewAccount(initCash, costRate), dates.0, dates.1)
  }
}
