/**
 * The month calendar of src/husfort/qcalendar.py (CMonth and
 * CCalendarMonth): the trade dates grouped by their "YYYYMM" prefix, one
 * month per key in increasing key order, and index arithmetic over that
 * list. Months compare by their key alone.
 */
module Months {

  import opened Wrappers
  import opened PyStr
  import PySeq
  import Calendar

  datatype Month = Month(tradeMonth: string, tradeDates: seq<string>)

  function MonthIds(ms: seq<Month>): (ids: seq<string>)
    ensures |ids| == |ms|
    ensures forall i :: 0 <= i < |ms| ==> ids[i] == ms[i].tradeMonth
  {
    seq(|ms|, i requires 0 <= i < |ms| => ms[i].tradeMonth)
  }

  /** `bgn_date`: the first trade date of the month. */
  function BgnDate(m: Month): (r: Result<string>)
    ensures r.Ok? <==> |m.tradeDates| > 0
    ensures r.Ok? ==> r.value == m.tradeDates[0]
    ensures r.Err? ==> r.error == IndexError
  {
    PySeq.At(m.tradeDates, 0)
  }

  /** `end_date`: the last trade date of the month. */
  function EndDate(m: Month): (r: Result<string>)
    ensures r.Ok? <==> |m.tradeDates| > 0
    ensures r.Ok? ==> r.value == m.tradeDates[|m.tradeDates| - 1]
    ensures r.Err? ==> r.error == IndexError
  {
    PySeq.At(m.tradeDates, -1)
  }

  /** `match_from_date(d)`: d lies between the month's first and last date. */
  function MatchFromDate(m: Month, d: string): (r: Result<bool>)
    ensures r.Ok? <==> |m.tradeDates| > 0
    ensures r.Err? ==> r.error == IndexError
  {
    var b :- BgnDate(m);
    Ok(LessEq(b, d) && LessEq(d, m.tradeDates[|m.tradeDates| - 1]))
  }

  /* -------------------------------------------------------- construction */

  /** The grouping key of a calendar row: "-" removed, first six characters. */
  function MonthKey(row: string): (k: string)
    ensures |k| <= 6 && '-' !in k
  {
    Take(Without(row, '-'), 6)
  }

  /** Adds a key to a strictly increasing key list, keeping it so. */
  function AddKey(x: string, s: seq<string>): (r: seq<string>)
    requires StrictlySorted(s)
    ensures StrictlySorted(r)
    ensures forall y :: y in r <==> y == x || y in s
    decreases |s|
  {
    if |s| == 0 then [x]
    else if x == s[0] then s
    else if Less(x, s[0]) then
      forall y | y in s ensures Less(x, y) {
        var j :| 0 <= j < |s| && s[j] == y;
        if j > 0 {
          assert Less(s[0], s[j]);
          LessTransitive(x, s[0], y);
        }
      }
      SortedCons(x, s);
      [x] + s
    else
      SortedTail(s);
      var t := AddKey(x, s[1..]);
      LessTotal(x, s[0]);
      forall y | y in t ensures Less(s[0], y) {
        if y != x {
          var j :| 0 <= j < |s| - 1 && s[1..][j] == y;
          assert Less(s[0], s[j + 1]);
        }
      }
      SortedCons(s[0], t);
      assert s == [s[0]] + s[1..];
      [s[0]] + t
  }

  /** The sorted distinct keys of the rows (`groupby` sorts its keys). */
  function KeysOf(rows: seq<string>): (ks: seq<string>)
    ensures StrictlySorted(ks)
    ensures forall k :: k in ks <==> exists i :: 0 <= i < |rows| && MonthKey(rows[i]) == k
    decreases |rows|
  {
    if |rows| == 0 then []
    else
      var init := rows[..|rows| - 1];
      assert forall i :: 0 <= i < |init| ==> init[i] == rows[i];
      AddKey(MonthKey(rows[|rows| - 1]), KeysOf(init))
  }

  /** The rows of one key, in calendar order. */
  function RowsOf(rows: seq<string>, k: string): (r: seq<string>)
    ensures forall x :: x in r <==> x in rows && MonthKey(x) == k
    decreases |rows|
  {
    if |rows| == 0 then []
    else
      assert rows == [rows[0]] + rows[1..];
      (if MonthKey(rows[0]) == k then [rows[0]] else []) + RowsOf(rows[1..], k)
  }

  lemma {:induction false} RowsOfSorted(rows: seq<string>, k: string)
    requires StrictlySorted(rows)
    ensures StrictlySorted(RowsOf(rows, k))
    decreases |rows|
  {
    if |rows| > 0 {
      SortedTail(rows);
      RowsOfSorted(rows[1..], k);
      if MonthKey(rows[0]) == k {
        forall y | y in RowsOf(rows[1..], k) ensures Less(rows[0], y) {
          var j :| 0 <= j < |rows| - 1 && rows[1..][j] == y;
          assert Less(rows[0], rows[j + 1]);
        }
        SortedCons(rows[0], RowsOf(rows[1..], k));
      }
    }
  }

  /** `CCalendarMonth.__init__` over the calendar rows. */
  function CalendarMonths(rows: seq<string>): (ms: seq<Month>)
    ensures |ms| == |KeysOf(rows)|
  {
    var ks := KeysOf(rows);
    seq(|ks|, i requires 0 <= i < |ks| => Month(ks[i], RowsOf(rows, ks[i])))
  }

  /** Some month of the list has the key of x and holds x. */
  predicate HasMonthFor(ms: seq<Month>, x: string) {
    exists i :: 0 <= i < |ms| && ms[i].tradeMonth == MonthKey(x) && x in ms[i].tradeDates
  }

  /** The months partition the rows: keys increase, no month is empty, every
      row lies in exactly the month of its key, and a month's dates keep
      calendar order. */
  lemma CalendarMonthsGroups(rows: seq<string>)
    ensures StrictlySorted(MonthIds(CalendarMonths(rows)))
    ensures forall i :: 0 <= i < |CalendarMonths(rows)| ==> |CalendarMonths(rows)[i].tradeDates| > 0
    ensures forall i, x :: 0 <= i < |CalendarMonths(rows)| && x in CalendarMonths(rows)[i].tradeDates
              ==> x in rows && MonthKey(x) == CalendarMonths(rows)[i].tradeMonth
    ensures forall x :: x in rows ==> HasMonthFor(CalendarMonths(rows), x)
    ensures StrictlySorted(rows) ==> forall i :: 0 <= i < |CalendarMonths(rows)| ==>
              StrictlySorted(CalendarMonths(rows)[i].tradeDates)
  {
    var ms := CalendarMonths(rows);
    var ks := KeysOf(rows);
    assert MonthIds(ms) == ks;
    forall i | 0 <= i < |ms| ensures |ms[i].tradeDates| > 0 {
      assert ks[i] in ks;
      var j :| 0 <= j < |rows| && MonthKey(rows[j]) == ks[i];
      assert rows[j] in ms[i].tradeDates;
    }
    forall x | x in rows ensures HasMonthFor(ms, x) {
      var j :| 0 <= j < |rows| && rows[j] == x;
      assert MonthKey(rows[j]) in ks;
      var i :| 0 <= i < |ks| && ks[i] == MonthKey(x);
      assert ms[i].tradeMonth == MonthKey(x) && x in ms[i].tradeDates;
    }
    if StrictlySorted(rows) {
      forall i | 0 <= i < |ms| ensures StrictlySorted(ms[i].tradeDates) {
        RowsOfSorted(rows, ks[i]);
      }
    }
  }

  /* ------------------------------------------------------------ lookups */

  /** `match_month_from_id(id)`: the first month with that key. */
  function MatchMonthFromId(ms: seq<Month>, id: string): (r: Option<Month>)
    ensures r.Some? <==> id in MonthIds(ms)
    ensures r.Some? ==> r.value in ms && r.value.tradeMonth == id
  {
    match PySeq.IndexOf(MonthIds(ms), id)
    case Ok(i) => Some(ms[i])
    case Err(_) => None
  }

  /** `match_month_from_date(d)`: the first month whose date range holds d.
      An empty month on the way raises IndexError; months built from a
      calendar are never empty. */
  function MatchMonthFromDate(ms: seq<Month>, d: string): (r: Result<Option<Month>>)
    ensures (forall i :: 0 <= i < |ms| ==> |ms[i].tradeDates| > 0) ==> r.Ok?
    ensures r.Ok? && r.value.Some? ==> r.value.value in ms && MatchFromDate(r.value.value, d) == Ok(true)
    decreases |ms|
  {
    if |ms| == 0 then Ok(None)
    else
      var hit :- MatchFromDate(ms[0], d);
      if hit then Ok(Some(ms[0]))
      else
        var r := MatchMonthFromDate(ms[1..], d);
        assert forall i :: 0 <= i < |ms| - 1 ==> ms[1..][i] == ms[i + 1];
        r
  }

  /** The search stops at the first covering month when every month before
      it is non-empty. */
  lemma {:induction false} MatchMonthFromDateAt(ms: seq<Month>, d: string, i: nat)
    requires i < |ms| && MatchFromDate(ms[i], d) == Ok(true)
    requires forall j :: 0 <= j < i ==> MatchFromDate(ms[j], d) == Ok(false)
    ensures MatchMonthFromDate(ms, d) == Ok(Some(ms[i]))
    decreases i
  {
    if i > 0 {
      MatchMonthFromDateAt(ms[1..], d, i - 1);
    }
  }

  /** A calendar of dash-free 8-character dates in increasing order. */
  predicate WellFormed(rows: seq<string>) {
    StrictlySorted(rows) && forall i :: 0 <= i < |rows| ==> |rows[i]| == 8 && '-' !in rows[i]
  }

  /** For such dates the key is the first six characters, and dates of a
      smaller key are earlier. */
  lemma KeyOrder(x: string, y: string)
    requires |x| == 8 && |y| == 8 && '-' !in x && '-' !in y
    ensures MonthKey(x) == x[..6] && MonthKey(y) == y[..6]
    ensures Less(MonthKey(x), MonthKey(y)) ==> Less(x, y)
  {
    WithoutAbsent(x, '-');
    WithoutAbsent(y, '-');
    assert x == x[..6] + x[6..] && y == y[..6] + y[6..];
    LessConcat(x[..6], x[6..], y[..6], y[6..]);
  }

  /** Every first and last date of a sorted month brackets its members. */
  lemma MemberBetween(ds: seq<string>, d: string)
    requires StrictlySorted(ds) && d in ds
    ensures LessEq(ds[0], d) && LessEq(d, ds[|ds| - 1])
  {
    var k :| 0 <= k < |ds| && ds[k] == d;
    if k > 0 {
      assert Less(ds[0], ds[k]);
    }
    if k < |ds| - 1 {
      assert Less(ds[k], ds[|ds| - 1]);
    }
  }

  /** What the construction guarantees about a month list built from a
      sorted calendar. */
  predicate GroupedBy(rows: seq<string>, ms: seq<Month>) {
    StrictlySorted(MonthIds(ms)) &&
    (forall i :: 0 <= i < |ms| ==> |ms[i].tradeDates| > 0 && StrictlySorted(ms[i].tradeDates)) &&
    (forall i, x :: 0 <= i < |ms| && x in ms[i].tradeDates ==> x in rows && MonthKey(x) == ms[i].tradeMonth) &&
    (forall x :: x in rows ==> HasMonthFor(ms, x))
  }

  lemma MonthsOfCalendar(rows: seq<string>)
    requires StrictlySorted(rows)
    ensures GroupedBy(rows, CalendarMonths(rows))
  {
    CalendarMonthsGroups(rows);
  }

  /** A month whose key is below the key of d cannot hold d in its range. */
  lemma EarlierMonthMisses(m: Month, d: string)
    requires |m.tradeDates| > 0 && |d| == 8 && '-' !in d
    requires |m.tradeDates[|m.tradeDates| - 1]| == 8 && '-' !in m.tradeDates[|m.tradeDates| - 1]
    requires MonthKey(m.tradeDates[|m.tradeDates| - 1]) == m.tradeMonth
    requires Less(m.tradeMonth, MonthKey(d))
    ensures MatchFromDate(m, d) == Ok(false)
  {
    var e := m.tradeDates[|m.tradeDates| - 1];
    KeyOrder(e, d);
    if LessEq(d, e) {
      LessAsymmetric(e, d);
    }
  }

  lemma RowShape(rows: seq<string>, x: string)
    requires WellFormed(rows) && x in rows
    ensures |x| == 8 && '-' !in x
  {
  }

  /** The month found for a trade date of the calendar is the month of its
      key, at the position of that key in the month list. */
  lemma MatchMonthFromDateOfRow(rows: seq<string>, ms: seq<Month>, d: string) returns (i: nat)
    requires WellFormed(rows) && GroupedBy(rows, ms) && d in rows
    ensures i < |ms| && ms[i].tradeMonth == MonthKey(d) && d in ms[i].tradeDates
    ensures MatchMonthFromDate(ms, d) == Ok(Some(ms[i]))
  {
    i :| 0 <= i < |ms| && ms[i].tradeMonth == MonthKey(d) && d in ms[i].tradeDates;
    MemberBetween(ms[i].tradeDates, d);
    RowShape(rows, d);
    forall j | 0 <= j < i ensures MatchFromDate(ms[j], d) == Ok(false) {
      EarlierMonthOfRows(rows, ms, j, i, d);
    }
    MatchMonthFromDateAt(ms, d, i);
  }

  /** A month before the month of a calendar date does not hold it. */
  lemma EarlierMonthOfRows(rows: seq<string>, ms: seq<Month>, j: nat, i: nat, d: string)
    requires WellFormed(rows) && GroupedBy(rows, ms)
    requires j < i < |ms| && ms[i].tradeMonth == MonthKey(d) && |d| == 8 && '-' !in d
    ensures MatchFromDate(ms[j], d) == Ok(false)
  {
    var ds := ms[j].tradeDates;
    assert ds[|ds| - 1] in ds;
    RowShape(rows, ds[|ds| - 1]);
    assert Less(MonthIds(ms)[j], MonthIds(ms)[i]);
    EarlierMonthMisses(ms[j], d);
  }

  /* ---------------------------------------------------- month arithmetic */

  /** `trade_months.index(m)`: months compare by key. */
  function IndexOfMonth(ms: seq<Month>, m: Month): (r: Result<nat>)
    ensures r.Ok? <==> m.tradeMonth in MonthIds(ms)
    ensures r.Ok? ==> r.value < |ms| && ms[r.value].tradeMonth == m.tradeMonth
    ensures r.Err? ==> r.error == ValueError
  {
    PySeq.IndexOf(MonthIds(ms), m.tradeMonth)
  }

  lemma IndexOfMonthAt(ms: seq<Month>, i: nat)
    requires StrictlySorted(MonthIds(ms)) && i < |ms|
    ensures IndexOfMonth(ms, ms[i]) == Ok(i)
  {
    var j := IndexOfMonth(ms, ms[i]).value;
    if j != i {
      StrictlySortedDistinct(MonthIds(ms), i, j);
    }
  }

  /** `get_next_month(m, shift)` as written: a negative position counts
      from the end of the month list. */
  function GetNextMonthAsWritten(ms: seq<Month>, m: Month, shift: int): (r: Result<Month>)
    ensures r.Ok? ==> r.value in ms
  {
    var i :- IndexOfMonth(ms, m);
    PySeq.At(ms, i + shift)
  }

  /** `get_next_month(m, shift)` as documented: the month `shift` places
      away, IndexError outside the list. */
  function GetNextMonth(ms: seq<Month>, m: Month, shift: int): (r: Result<Month>)
    ensures r.Ok? ==> r.value in ms
    ensures IndexOfMonth(ms, m).Err? ==> r == Err(ValueError)
    ensures IndexOfMonth(ms, m).Ok? ==>
      (r.Ok? <==> 0 <= IndexOfMonth(ms, m).value + shift < |ms|)
  {
    var i :- IndexOfMonth(ms, m);
    if 0 <= i + shift < |ms| then Ok(ms[i + shift]) else Err(IndexError)
  }

  /** With increasing keys the month `shift` places after ms[i] is
      ms[i + shift], and stepping back returns to ms[i]. */
  lemma GetNextMonthRoundTrip(ms: seq<Month>, i: nat, shift: int)
    requires StrictlySorted(MonthIds(ms)) && i < |ms| && 0 <= i + shift < |ms|
    ensures GetNextMonth(ms, ms[i], shift) == Ok(ms[i + shift])
    ensures GetNextMonth(ms, ms[i + shift], -shift) == Ok(ms[i])
  {
    IndexOfMonthAt(ms, i);
    IndexOfMonthAt(ms, i + shift);
  }

  /** The two readings agree unless the position is negative. */
  lemma GetNextMonthAgrees(ms: seq<Month>, m: Month, shift: int)
    requires IndexOfMonth(ms, m).Ok? && IndexOfMonth(ms, m).value + shift >= 0
    ensures GetNextMonthAsWritten(ms, m, shift) == GetNextMonth(ms, m, shift)
  {
  }

  /** As written, the month before the first month is the last one. */
  lemma GetNextMonthWrapsAtStart(ms: seq<Month>)
    requires StrictlySorted(MonthIds(ms)) && |ms| >= 2
    ensures GetNextMonthAsWritten(ms, ms[0], -1) == Ok(ms[|ms| - 1])
    ensures Less(ms[0].tradeMonth, ms[|ms| - 1].tradeMonth)
    ensures GetNextMonth(ms, ms[0], -1) == Err(IndexError)
  {
    IndexOfMonthAt(ms, 0);
    assert Less(MonthIds(ms)[0], MonthIds(ms)[|ms| - 1]);
  }

  /** `get_iter_months(bgn, stp)`: the months from bgn up to, not including,
      stp. */
  function GetIterMonths(ms: seq<Month>, bgn: Month, stp: Month): (r: Result<seq<Month>>)
    ensures r.Ok? <==> bgn.tradeMonth in MonthIds(ms) && stp.tradeMonth in MonthIds(ms)
    ensures r.Err? ==> r.error == ValueError
    ensures r.Ok? ==> forall x :: x in r.value ==> x in ms
  {
    var b :- IndexOfMonth(ms, bgn);
    var s :- IndexOfMonth(ms, stp);
    Ok(PySeq.Slice(ms, b, s))
  }

  /** With increasing keys the iteration holds exactly the listed months
      whose key lies in [bgn, stp), in list order. */
  lemma GetIterMonthsAt(ms: seq<Month>, i: nat, j: nat)
    requires StrictlySorted(MonthIds(ms)) && i < |ms| && j < |ms|
    ensures GetIterMonths(ms, ms[i], ms[j]) == Ok(if i <= j then ms[i..j] else [])
    ensures forall x :: x in GetIterMonths(ms, ms[i], ms[j]).value <==>
      x in ms && LessEq(ms[i].tradeMonth, x.tradeMonth) && Less(x.tradeMonth, ms[j].tradeMonth)
  {
    GetIterMonthsSlice(ms, i, j);
    var r := if i <= j then ms[i..j] else [];
    forall x | x in ms ensures x in r <==> LessEq(ms[i].tradeMonth, x.tradeMonth) && Less(x.tradeMonth, ms[j].tradeMonth) {
      var k :| 0 <= k < |ms| && ms[k] == x;
      KeyBetween(MonthIds(ms), i, j, k);
      SliceMember(ms, i, j, k);
    }
    assert forall x :: x in r ==> x in ms;
  }

  /** The months from ms[i] up to ms[j] by position. */
  lemma GetIterMonthsSlice(ms: seq<Month>, i: nat, j: nat)
    requires StrictlySorted(MonthIds(ms)) && i < |ms| && j < |ms|
    ensures GetIterMonths(ms, ms[i], ms[j]) == Ok(if i <= j then ms[i..j] else [])
  {
    IndexOfMonthAt(ms, i);
    IndexOfMonthAt(ms, j);
  }

  /** In an increasing list, position k lies in [i, j) exactly when its key
      lies between the keys at i and j. */
  lemma KeyBetween(ids: seq<string>, i: nat, j: nat, k: nat)
    requires StrictlySorted(ids) && i < |ids| && j < |ids| && k < |ids|
    ensures (i <= k < j) <==> LessEq(ids[i], ids[k]) && Less(ids[k], ids[j])
  {
    LessIrreflexive(ids[k]);
    if k < i {
      assert Less(ids[k], ids[i]);
      if LessEq(ids[i], ids[k]) {
        LessAsymmetric(ids[k], ids[i]);
      }
    } else if i < k {
      assert Less(ids[i], ids[k]);
    }
    if k < j {
      assert Less(ids[k], ids[j]);
    } else if j < k {
      assert Less(ids[j], ids[k]);
      LessAsymmetric(ids[j], ids[k]);
    }
  }

  /** With distinct keys ms[k] is in the slice [i, j) only at its own
      position. */
  lemma SliceMember(ms: seq<Month>, i: nat, j: nat, k: nat)
    requires StrictlySorted(MonthIds(ms)) && i < |ms| && j < |ms| && k < |ms|
    ensures ms[k] in (if i <= j then ms[i..j] else []) <==> i <= k < j
  {
    var ids := MonthIds(ms);
    if i <= j && ms[k] in ms[i..j] {
      var a :| i <= a < j && ms[a] == ms[k];
      assert ids[a] == ids[k];
      if a != k {
        StrictlySortedDistinct(ids, a, k);
      }
    }
    if i <= k < j {
      assert ms[i..j][k - i] == ms[k];
    }
  }

  /** Passing "no month" where `list.index` expects a month: every
      comparison reads `None.trade_month` and raises AttributeError, and an
      empty list raises ValueError without comparing. */
  function Found(ms: seq<Month>, m: Option<Month>): (r: Result<Month>)
    ensures m.Some? ==> r == Ok(m.value)
    ensures m.None? ==> r.Err? && (r.error == AttributeError <==> |ms| > 0)
  {
    if m.Some? then Ok(m.value)
    else if |ms| == 0 then Err(ValueError)
    else Err(AttributeError)
  }

  /** `map_iter_dates_to_iter_month(bgn, stp, calendar, exclude_last)`: the
      months from the month of the first date in [bgn, stp) up to the month
      of the trade date after the window (exclude_last) or up to and
      including the month of the window's last date (otherwise). */
  function MapIterDatesToIterMonth(ms: seq<Month>, bgn: string, stp: string, cal: Calendar.Calendar, excludeLast: bool)
    : (r: Result<seq<Month>>)
    ensures r.Ok? ==> |Calendar.Window(cal.dates, bgn, stp)| > 0
    ensures r.Ok? ==> forall x :: x in r.value ==> x in ms
  {
    MapIter(ms, Calendar.Window(cal.dates, bgn, stp), cal, excludeLast)
  }

  /** The body of `map_iter_dates_to_iter_month` once the window is known. */
  function MapIter(ms: seq<Month>, iter: seq<string>, cal: Calendar.Calendar, excludeLast: bool): (r: Result<seq<Month>>)
    ensures r.Ok? ==> |iter| > 0
    ensures r.Ok? ==> forall x :: x in r.value ==> x in ms
  {
    var first :- PySeq.At(iter, 0);
    var bm :- MatchMonthFromDate(ms, first);
    var sm :- StopMonth(ms, cal, iter[|iter| - 1], excludeLast);
    IterBetween(ms, bm, sm)
  }

  /** The months from the first month found up to the stop month found. */
  function IterBetween(ms: seq<Month>, bm: Option<Month>, sm: Option<Month>): (r: Result<seq<Month>>)
    ensures r.Ok? ==> forall x :: x in r.value ==> x in ms
  {
    var b :- Found(ms, bm);
    var s :- Found(ms, sm);
    GetIterMonths(ms, b, s)
  }

  /** The month at which `map_iter_dates_to_iter_month` stops, given the
      window's last date: the month of the next trade date (exclude_last),
      or the month after the last date's month. */
  function StopMonth(ms: seq<Month>, cal: Calendar.Calendar, last: string, excludeLast: bool): Result<Option<Month>> {
    if excludeLast then
      var trueStp :- Calendar.GetNextDate(cal, last, 1);
      MatchMonthFromDate(ms, trueStp)
    else
      var em :- MatchMonthFromDate(ms, last);
      var e :- Found(ms, em);
      var n :- GetNextMonth(ms, e, 1);
      Ok(Some(n))
  }

  /** Once the first and the stop month are found at positions i and k of a
      month list with increasing keys, the result is the slice between. */
  lemma MapIterDatesFound(ms: seq<Month>, iter: seq<string>, cal: Calendar.Calendar, excludeLast: bool, i: nat, k: nat)
    requires StrictlySorted(MonthIds(ms)) && i < |ms| && k < |ms| && |iter| > 0
    requires MatchMonthFromDate(ms, iter[0]) == Ok(Some(ms[i]))
    requires StopMonth(ms, cal, iter[|iter| - 1], excludeLast) == Ok(Some(ms[k]))
    ensures MapIter(ms, iter, cal, excludeLast) == Ok(if i <= k then ms[i..k] else [])
  {
    MapIterOf(ms, iter, cal, excludeLast, Some(ms[i]), Some(ms[k]));
    IterBetweenAt(ms, i, k);
  }

  /** Once both months are looked up, the result is the months between
      them. */
  lemma MapIterOf(ms: seq<Month>, iter: seq<string>, cal: Calendar.Calendar, excludeLast: bool, bm: Option<Month>, sm: Option<Month>)
    requires |iter| > 0 && MatchMonthFromDate(ms, iter[0]) == Ok(bm)
    requires StopMonth(ms, cal, iter[|iter| - 1], excludeLast) == Ok(sm)
    ensures MapIter(ms, iter, cal, excludeLast) == IterBetween(ms, bm, sm)
  {
  }

  lemma IterBetweenAt(ms: seq<Month>, i: nat, k: nat)
    requires StrictlySorted(MonthIds(ms)) && i < |ms| && k < |ms|
    ensures IterBetween(ms, Some(ms[i]), Some(ms[k])) == Ok(if i <= k then ms[i..k] else [])
  {
    GetIterMonthsSlice(ms, i, k);
  }

  /** An error in finding the stop month is the result, once the first
      month is found. */
  lemma MapIterDatesStopFails(ms: seq<Month>, iter: seq<string>, cal: Calendar.Calendar, excludeLast: bool, e: Error)
    requires |iter| > 0 && MatchMonthFromDate(ms, iter[0]).Ok?
    requires StopMonth(ms, cal, iter[|iter| - 1], excludeLast) == Err(e)
    ensures MapIter(ms, iter, cal, excludeLast) == Err(e)
  {
  }

  /** With increasing keys, a listed key is below the key after ms[j]
      exactly when it is at most the key of ms[j]. */
  lemma BelowNextKey(ms: seq<Month>, j: nat, x: Month)
    requires StrictlySorted(MonthIds(ms)) && j + 1 < |ms| && x in ms
    ensures Less(x.tradeMonth, ms[j + 1].tradeMonth) <==> LessEq(x.tradeMonth, ms[j].tradeMonth)
  {
    var ids := MonthIds(ms);
    var k :| 0 <= k < |ms| && ms[k] == x;
    LessIrreflexive(ids[k]);
    if k <= j {
      assert Less(ids[k], ids[j + 1]);
      if k < j {
        assert Less(ids[k], ids[j]);
      }
    } else {
      if k > j + 1 {
        assert Less(ids[j + 1], ids[k]);
        LessAsymmetric(ids[j + 1], ids[k]);
      }
      assert Less(ids[j], ids[k]);
      LessAsymmetric(ids[j], ids[k]);
    }
  }

  /** Without exclude_last the result is the slice of months from the month
      of the window's first date through the month of its last date, and
      IndexError when the latter is the final month. */
  lemma MapIterDatesSlice(rows: seq<string>, ms: seq<Month>, bgn: string, stp: string) returns (i: nat, j: nat)
    requires WellFormed(rows) && GroupedBy(rows, ms)
    requires |Calendar.Window(rows, bgn, stp)| > 0
    ensures var iter := Calendar.Window(rows, bgn, stp);
      i < |ms| && j < |ms| && ms[i].tradeMonth == MonthKey(iter[0]) &&
      ms[j].tradeMonth == MonthKey(iter[|iter| - 1])
    ensures MapIterDatesToIterMonth(ms, bgn, stp, Calendar.Calendar(rows), false)
         == if j + 1 < |ms| then Ok(if i <= j + 1 then ms[i..j + 1] else []) else Err(IndexError)
  {
    var iter := Calendar.Window(rows, bgn, stp);
    var c := Calendar.Calendar(rows);
    Calendar.WindowMembers(rows, bgn, stp, iter[0]);
    Calendar.WindowMembers(rows, bgn, stp, iter[|iter| - 1]);
    i := MatchMonthFromDateOfRow(rows, ms, iter[0]);
    j := MatchMonthFromDateOfRow(rows, ms, iter[|iter| - 1]);
    IndexOfMonthAt(ms, j);
    if j + 1 < |ms| {
      assert StopMonth(ms, c, iter[|iter| - 1], false) == Ok(Some(ms[j + 1]));
      MapIterDatesFound(ms, iter, c, false, i, j + 1);
    } else {
      assert StopMonth(ms, c, iter[|iter| - 1], false) == Err(IndexError);
      MapIterDatesStopFails(ms, iter, c, false, IndexError);
    }
  }

  /** With exclude_last the result runs from the month of the window's
      first date up to, not including, the month of the trade date after
      the window's last date (at position p of the calendar), so a final
      month that the window does not reach the end of is left out;
      IndexError when the window ends on the calendar's last date. */
  lemma MapIterDatesExcludeLast(rows: seq<string>, ms: seq<Month>, bgn: string, stp: string) returns (i: nat, k: nat, p: nat)
    requires WellFormed(rows) && GroupedBy(rows, ms)
    requires |Calendar.Window(rows, bgn, stp)| > 0
    ensures var iter := Calendar.Window(rows, bgn, stp);
      i < |ms| && k < |ms| && p < |rows| && ms[i].tradeMonth == MonthKey(iter[0]) && rows[p] == iter[|iter| - 1]
    ensures p + 1 < |rows| ==> ms[k].tradeMonth == MonthKey(rows[p + 1])
    ensures rows[p] == rows[|rows| - 1] <==> p + 1 == |rows|
    ensures var iter := Calendar.Window(rows, bgn, stp);
      MapIterDatesToIterMonth(ms, bgn, stp, Calendar.Calendar(rows), true)
         == if p + 1 == |rows| then Err(IndexError) else Ok(if i <= k then ms[i..k] else [])
  {
    var iter := Calendar.Window(rows, bgn, stp);
    Calendar.WindowMembers(rows, bgn, stp, iter[0]);
    Calendar.WindowMembers(rows, bgn, stp, iter[|iter| - 1]);
    i := MatchMonthFromDateOfRow(rows, ms, iter[0]);
    p :| 0 <= p < |rows| && rows[p] == iter[|iter| - 1];
    var c := Calendar.Calendar(rows);
    NextOfLast(c, p);
    ExcludeLastAtEndIff(rows, p);
    if p + 1 < |rows| {
      k := MatchMonthFromDateOfRow(rows, ms, rows[p + 1]);
      ExcludeLastFound(c, ms, iter, i, k, p);
    } else {
      k := i;
      ExcludeLastAtEnd(c, ms, iter, i, p);
    }
    assert MapIterDatesToIterMonth(ms, bgn, stp, c, true) == MapIter(ms, iter, c, true);
  }

  /** The trade date after position p of a calendar: the next position's
      date, IndexError at the last position. */
  lemma NextOfLast(c: Calendar.Calendar, p: nat)
    requires Calendar.Sorted(c) && p < |c.dates|
    ensures p + 1 < |c.dates| ==> Calendar.GetNextDate(c, c.dates[p], 1) == Ok(c.dates[p + 1])
    ensures p + 1 == |c.dates| ==> Calendar.GetNextDate(c, c.dates[p], 1) == Err(IndexError)
  {
    if p + 1 < |c.dates| {
      Calendar.NextOfPosition(c, p, 1);
    } else {
      Calendar.GetSnOfDate(c, p);
    }
  }

  /** The window ends on the calendar's last date exactly when no trade
      date follows it. */
  lemma ExcludeLastAtEndIff(rows: seq<string>, p: nat)
    requires StrictlySorted(rows) && p < |rows|
    ensures rows[p] == rows[|rows| - 1] <==> p + 1 == |rows|
  {
    if p + 1 < |rows| {
      StrictlySortedDistinct(rows, p, |rows| - 1);
    }
  }

  /** MapIterDatesExcludeLast when the window's last date, at position p,
      has a next trade date whose month is at k. */
  lemma ExcludeLastFound(c: Calendar.Calendar, ms: seq<Month>, iter: seq<string>, i: nat, k: nat, p: nat)
    requires StrictlySorted(MonthIds(ms))
    requires |iter| > 0 && i < |ms| && k < |ms| && p + 1 < |c.dates|
    requires MatchMonthFromDate(ms, iter[0]) == Ok(Some(ms[i]))
    requires c.dates[p] == iter[|iter| - 1]
    requires Calendar.GetNextDate(c, c.dates[p], 1) == Ok(c.dates[p + 1])
    requires MatchMonthFromDate(ms, c.dates[p + 1]) == Ok(Some(ms[k]))
    ensures MapIter(ms, iter, c, true) == Ok(if i <= k then ms[i..k] else [])
  {
    StopMonthAfter(ms, c, c.dates[p], c.dates[p + 1]);
    MapIterDatesFound(ms, iter, c, true, i, k);
  }

  /** MapIterDatesExcludeLast when the window ends on the calendar's last
      date. */
  lemma ExcludeLastAtEnd(c: Calendar.Calendar, ms: seq<Month>, iter: seq<string>, i: nat, p: nat)
    requires p + 1 == |c.dates| && |iter| > 0 && i < |ms|
    requires MatchMonthFromDate(ms, iter[0]) == Ok(Some(ms[i]))
    requires c.dates[p] == iter[|iter| - 1]
    requires Calendar.GetNextDate(c, c.dates[p], 1) == Err(IndexError)
    ensures MapIter(ms, iter, c, true) == Err(IndexError)
  {
    MapIterDatesStopFails(ms, iter, c, true, IndexError);
  }

  /** With exclude_last the stop month is the month of the next trade
      date. */
  lemma StopMonthAfter(ms: seq<Month>, c: Calendar.Calendar, last: string, next: string)
    requires Calendar.GetNextDate(c, last, 1) == Ok(next)
    ensures StopMonth(ms, c, last, true) == MatchMonthFromDate(ms, next)
  {
  }

  /** The months from ms[i] through ms[j] are those with a key between
      theirs. */
  lemma SliceThrough(ms: seq<Month>, i: nat, j: nat)
    requires StrictlySorted(MonthIds(ms)) && i < |ms| && j + 1 < |ms|
    ensures forall x :: x in (if i <= j + 1 then ms[i..j + 1] else []) <==>
      (x in ms && LessEq(ms[i].tradeMonth, x.tradeMonth) && LessEq(x.tradeMonth, ms[j].tradeMonth))
  {
    GetIterMonthsAt(ms, i, j + 1);
    forall x | x in ms ensures Less(x.tradeMonth, ms[j + 1].tradeMonth) <==> LessEq(x.tradeMonth, ms[j].tradeMonth) {
      BelowNextKey(ms, j, x);
    }
  }

  /** `get_bgn_and_end_dates_for_trailing_window(end, n)` as written: the
      first month comes from `get_next_month(end, 1 - n)` and may wrap. */
  function TrailingWindowAsWritten(ms: seq<Month>, endMonth: Month, trnWin: int): (r: Result<(string, string)>)
    ensures IndexOfMonth(ms, endMonth).Err? ==> r == Err(ValueError)
    ensures IndexOfMonth(ms, endMonth).Ok? && IndexOfMonth(ms, endMonth).value + 1 >= trnWin ==>
      r == TrailingWindow(ms, endMonth, trnWin)
    ensures IndexOfMonth(ms, endMonth).Ok? ==> var k := IndexOfMonth(ms, endMonth).value + 1 - trnWin;
      -|ms| <= k < 0 && |ms[|ms| + k].tradeDates| > 0 && |endMonth.tradeDates| > 0 ==>
      r == Ok((ms[|ms| + k].tradeDates[0], endMonth.tradeDates[|endMonth.tradeDates| - 1]))
  {
    var bm :- GetNextMonthAsWritten(ms, endMonth, -trnWin + 1);
    var b :- BgnDate(bm);
    var e :- EndDate(endMonth);
    Ok((b, e))
  }

  /** The trailing window with the documented month step. */
  function TrailingWindow(ms: seq<Month>, endMonth: Month, trnWin: int): (r: Result<(string, string)>)
    ensures r.Ok? ==> IndexOfMonth(ms, endMonth).Ok? && IndexOfMonth(ms, endMonth).value + 1 >= trnWin
  {
    var bm :- GetNextMonth(ms, endMonth, -trnWin + 1);
    var b :- BgnDate(bm);
    var e :- EndDate(endMonth);
    Ok((b, e))
  }

  /** On a month list with increasing keys, the window ending with month i
      spans the n months i-n+1 .. i: it starts on the first date of month
      i-n+1 and ends on the last date of month i, and it fails when fewer
      than n months are available. */
  lemma TrailingWindowSpan(ms: seq<Month>, i: nat, n: int)
    requires StrictlySorted(MonthIds(ms)) && i < |ms|
    requires forall k :: 0 <= k < |ms| ==> |ms[k].tradeDates| > 0
    requires 1 <= n
    ensures TrailingWindow(ms, ms[i], n).Ok? <==> n <= i + 1
    ensures n <= i + 1 ==> (TrailingWindow(ms, ms[i], n)
         == Ok((ms[i + 1 - n].tradeDates[0], ms[i].tradeDates[|ms[i].tradeDates| - 1])))
  {
    IndexOfMonthAt(ms, i);
  }

  /** As written, a window longer than the months before it wraps to the
      end of the list: on two months, a two-month window ending with the
      first month starts in the second month, after its own end. */
  lemma TrailingWindowWraps()
    ensures var ms := [Month("202401", ["20240102", "20240131"]), Month("202402", ["20240201", "20240229"])];
      TrailingWindowAsWritten(ms, ms[0], 2) == Ok(("20240201", "20240131")) &&
      TrailingWindow(ms, ms[0], 2) == Err(IndexError)
  {
    var ms := [Month("202401", ["20240102", "20240131"]), Month("202402", ["20240201", "20240229"])];
    assert MonthIds(ms) == ["202401", "202402"];
    assert IndexOfMonth(ms, ms[0]) == Ok(0);
  }
}
