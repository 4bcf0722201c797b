/**
 * The month and week helpers of CCalendar in src/husfort/qcalendar.py:
 * month-end days, first/last trade day of a month, grouping dates by month
 * or by week-end day, the "YYYYMMDD" <-> "YYYY-MM-DD" converters and the
 * "YYYYMM" month arithmetic.
 */
module CalendarGroups {

  import opened Wrappers
  import opened PyStr
  import PyInt
  import PySeq
  import Dicts
  import Numeric
  import StrSort
  import opened Calendar

  /* ---------------------------------------------------------- month ends */

  /** The "YYYYMM" part of a "YYYYMMDD" date (`d[0:6]`). */
  function MonthOf(d: string): string {
    Take(d, 6)
  }

  /** Position i holds the last trade date of its month: the next calendar
      date lies in another month. */
  predicate MonthEndAt(ds: seq<string>, i: int) {
    0 <= i < |ds| - 1 && MonthOf(ds[i]) != MonthOf(ds[i + 1])
  }

  /** The loop of `get_last_days_in_range` over consecutive date pairs. */
  function LastDays(ds: seq<string>, bgn: string, stp: string): (r: seq<string>)
    ensures forall x :: x in r ==> x in ds
    decreases |ds|
  {
    if |ds| < 2 then []
    else if Less(ds[0], bgn) then LastDays(ds[1..], bgn, stp)
    else if !Less(ds[0], stp) then []
    else (if MonthOf(ds[0]) != MonthOf(ds[1]) then [ds[0]] else []) + LastDays(ds[1..], bgn, stp)
  }

  /** `get_last_days_in_range(bgn, stp)`: on a sorted calendar, the dates
      d with bgn <= d < stp whose successor lies in another month. */
  function LastDaysInRange(c: Calendar, bgn: string, stp: string): (r: seq<string>)
    ensures forall x :: x in r ==> x in c.dates
    ensures Sorted(c) ==> forall x :: x in r <==>
      LessEq(bgn, x) && Less(x, stp) && exists i :: MonthEndAt(c.dates, i) && c.dates[i] == x
  {
    LastDaysMembersAll(c.dates, bgn, stp);
    LastDays(c.dates, bgn, stp)
  }

  lemma LastDaysMembersAll(ds: seq<string>, bgn: string, stp: string)
    ensures StrictlySorted(ds) ==> forall x :: x in LastDays(ds, bgn, stp) <==>
      LessEq(bgn, x) && Less(x, stp) && exists i :: MonthEndAt(ds, i) && ds[i] == x
  {
    if StrictlySorted(ds) {
      forall x ensures x in LastDays(ds, bgn, stp) <==>
        LessEq(bgn, x) && Less(x, stp) && exists i :: MonthEndAt(ds, i) && ds[i] == x
      {
        LastDaysMembers(ds, bgn, stp, x);
      }
    }
  }

  /** On a sorted calendar the result holds exactly the month-end dates d
      with bgn <= d < stp. The very last calendar date has no successor and
      is never reported. */
  lemma {:induction false} LastDaysMembers(ds: seq<string>, bgn: string, stp: string, x: string)
    requires StrictlySorted(ds)
    ensures x in LastDays(ds, bgn, stp) <==>
      LessEq(bgn, x) && Less(x, stp) && exists i :: MonthEndAt(ds, i) && ds[i] == x
    decreases |ds|
  {
    if |ds| >= 2 {
      var t := ds[1..];
      assert StrictlySorted(t);
      LastDaysMembers(t, bgn, stp, x);
      var e := exists i :: MonthEndAt(ds, i) && ds[i] == x;
      var et := exists i :: MonthEndAt(t, i) && t[i] == x;
      assert e <==> (MonthEndAt(ds, 0) && ds[0] == x) || et by {
        if e {
          var i :| MonthEndAt(ds, i) && ds[i] == x;
          if i > 0 {
            assert MonthEndAt(t, i - 1) && t[i - 1] == x;
          }
        }
        if et {
          var i :| MonthEndAt(t, i) && t[i] == x;
          assert MonthEndAt(ds, i + 1) && ds[i + 1] == x;
        }
      }
      if Less(ds[0], bgn) {
        LessIrreflexive(ds[0]);
        LessAsymmetric(ds[0], bgn);
      } else if !Less(ds[0], stp) {
        if LessEq(bgn, x) && Less(x, stp) && e {
          var i :| MonthEndAt(ds, i) && ds[i] == x;
          if i > 0 {
            LessTransitive(ds[0], ds[i], stp);
          }
        }
      } else {
        LessTotal(ds[0], bgn);
      }
    }
  }

  /** The last position whose date is at most `t`, scanning from the end. */
  function LastAtMost(ds: seq<string>, t: string): (r: Option<nat>)
    ensures r.Some? ==> r.value < |ds| && LessEq(ds[r.value], t)
    ensures r.Some? ==> forall j :: r.value < j < |ds| ==> !LessEq(ds[j], t)
    ensures r.None? ==> forall j :: 0 <= j < |ds| ==> !LessEq(ds[j], t)
    decreases |ds|
  {
    if |ds| == 0 then None
    else if LessEq(ds[|ds| - 1], t) then Some(|ds| - 1)
    else LastAtMost(ds[..|ds| - 1], t)
  }

  /** The first position whose date is at least `t`. */
  function FirstAtLeast(ds: seq<string>, t: string): (r: Option<nat>)
    ensures r.Some? ==> r.value < |ds| && LessEq(t, ds[r.value])
    ensures r.Some? ==> forall j :: 0 <= j < r.value ==> !LessEq(t, ds[j])
    ensures r.None? ==> forall j :: 0 <= j < |ds| ==> !LessEq(t, ds[j])
    decreases |ds|
  {
    if |ds| == 0 then None
    else if LessEq(t, ds[0]) then Some(0)
    else
      match FirstAtLeast(ds[1..], t)
      case Some(i) => Some(i + 1)
      case None => None
  }

  /** `get_last_day_of_month(month)`: the last calendar date not after
      month + "31"; ValueError when every date is later. */
  function LastDayOfMonth(c: Calendar, month: string): (r: Result<string>)
    ensures r.Err? <==> forall j :: 0 <= j < |c.dates| ==> !LessEq(c.dates[j], month + "31")
    ensures r.Err? ==> r.error == ValueError
    ensures r.Ok? ==> r.value in c.dates && LessEq(r.value, month + "31")
  {
    match LastAtMost(c.dates, month + "31")
    case Some(i) => Ok(c.dates[i])
    case None => Err(ValueError)
  }

  /** `get_first_day_of_month(month)`: the first calendar date not before
      month + "01"; ValueError when every date is earlier. */
  function FirstDayOfMonth(c: Calendar, month: string): (r: Result<string>)
    ensures r.Err? <==> forall j :: 0 <= j < |c.dates| ==> !LessEq(month + "01", c.dates[j])
    ensures r.Err? ==> r.error == ValueError
    ensures r.Ok? ==> r.value in c.dates && LessEq(month + "01", r.value)
  {
    match FirstAtLeast(c.dates, month + "01")
    case Some(i) => Ok(c.dates[i])
    case None => Err(ValueError)
  }

  /** On a sorted calendar the last day of the month is the greatest date at
      most month + "31". */
  lemma LastDayOfMonthGreatest(c: Calendar, month: string, d: string)
    requires Sorted(c) && d in c.dates && LessEq(d, month + "31")
    ensures LastDayOfMonth(c, month).Ok?
    ensures LessEq(d, LastDayOfMonth(c, month).value)
  {
    var i := LastAtMost(c.dates, month + "31").value;
    var j :| 0 <= j < |c.dates| && c.dates[j] == d;
    assert j <= i;
    if j < i {
      assert Less(c.dates[j], c.dates[i]);
    }
  }

  /** On a sorted calendar the first day of the month is the least date at
      least month + "01". */
  lemma FirstDayOfMonthLeast(c: Calendar, month: string, d: string)
    requires Sorted(c) && d in c.dates && LessEq(month + "01", d)
    ensures FirstDayOfMonth(c, month).Ok?
    ensures LessEq(FirstDayOfMonth(c, month).value, d)
  {
    var i := FirstAtLeast(c.dates, month + "01").value;
    var j :| 0 <= j < |c.dates| && c.dates[j] == d;
    assert i <= j;
    if i < j {
      assert Less(c.dates[i], c.dates[j]);
    }
  }

  /* ------------------------------------------------------ month grouping */

  /** The dates of `ds` that fall in month m, in their original order. */
  function OfMonth(ds: seq<string>, m: string): (r: seq<string>)
    ensures forall x :: x in r <==> x in ds && MonthOf(x) == m
    decreases |ds|
  {
    if |ds| == 0 then []
    else
      assert ds == ds[..|ds| - 1] + [ds[|ds| - 1]];
      OfMonth(ds[..|ds| - 1], m) + (if MonthOf(ds[|ds| - 1]) == m then [ds[|ds| - 1]] else [])
  }

  /** `split_by_month(dates)`: each month present maps to its dates in order;
      months come in order of first appearance. */
  function SplitByMonth(ds: seq<string>): (r: Dicts.Dict<string, seq<string>>)
    ensures Dicts.Valid(r)
    decreases |ds|
  {
    if |ds| == 0 then []
    else
      var prev := SplitByMonth(ds[..|ds| - 1]);
      var t := ds[|ds| - 1];
      var m := MonthOf(t);
      var group := if Dicts.Has(prev, m) then Dicts.Get(prev, m).value + [t] else [t];
      Dicts.PutValid(prev, m, group);
      Dicts.Put(prev, m, group)
  }

  /** A month is a key of `split_by_month(dates)` exactly when some date
      falls in it, and its entry lists those dates in order. */
  lemma {:induction false} SplitByMonthGroups(ds: seq<string>, m: string)
    ensures Dicts.Has(SplitByMonth(ds), m) <==> OfMonth(ds, m) != []
    ensures Dicts.GetOr(SplitByMonth(ds), m, []) == OfMonth(ds, m)
    decreases |ds|
  {
    if |ds| > 0 {
      var pre := ds[..|ds| - 1];
      SplitByMonthGroups(pre, m);
      var prev := SplitByMonth(pre);
      var t := ds[|ds| - 1];
      var mt := MonthOf(t);
      var group := if Dicts.Has(prev, mt) then Dicts.Get(prev, mt).value + [t] else [t];
      var r := Dicts.Put(prev, mt, group);
      assert SplitByMonth(ds) == r;
      if mt == m {
        assert group == OfMonth(pre, m) + [t];
        assert Dicts.Get(r, m) == Some(group);
      } else {
        assert Dicts.Get(r, m) == Dicts.Get(prev, m);
        assert OfMonth(ds, m) == OfMonth(pre, m);
      }
    }
  }

  /* ---------------------------------------------------- week grouping */

  /** What `split_by_week_end_days` expects of its arguments: both lists
      increasing and every week-end day one of the dates. */
  predicate WeekEnds(ds: seq<string>, ws: seq<string>) {
    StrictlySorted(ds) && StrictlySorted(ws) && forall k :: 0 <= k < |ws| ==> ws[k] in ds
  }

  /** Where the k-th week-end day sits among the dates. */
  function WeekEndPos(ds: seq<string>, ws: seq<string>, k: nat): (p: nat)
    requires WeekEnds(ds, ws) && k < |ws|
    ensures p < |ds| && ds[p] == ws[k]
  {
    PySeq.IndexOf(ds, ws[k]).value
  }

  /** In an increasing list a smaller element sits earlier. */
  lemma SortedPositions(ds: seq<string>, i: nat, j: nat)
    requires StrictlySorted(ds) && i < |ds| && j < |ds| && Less(ds[i], ds[j])
    ensures i < j
  {
    if i == j {
      LessIrreflexive(ds[i]);
    } else if j < i {
      LessAsymmetric(ds[j], ds[i]);
    }
  }

  lemma WeekEndPosIncreasing(ds: seq<string>, ws: seq<string>, a: nat, b: nat)
    requires WeekEnds(ds, ws) && a < b < |ws|
    ensures WeekEndPos(ds, ws, a) < WeekEndPos(ds, ws, b)
  {
    SortedPositions(ds, WeekEndPos(ds, ws, a), WeekEndPos(ds, ws, b));
  }

  /** One past the last date grouped under week-end day k: the next
      week-end day itself is included, the last group runs to the end. */
  function GroupEnd(ds: seq<string>, ws: seq<string>, k: nat): (e: nat)
    requires WeekEnds(ds, ws) && k < |ws|
    ensures WeekEndPos(ds, ws, k) < e <= |ds|
  {
    if k + 1 < |ws| then
      WeekEndPosIncreasing(ds, ws, k, k + 1);
      WeekEndPos(ds, ws, k + 1) + 1
    else |ds|
  }

  /** The dates grouped under week-end day k. */
  function WeekGroup(ds: seq<string>, ws: seq<string>, k: nat): seq<string>
    requires WeekEnds(ds, ws) && k < |ws|
  {
    ds[WeekEndPos(ds, ws, k) + 1..GroupEnd(ds, ws, k)]
  }

  lemma SortedPositionsEq(ds: seq<string>, i: nat, j: nat)
    requires StrictlySorted(ds) && i < |ds| && j < |ds| && LessEq(ds[i], ds[j])
    ensures i <= j
  {
    if j < i {
      assert Less(ds[j], ds[i]);
      LessIrreflexive(ds[i]);
      if Less(ds[i], ds[j]) {
        LessAsymmetric(ds[j], ds[i]);
      }
    }
  }

  /** A week group holds the dates after its week-end day, up to and
      including the next week-end day (all later dates for the last). */
  lemma WeekGroupMembers(ds: seq<string>, ws: seq<string>, k: nat, x: string)
    requires WeekEnds(ds, ws) && k < |ws|
    ensures x in WeekGroup(ds, ws, k) <==>
      x in ds && Less(ws[k], x) && (k + 1 < |ws| ==> LessEq(x, ws[k + 1]))
  {
    if x in WeekGroup(ds, ws, k) {
      WeekGroupSound(ds, ws, k, x);
    }
    if x in ds && Less(ws[k], x) && (k + 1 < |ws| ==> LessEq(x, ws[k + 1])) {
      WeekGroupComplete(ds, ws, k, x);
    }
  }

  lemma WeekGroupSound(ds: seq<string>, ws: seq<string>, k: nat, x: string)
    requires WeekEnds(ds, ws) && k < |ws| && x in WeekGroup(ds, ws, k)
    ensures x in ds && Less(ws[k], x) && (k + 1 < |ws| ==> LessEq(x, ws[k + 1]))
  {
    var lo, hi := WeekEndPos(ds, ws, k), GroupEnd(ds, ws, k);
    var g := WeekGroup(ds, ws, k);
    var a :| 0 <= a < |g| && g[a] == x;
    var i := lo + 1 + a;
    assert ds[i] == x;
    assert Less(ds[lo], ds[i]);
    if k + 1 < |ws| && i < hi - 1 {
      assert Less(ds[i], ds[hi - 1]);
    }
  }

  lemma WeekGroupComplete(ds: seq<string>, ws: seq<string>, k: nat, x: string)
    requires WeekEnds(ds, ws) && k < |ws|
    requires x in ds && Less(ws[k], x) && (k + 1 < |ws| ==> LessEq(x, ws[k + 1]))
    ensures x in WeekGroup(ds, ws, k)
  {
    var lo, hi := WeekEndPos(ds, ws, k), GroupEnd(ds, ws, k);
    var i :| 0 <= i < |ds| && ds[i] == x;
    SortedPositions(ds, lo, i);
    if k + 1 < |ws| {
      SortedPositionsEq(ds, i, hi - 1);
    }
    assert WeekGroup(ds, ws, k)[i - lo - 1] == x;
  }

  /** The entries for week-end days k.. as the backward scan stores them:
      latest week-end day first. */
  function Reached(ds: seq<string>, ws: seq<string>, k: nat): (r: Dicts.Dict<string, seq<string>>)
    requires WeekEnds(ds, ws) && k <= |ws|
    ensures |r| == |ws| - k
    ensures forall i :: 0 <= i < |r| ==> r[i] == (ws[|ws| - 1 - i], WeekGroup(ds, ws, |ws| - 1 - i))
    decreases |ws| - k
  {
    if k == |ws| then [] else Reached(ds, ws, k + 1) + [(ws[k], WeekGroup(ds, ws, k))]
  }

  lemma ReachedLacks(ds: seq<string>, ws: seq<string>, k: nat)
    requires WeekEnds(ds, ws) && k < |ws|
    ensures !Dicts.Has(Reached(ds, ws, k + 1), ws[k])
  {
    var r := Reached(ds, ws, k + 1);
    forall i | 0 <= i < |r| ensures r[i].0 != ws[k] {
      assert r[i].0 == ws[|ws| - 1 - i];
      StrictlySortedDistinct(ws, |ws| - 1 - i, k);
    }
    Dicts.KeysAvoid(r, ws[k]);
  }

  lemma ReachedKeys(ds: seq<string>, ws: seq<string>)
    requires WeekEnds(ds, ws)
    ensures Dicts.Keys(Reached(ds, ws, 0)) == PySeq.Reverse(ws)
  {
    var r := Reached(ds, ws, 0);
    assert forall i :: 0 <= i < |r| ==> Dicts.Keys(r)[i] == PySeq.Reverse(ws)[i];
  }

  lemma ReachedValid(ds: seq<string>, ws: seq<string>)
    requires WeekEnds(ds, ws)
    ensures Dicts.Valid(Reached(ds, ws, 0))
    ensures Dicts.Keys(Reached(ds, ws, 0)) == PySeq.Reverse(ws)
  {
    ReachedKeys(ds, ws);
    ReverseDistinct(ws);
  }

  /** An increasing list read backwards repeats nothing. */
  lemma ReverseDistinct(ws: seq<string>)
    requires StrictlySorted(ws)
    ensures PySeq.Distinct(PySeq.Reverse(ws))
  {
    var rw := PySeq.Reverse(ws);
    forall a, b | 0 <= a < b < |rw| ensures rw[a] != rw[b] {
      StrictlySortedDistinct(ws, |ws| - 1 - a, |ws| - 1 - b);
    }
  }

  /** Before the current week-end day no date is at most it; at its
      position the date is it. */
  lemma WeekEndStep(ds: seq<string>, ws: seq<string>, k: nat, p: nat)
    requires WeekEnds(ds, ws) && k < |ws| && WeekEndPos(ds, ws, k) <= p < |ds|
    ensures LessEq(ds[p], ws[k]) <==> p == WeekEndPos(ds, ws, k)
  {
    var q := WeekEndPos(ds, ws, k);
    if q < p {
      assert Less(ds[q], ds[p]);
      LessIrreflexive(ds[p]);
      LessAsymmetric(ds[q], ds[p]);
    }
  }

  /** The multiset of the reversed list is the multiset of the list. */
  lemma ReverseMultiset(s: seq<string>)
    ensures multiset(PySeq.Reverse(s)) == multiset(s)
    decreases |s|
  {
    if |s| > 0 {
      var r := PySeq.Reverse(s);
      ReverseMultiset(s[1..]);
      assert r == PySeq.Reverse(s[1..]) + [s[0]];
      assert s == [s[0]] + s[1..];
    }
  }

  /** The state of the backward scan while week-end day idx is current and
      position p is next: the buffer holds the dates after p that belong to
      idx, and every later week-end day has been stored. */
  predicate ScanState(ds: seq<string>, ws: seq<string>, idx: nat, p: int,
                      buffer: seq<string>, res: Dicts.Dict<string, seq<string>>)
    requires WeekEnds(ds, ws) && idx < |ws|
  {
    WeekEndPos(ds, ws, idx) <= p < GroupEnd(ds, ws, idx)
    && buffer == ds[p + 1..GroupEnd(ds, ws, idx)]
    && res == Reached(ds, ws, idx + 1)
  }

  lemma ScanInit(ds: seq<string>, ws: seq<string>)
    requires WeekEnds(ds, ws) && |ws| > 0
    ensures ScanState(ds, ws, |ws| - 1, |ds| - 1, [], [])
  {
  }

  /** A date after the current week-end day joins the front of the buffer. */
  lemma ScanKeep(ds: seq<string>, ws: seq<string>, idx: nat, p: int,
                 buffer: seq<string>, res: Dicts.Dict<string, seq<string>>)
    requires WeekEnds(ds, ws) && idx < |ws| && ScanState(ds, ws, idx, p, buffer, res)
    requires !LessEq(ds[p], ws[idx])
    ensures ScanState(ds, ws, idx, p - 1, [ds[p]] + buffer, res)
  {
    assert p != WeekEndPos(ds, ws, idx);
    assert [ds[p]] + buffer == ds[p..GroupEnd(ds, ws, idx)];
  }

  /** Reaching the current week-end day stores its group. */
  lemma ScanStore(ds: seq<string>, ws: seq<string>, idx: nat, p: int,
                  buffer: seq<string>, res: Dicts.Dict<string, seq<string>>)
    requires WeekEnds(ds, ws) && idx < |ws| && ScanState(ds, ws, idx, p, buffer, res)
    requires LessEq(ds[p], ws[idx])
    ensures p == WeekEndPos(ds, ws, idx)
    ensures Dicts.Put(res, ws[idx], buffer) == Reached(ds, ws, idx)
  {
    WeekEndStep(ds, ws, idx, p);
    assert buffer == WeekGroup(ds, ws, idx);
    ReachedLacks(ds, ws, idx);
    Dicts.PutNew(res, ws[idx], buffer);
    assert Reached(ds, ws, idx) == Reached(ds, ws, idx + 1) + [(ws[idx], WeekGroup(ds, ws, idx))];
  }

  /** After storing, the previous week-end day becomes current and the
      scan goes on with the date just reached as its buffer. */
  lemma ScanNext(ds: seq<string>, ws: seq<string>, idx: nat, p: int,
                 buffer: seq<string>, res: Dicts.Dict<string, seq<string>>)
    requires WeekEnds(ds, ws) && 0 < idx < |ws| && ScanState(ds, ws, idx, p, buffer, res)
    requires LessEq(ds[p], ws[idx])
    ensures p == WeekEndPos(ds, ws, idx)
    ensures ScanState(ds, ws, idx - 1, p - 1, [ds[p]], Reached(ds, ws, idx))
  {
    WeekEndStep(ds, ws, idx, p);
    WeekEndPosIncreasing(ds, ws, idx - 1, idx);
    var e := GroupEnd(ds, ws, idx - 1);
    assert e == p + 1;
    assert [ds[p]] == ds[p..e];
    assert WeekEndPos(ds, ws, idx - 1) <= p - 1 < e;
  }

  /** The store-and-move-on step as the loop performs it. */
  lemma ScanSwitch(ds: seq<string>, ws: seq<string>, idx: nat, p: int,
                   buffer: seq<string>, res: Dicts.Dict<string, seq<string>>)
    requires WeekEnds(ds, ws) && 0 < idx < |ws| && ScanState(ds, ws, idx, p, buffer, res)
    requires LessEq(ds[p], ws[idx])
    ensures ScanState(ds, ws, idx - 1, p - 1, [ds[p]], Dicts.Put(res, ws[idx], buffer))
  {
    ScanStore(ds, ws, idx, p, buffer, res);
    ScanNext(ds, ws, idx, p, buffer, res);
  }

  /** The ascending rebuild of the finished scan. */
  lemma ScanAscending(ds: seq<string>, ws: seq<string>, res: Dicts.Dict<string, seq<string>>)
    requires WeekEnds(ds, ws) && res == Reached(ds, ws, 0)
    ensures StrSort.Sort(Dicts.Keys(res)) == ws
    ensures forall k :: 0 <= k < |ws| ==> Dicts.GetOr(res, ws[k], []) == WeekGroup(ds, ws, k)
  {
    ScanAscendingKeys(ds, ws);
    forall k | 0 <= k < |ws| ensures Dicts.GetOr(res, ws[k], []) == WeekGroup(ds, ws, k) {
      ScanLookup(ds, ws, k);
    }
  }

  /** Sorting the stored keys gives the week-end days back. */
  lemma ScanAscendingKeys(ds: seq<string>, ws: seq<string>)
    requires WeekEnds(ds, ws)
    ensures StrSort.Sort(Dicts.Keys(Reached(ds, ws, 0))) == ws
  {
    ReachedValid(ds, ws);
    ReverseMultiset(ws);
    StrSort.SortPermutationOfSorted(Dicts.Keys(Reached(ds, ws, 0)), ws);
  }

  /** Each week-end day still looks up its own group. */
  lemma ScanLookup(ds: seq<string>, ws: seq<string>, k: nat)
    requires WeekEnds(ds, ws) && k < |ws|
    ensures Dicts.GetOr(Reached(ds, ws, 0), ws[k], []) == WeekGroup(ds, ws, k)
  {
    var r := Reached(ds, ws, 0);
    ReachedValid(ds, ws);
    assert r[|ws| - 1 - k] == (ws[k], WeekGroup(ds, ws, k));
    Dicts.GetEntry(r, |ws| - 1 - k);
  }

  /** The backward scan of `split_by_week_end_days`. The dates are read
      from the latest; each time the scan reaches the current week-end day
      the buffered later dates are stored under it and the previous
      week-end day becomes current. Dates before the first week-end day are
      dropped. */
  method ScanWeeks(ds: seq<string>, ws: seq<string>) returns (res: Dicts.Dict<string, seq<string>>)
    ensures |ws| == 0 ==> res == []
    ensures WeekEnds(ds, ws) ==> res == Reached(ds, ws, 0)
  {
    res := [];
    var idx := |ws| - 1;
    if idx < 0 {
      return;
    }
    var w := ws[idx];
    var buffer: seq<string> := [];
    var p := |ds| - 1;
    var wf := WeekEnds(ds, ws);
    if wf {
      ScanInit(ds, ws);
    }
    while p >= 0
      invariant -1 <= p < |ds|
      invariant 0 <= idx < |ws| && w == ws[idx]
      invariant wf ==> ScanState(ds, ws, idx, p, buffer, res)
      decreases p
    {
      var d := ds[p];
      if LessEq(d, w) {
        if wf {
          ScanStore(ds, ws, idx, p, buffer, res);
          if idx > 0 {
            ScanSwitch(ds, ws, idx, p, buffer, res);
          }
        }
        res := Dicts.Put(res, w, buffer);
        idx := idx - 1;
        if idx < 0 {
          break;
        }
        w := ws[idx];
        buffer := [];
      } else if wf {
        ScanKeep(ds, ws, idx, p, buffer, res);
      }
      buffer := [d] + buffer;
      p := p - 1;
    }
  }

  /** `split_by_week_end_days(dates, week_end_days, ascending)`: each
      week-end day maps to the dates after it up to and including the next
      one (see WeekGroupMembers); descending order as scanned, or rebuilt
      in sorted key order when `ascending`. */
  method SplitByWeekEndDays(ds: seq<string>, ws: seq<string>, ascending: bool)
    returns (res: Dicts.Dict<string, seq<string>>)
    ensures |ws| == 0 ==> res == []
    ensures WeekEnds(ds, ws) && !ascending ==>
      |res| == |ws| && forall k :: 0 <= k < |ws| ==> res[|ws| - 1 - k] == (ws[k], WeekGroup(ds, ws, k))
    ensures WeekEnds(ds, ws) && ascending ==>
      |res| == |ws| && forall k :: 0 <= k < |ws| ==> res[k] == (ws[k], WeekGroup(ds, ws, k))
  {
    res := ScanWeeks(ds, ws);
    if ascending {
      var ks := StrSort.Sort(Dicts.Keys(res));
      if WeekEnds(ds, ws) {
        ScanAscending(ds, ws, res);
      }
      res := seq(|ks|, i requires 0 <= i < |ks| => (ks[i], Dicts.GetOr(res, ks[i], [])));
    }
  }

  /* ---------------------------------------------------- date strings */

  /** `convert_d08_to_d10`: "YYYYMMDD" to "YYYY-MM-DD". */
  function D08ToD10(d: string): (r: string)
    ensures |d| == 8 ==> |r| == 10 && r[4] == '-' && r[7] == '-'
  {
    Slice(d, 0, 4) + "-" + Slice(d, 4, 6) + "-" + Slice(d, 6, 8)
  }

  /** `convert_d10_to_d08`: every "-" removed. */
  function D10ToD08(d: string): (r: string)
    ensures forall i :: 0 <= i < |r| ==> r[i] != '-'
  {
    Without(d, '-')
  }

  predicate NoDash(s: string) {
    forall i :: 0 <= i < |s| ==> s[i] != '-'
  }

  lemma D08RoundTrip(d: string)
    requires |d| == 8 && NoDash(d)
    ensures D10ToD08(D08ToD10(d)) == d
  {
    var a, b, e := d[..4], d[4..6], d[6..];
    assert D08ToD10(d) == a + "-" + b + "-" + e;
    WithoutConcat(a + "-" + b + "-", e, '-');
    WithoutConcat(a + "-" + b, "-", '-');
    WithoutConcat(a + "-", b, '-');
    WithoutConcat(a, "-", '-');
    WithoutAbsent(a, '-');
    WithoutAbsent(b, '-');
    WithoutAbsent(e, '-');
    assert Without("-", '-') == [];
    assert a + b + e == d;
  }

  lemma D10RoundTrip(d: string)
    requires |d| == 10 && d[4] == '-' && d[7] == '-'
    requires NoDash(d[..4]) && NoDash(d[5..7]) && NoDash(d[8..])
    ensures D08ToD10(D10ToD08(d)) == d
  {
    var a, b, e := d[..4], d[5..7], d[8..];
    assert d == a + "-" + b + "-" + e;
    WithoutConcat(a + "-" + b + "-", e, '-');
    WithoutConcat(a + "-" + b, "-", '-');
    WithoutConcat(a + "-", b, '-');
    WithoutConcat(a, "-", '-');
    WithoutAbsent(a, '-');
    WithoutAbsent(b, '-');
    WithoutAbsent(e, '-');
    assert Without("-", '-') == [];
    var s := a + b + e;
    assert D10ToD08(d) == s;
    assert s[..4] == a && s[4..6] == b && s[6..8] == e;
  }

  /* ---------------------------------------------------- month arithmetic */

  /** The arithmetic of `get_next_month`: floor-divide the shift into years
      and months, then carry when the month passes 12. */
  function AddMonths(y: int, m: int, s: int): (r: (int, int))
    ensures 1 <= m <= 12 ==> 1 <= r.1 <= 12 && 12 * r.0 + r.1 == 12 * y + m + s
  {
    var dy := Numeric.FloorDiv(s, 12);
    var dm := Numeric.FloorMod(s, 12);
    var ny := y + dy;
    var nm := m + dm;
    if nm > 12 then (ny + 1, nm - 12) else (ny, nm)
  }

  /** A month count splits into (year, month in 1..12) in one way only. */
  lemma MonthCountUnique(y: int, m: int, y2: int, m2: int)
    requires 1 <= m <= 12 && 1 <= m2 <= 12 && 12 * y + m == 12 * y2 + m2
    ensures y == y2 && m == m2
  {
    assert 12 * (y - y2) == m2 - m;
  }

  /** Shifting back undoes shifting forward. */
  lemma AddMonthsInverse(y: int, m: int, s: int)
    requires 1 <= m <= 12
    ensures AddMonths(AddMonths(y, m, s).0, AddMonths(y, m, s).1, -s) == (y, m)
  {
    var f := AddMonths(y, m, s);
    var b := AddMonths(f.0, f.1, -s);
    MonthCountUnique(b.0, b.1, y, m);
  }

  /** A "YYYYMM" string with a month in 1..12. */
  predicate ValidMonth(month: string) {
    |month| == 6 && AllDigits(month) && 1 <= DecimalValue(month[4..]) <= 12
  }

  function YearOf(month: string): nat
    requires ValidMonth(month)
  {
    DecimalValue(month[..4])
  }

  function MonthNumber(month: string): nat
    requires ValidMonth(month)
  {
    DecimalValue(month[4..])
  }

  /** `get_next_month(month, s)`: `int()` of the year and month parts
      (ValueError on text `int()` rejects), the shift, then
      `f"{ny:04d}{nm:02d}"`. */
  function GetNextMonth(month: string, s: int): (r: Result<string>)
    ensures r.Ok? <==> PyInt.ParseInt(Slice(month, 0, 4), 10).Ok? && PyInt.ParseInt(Slice(month, 4, 6), 10).Ok?
    ensures (|Slice(month, 0, 4)| > 0 && AllDigits(Slice(month, 0, 4)) &&
             |Slice(month, 4, 6)| > 0 && AllDigits(Slice(month, 4, 6))) ==> r.Ok?
    ensures r.Err? ==> r.error == ValueError
  {
    DigitPartsParse(month);
    var y :- PyInt.ParseInt(Slice(month, 0, 4), 10);
    var m :- PyInt.ParseInt(Slice(month, 4, 6), 10);
    var n := AddMonths(y, m, s);
    Ok(ZeroPadded(n.0, 4) + ZeroPadded(n.1, 2))
  }

  /** Parts made of digits parse as their decimal values. */
  lemma DigitPartsParse(month: string)
    ensures |Slice(month, 0, 4)| > 0 && AllDigits(Slice(month, 0, 4)) ==>
      PyInt.ParseInt(Slice(month, 0, 4), 10) == Ok(DecimalValue(Slice(month, 0, 4)) as int)
    ensures |Slice(month, 4, 6)| > 0 && AllDigits(Slice(month, 4, 6)) ==>
      PyInt.ParseInt(Slice(month, 4, 6), 10) == Ok(DecimalValue(Slice(month, 4, 6)) as int)
  {
    if |Slice(month, 0, 4)| > 0 && AllDigits(Slice(month, 0, 4)) {
      PyInt.ParseIntDigits(Slice(month, 0, 4));
    }
    if |Slice(month, 4, 6)| > 0 && AllDigits(Slice(month, 4, 6)) {
      PyInt.ParseIntDigits(Slice(month, 4, 6));
    }
  }

  /** Months counted from year 0. */
  function MonthIndex(month: string): int
    requires ValidMonth(month)
  {
    12 * YearOf(month) + MonthNumber(month)
  }

  /** Distinct valid month strings are distinct months. */
  lemma MonthIndexInjective(a: string, b: string)
    requires ValidMonth(a) && ValidMonth(b) && MonthIndex(a) == MonthIndex(b)
    ensures a == b
  {
    MonthCountUnique(YearOf(a), MonthNumber(a), YearOf(b), MonthNumber(b));
    DecimalValueInjective(a[..4], b[..4]);
    DecimalValueInjective(a[4..], b[4..]);
    assert a == a[..4] + a[4..] && b == b[..4] + b[4..];
  }

  /** `f"{y:04d}{m:02d}"`. */
  function FormatMonth(y: int, m: int): string {
    ZeroPadded(y, 4) + ZeroPadded(m, 2)
  }

  /** Formatting a four-digit year and a month in 1..12 gives a valid month
      string that reads back as the same numbers. */
  lemma FormatMonthValid(y: int, m: int)
    requires 0 <= y < 10000 && 1 <= m <= 12
    ensures ValidMonth(FormatMonth(y, m))
    ensures YearOf(FormatMonth(y, m)) == y && MonthNumber(FormatMonth(y, m)) == m
  {
    assert Pow10(4) == 10000 && Pow10(2) == 100;
    ZeroPaddedFits(y, 4);
    ZeroPaddedFits(m, 2);
    var a, b := ZeroPadded(y, 4), ZeroPadded(m, 2);
    var t := a + b;
    assert t[..4] == a && t[4..] == b;
  }

  /** On a valid month `get_next_month` parses the two numbers it holds. */
  lemma GetNextMonthParses(month: string, s: int)
    requires ValidMonth(month)
    ensures GetNextMonth(month, s)
         == Ok(FormatMonth(AddMonths(YearOf(month), MonthNumber(month), s).0,
                           AddMonths(YearOf(month), MonthNumber(month), s).1))
  {
    assert Slice(month, 0, 4) == month[..4] && Slice(month, 4, 6) == month[4..];
    PyInt.ParseIntDigits(month[..4]);
    PyInt.ParseIntDigits(month[4..]);
  }

  /** For a valid month whose shifted year has four digits, the result is a
      valid month exactly s months later. */
  lemma GetNextMonthValue(month: string, s: int)
    requires ValidMonth(month)
    requires 0 <= AddMonths(YearOf(month), MonthNumber(month), s).0 < 10000
    ensures GetNextMonth(month, s).Ok?
    ensures ValidMonth(GetNextMonth(month, s).value)
    ensures MonthIndex(GetNextMonth(month, s).value) == MonthIndex(month) + s
  {
    var n := AddMonths(YearOf(month), MonthNumber(month), s);
    GetNextMonthParses(month, s);
    FormatMonthValid(n.0, n.1);
  }

  /** A valid month string is the formatting of its own numbers. */
  lemma FormatMonthOfValid(month: string)
    requires ValidMonth(month)
    ensures FormatMonth(YearOf(month), MonthNumber(month)) == month
  {
    DecimalValueBound(month[..4]);
    assert Pow10(4) == 10000;
    FormatMonthValid(YearOf(month), MonthNumber(month));
    MonthIndexInjective(FormatMonth(YearOf(month), MonthNumber(month)), month);
  }

  lemma AddMonthsBack(t: string, month: string, s: int)
    requires ValidMonth(t) && ValidMonth(month) && MonthIndex(t) == MonthIndex(month) + s
    ensures AddMonths(YearOf(t), MonthNumber(t), -s) == (YearOf(month), MonthNumber(month))
  {
    var back := AddMonths(YearOf(t), MonthNumber(t), -s);
    MonthCountUnique(back.0, back.1, YearOf(month), MonthNumber(month));
  }

  /** Moving s months and back returns the original month string. */
  lemma GetNextMonthRoundTrip(month: string, s: int)
    requires ValidMonth(month)
    requires 0 <= AddMonths(YearOf(month), MonthNumber(month), s).0 < 10000
    ensures GetNextMonth(month, s).Ok?
    ensures GetNextMonth(GetNextMonth(month, s).value, -s) == Ok(month)
  {
    GetNextMonthValue(month, s);
    GetNextMonthBack(GetNextMonth(month, s).value, month, s);
  }

  /** From a valid month s months after `month`, moving -s months gives
      `month` back. */
  lemma GetNextMonthBack(t: string, month: string, s: int)
    requires ValidMonth(t) && ValidMonth(month) && MonthIndex(t) == MonthIndex(month) + s
    ensures GetNextMonth(t, -s) == Ok(month)
  {
    AddMonthsBack(t, month, s);
    FormatMonthOfValid(month);
    GetNextMonthParsesTo(t, -s, YearOf(month), MonthNumber(month));
  }

  /** `get_next_month` of a valid month formats the shifted numbers. */
  lemma GetNextMonthParsesTo(t: string, s: int, y: int, m: int)
    requires ValidMonth(t) && AddMonths(YearOf(t), MonthNumber(t), s) == (y, m)
    ensures GetNextMonth(t, s) == Ok(FormatMonth(y, m))
  {
    GetNextMonthParses(t, s);
  }
}
