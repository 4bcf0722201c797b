/**
 * The trading calendar of src/husfort/qcalendar.py (class CCalendar): an
 * ordered list of "YYYYMMDD" trade dates with window selection, neighbour
 * lookup, month and week grouping, and the date-string helpers.
 */
module Calendar {

  import opened Wrappers
  import opened PyStr
  import PySeq
  import Dicts
  import Numeric
  import StrSort

  /** The trade dates as read from the calendar file, "-" removed. */
  datatype Calendar = Calendar(dates: seq<string>)

  function FromRows(rows: seq<string>): (c: Calendar)
    ensures |c.dates| == |rows|
    ensures forall i :: 0 <= i < |rows| ==> c.dates[i] == Without(rows[i], '-')
  {
    Calendar(seq(|rows|, i requires 0 <= i < |rows| => Without(rows[i], '-')))
  }

  /** A trading calendar lists each date once, in increasing order. */
  predicate Sorted(c: Calendar) {
    StrictlySorted(c.dates)
  }

  /* ------------------------------------------------------------ windows */

  /** The loop of `get_iter_list`: skip dates before `bgn`, stop at the
      first date at or after `stp`, keep the rest. */
  function Window(ds: seq<string>, bgn: string, stp: string): (r: seq<string>)
    ensures |r| <= |ds|
    ensures forall x :: x in r ==> x in ds
  {
    if |ds| == 0 then []
    else if Less(ds[0], bgn) then Window(ds[1..], bgn, stp)
    else if !Less(ds[0], stp) then []
    else [ds[0]] + Window(ds[1..], bgn, stp)
  }

  /** `get_iter_list(bgn, stp, ascending)`: on a sorted calendar, the trade
      dates d with bgn <= d < stp, ascending or descending. */
  function IterList(c: Calendar, bgn: string, stp: string, ascending: bool): (r: seq<string>)
    ensures ascending ==> r == Window(c.dates, bgn, stp)
    ensures !ascending ==> r == PySeq.Reverse(StrSort.Sort(Window(c.dates, bgn, stp)))
    ensures |r| == |Window(c.dates, bgn, stp)|
    ensures Sorted(c) ==> forall x :: x in r <==> x in c.dates && LessEq(bgn, x) && Less(x, stp)
  {
    var res := Window(c.dates, bgn, stp);
    WindowMembersAll(c.dates, bgn, stp);
    SortedBackwardsMembers(res);
    if ascending then res else PySeq.Reverse(StrSort.Sort(res))
  }

  lemma WindowMembersAll(ds: seq<string>, bgn: string, stp: string)
    ensures StrictlySorted(ds) ==>
      forall x :: x in Window(ds, bgn, stp) <==> x in ds && LessEq(bgn, x) && Less(x, stp)
  {
    if StrictlySorted(ds) {
      forall x ensures x in Window(ds, bgn, stp) <==> x in ds && LessEq(bgn, x) && Less(x, stp) {
        WindowMembers(ds, bgn, stp, x);
      }
    }
  }

  /** Sorting and reversing keeps the members. */
  lemma SortedBackwardsMembers(s: seq<string>)
    ensures forall x :: x in PySeq.Reverse(StrSort.Sort(s)) <==> x in s
  {
    var t := StrSort.Sort(s);
    ReverseMembers(t);
    forall x ensures x in t <==> x in s {
      assert x in t <==> x in multiset(t);
      assert x in s <==> x in multiset(s);
    }
  }

  lemma ReverseMembers(t: seq<string>)
    ensures forall x :: x in PySeq.Reverse(t) <==> x in t
  {
    var r := PySeq.Reverse(t);
    forall x ensures x in r <==> x in t {
      if x in r {
        var i :| 0 <= i < |r| && r[i] == x;
        assert t[|t| - 1 - i] == x;
      }
      if x in t {
        var i :| 0 <= i < |t| && t[i] == x;
        assert r[|t| - 1 - i] == x;
      }
    }
  }

  /** On a sorted calendar the window holds exactly the dates d with
      bgn <= d < stp. */
  lemma {:induction false} WindowMembers(ds: seq<string>, bgn: string, stp: string, x: string)
    requires StrictlySorted(ds)
    ensures x in Window(ds, bgn, stp) <==> x in ds && LessEq(bgn, x) && Less(x, stp)
    decreases |ds|
  {
    if |ds| > 0 {
      assert StrictlySorted(ds[1..]);
      WindowMembers(ds[1..], bgn, stp, x);
      assert ds == [ds[0]] + ds[1..];
      if Less(ds[0], bgn) {
        if x == ds[0] {
          LessAsymmetric(ds[0], bgn);
          LessIrreflexive(bgn);
        }
      } else if !Less(ds[0], stp) {
        if x in ds && Less(x, stp) {
          var i :| 0 <= i < |ds| && ds[i] == x;
          if i > 0 {
            assert Less(ds[0], x);
            LessTotal(ds[0], stp);
            if ds[0] != stp {
              LessTransitive(stp, ds[0], x);
            }
            LessAsymmetric(stp, x);
          }
        }
      } else {
        LessTotal(ds[0], bgn);
        if x in ds[1..] {
          var i :| 0 <= i < |ds[1..]| && ds[1..][i] == x;
          assert Less(ds[0], x);
          LessEqTransitive(bgn, ds[0], x);
        }
      }
    }
  }

  /** A window of a sorted calendar is itself sorted. */
  lemma WindowSorted(ds: seq<string>, bgn: string, stp: string)
    requires StrictlySorted(ds)
    ensures StrictlySorted(Window(ds, bgn, stp))
  {
    var lo := WindowIsSlice(ds, bgn, stp);
  }

  /** When no date precedes `bgn`, the window is a prefix. */
  lemma {:induction false} WindowPrefix(ds: seq<string>, bgn: string, stp: string)
    requires forall i :: 0 <= i < |ds| ==> !Less(ds[i], bgn)
    ensures Window(ds, bgn, stp) == ds[..|Window(ds, bgn, stp)|]
    decreases |ds|
  {
    if |ds| > 0 && Less(ds[0], stp) {
      WindowPrefix(ds[1..], bgn, stp);
    }
  }

  /** A window of a sorted calendar is a run of consecutive calendar dates. */
  lemma {:induction false} WindowIsSlice(ds: seq<string>, bgn: string, stp: string) returns (lo: nat)
    requires StrictlySorted(ds)
    ensures lo + |Window(ds, bgn, stp)| <= |ds|
    ensures Window(ds, bgn, stp) == ds[lo..lo + |Window(ds, bgn, stp)|]
    decreases |ds|
  {
    if |ds| == 0 {
      lo := 0;
    } else if Less(ds[0], bgn) {
      assert StrictlySorted(ds[1..]);
      var k := WindowIsSlice(ds[1..], bgn, stp);
      lo := k + 1;
    } else if !Less(ds[0], stp) {
      lo := 0;
    } else {
      forall i | 0 <= i < |ds[1..]| ensures !Less(ds[1..][i], bgn) {
        assert Less(ds[0], ds[i + 1]);
        LessTotal(ds[0], bgn);
        if Less(ds[i + 1], bgn) {
          LessTransitive(ds[0], ds[i + 1], bgn);
        }
      }
      WindowPrefix(ds[1..], bgn, stp);
      lo := 0;
    }
  }

  /** `get_iter_list` with ascending=False on a sorted calendar is the
      ascending window read backwards. */
  lemma IterListDescending(c: Calendar, bgn: string, stp: string)
    requires Sorted(c)
    ensures IterList(c, bgn, stp, false) == PySeq.Reverse(IterList(c, bgn, stp, true))
  {
    WindowSorted(c.dates, bgn, stp);
    StrSort.SortStrictlySorted(Window(c.dates, bgn, stp));
  }

  /* ---------------------------------------------------------- neighbours */

  /** `get_sn(d)`: the position of `d`; ValueError if it is not a trade date. */
  function GetSn(c: Calendar, d: string): (r: Result<nat>)
    ensures r.Ok? <==> d in c.dates
    ensures r.Ok? ==> r.value < |c.dates| && c.dates[r.value] == d
    ensures r.Err? ==> r.error == ValueError
  {
    PySeq.IndexOf(c.dates, d)
  }

  /** On a sorted calendar `get_sn` inverts indexing. */
  lemma GetSnOfDate(c: Calendar, i: nat)
    requires Sorted(c) && i < |c.dates|
    ensures GetSn(c, c.dates[i]) == Ok(i)
  {
    forall a, b | 0 <= a < b < |c.dates| ensures c.dates[a] != c.dates[b] {
      StrictlySortedDistinct(c.dates, a, b);
    }
    PySeq.IndexOfDistinct(c.dates, i);
  }

  /** `get_next_date(d, shift)` as written: `dates[get_sn(d) + shift]`, where
      a negative position silently counts from the end of the calendar. */
  function GetNextDateAsWritten(c: Calendar, d: string, shift: int): (r: Result<string>)
    ensures r.Ok? ==> r.value in c.dates
    ensures d !in c.dates ==> r == Err(ValueError)
  {
    var sn :- GetSn(c, d);
    PySeq.At(c.dates, sn + shift)
  }

  /** `get_next_date(d, shift)` as its documentation describes it: the trade
      date `shift` positions later (earlier for a negative shift); a
      position outside the calendar raises IndexError. */
  function GetNextDate(c: Calendar, d: string, shift: int): (r: Result<string>)
    ensures d !in c.dates ==> r == Err(ValueError)
    ensures d in c.dates ==>
      var sn := GetSn(c, d).value;
      (r.Ok? <==> 0 <= sn + shift < |c.dates|) &&
      (r.Ok? ==> r.value == c.dates[sn + shift]) &&
      (r.Err? ==> r.error == IndexError)
  {
    var sn :- GetSn(c, d);
    if 0 <= sn + shift < |c.dates| then Ok(c.dates[sn + shift]) else Err(IndexError)
  }

  /** On a sorted calendar the date `shift` trade dates after position j
      is the one at position j + shift. */
  lemma NextOfPosition(c: Calendar, j: nat, shift: nat)
    requires Sorted(c) && j + shift < |c.dates|
    ensures GetNextDate(c, c.dates[j], shift) == Ok(c.dates[j + shift])
  {
    GetSnOfDate(c, j);
  }

  /** Both readings agree whenever the target position is inside the
      calendar, in particular for every non-negative shift. */
  lemma GetNextDateAgrees(c: Calendar, d: string, shift: int)
    requires d in c.dates
    requires GetSn(c, d).value + shift >= 0
    ensures GetNextDateAsWritten(c, d, shift) == GetNextDate(c, d, shift)
  {
  }

  /** A step forward never wraps, so both readings agree on it. */
  lemma GetNextDateForwardAgrees(c: Calendar, d: string, shift: nat)
    ensures GetNextDateAsWritten(c, d, shift) == GetNextDate(c, d, shift)
  {
    if d in c.dates {
      GetNextDateAgrees(c, d, shift);
    }
  }

  /** The code as written answers a step back from the first trade date
      with the LAST trade date, which on a sorted calendar lies in the
      future; the documented reading raises IndexError instead. */
  lemma GetNextDateWrapsAtStart(c: Calendar)
    requires Sorted(c) && |c.dates| >= 2
    ensures GetNextDateAsWritten(c, c.dates[0], -1) == Ok(c.dates[|c.dates| - 1])
    ensures Less(c.dates[0], c.dates[|c.dates| - 1])
    ensures GetNextDate(c, c.dates[0], -1) == Err(IndexError)
  {
    GetSnOfDate(c, 0);
  }

  /** A concrete instance: on the calendar 20240102, 20240103, 20240104 the
      trade date before 20240102 comes out as 20240104. */
  lemma GetNextDateWrapExample()
    ensures GetNextDateAsWritten(Calendar(["20240102", "20240103", "20240104"]), "20240102", -1)
            == Ok("20240104")
  {
    var c := Calendar(["20240102", "20240103", "20240104"]);
    assert GetSn(c, "20240102") == Ok(0);
  }

  /** On a sorted calendar a positive shift moves forward in time and a
      negative one backward. */
  lemma GetNextDateDirection(c: Calendar, d: string, shift: int)
    requires Sorted(c)
    requires GetNextDate(c, d, shift).Ok?
    ensures shift > 0 ==> Less(d, GetNextDate(c, d, shift).value)
    ensures shift < 0 ==> Less(GetNextDate(c, d, shift).value, d)
    ensures shift == 0 ==> GetNextDate(c, d, shift).value == d
  {
  }

  /** Stepping `shift` days and then `-shift` days returns to the start. */
  lemma GetNextDateRoundTrip(c: Calendar, d: string, shift: int)
    requires Sorted(c)
    requires GetNextDate(c, d, shift).Ok?
    ensures GetNextDate(c, GetNextDate(c, d, shift).value, -shift) == Ok(d)
  {
    var sn := GetSn(c, d).value;
    GetSnOfDate(c, sn + shift);
  }

  /** `get_start_date(bgn, max_win, shift)`: the date max_win - shift
      trade dates before `bgn`, through `get_next_date` as written, so a
      position before the first trade date counts from the end. */
  function GetStartDate(c: Calendar, bgn: string, maxWin: int, shift: int): (r: Result<string>)
    ensures bgn !in c.dates ==> r == Err(ValueError)
    ensures bgn in c.dates ==>
      var pos := GetSn(c, bgn).value - maxWin + shift;
      (r.Ok? <==> -|c.dates| <= pos < |c.dates|) &&
      (r.Ok? && 0 <= pos ==> r.value == c.dates[pos]) &&
      (r.Ok? && pos < 0 ==> r.value == c.dates[|c.dates| + pos]) &&
      (r.Err? ==> r.error == IndexError)
  {
    GetNextDateAsWritten(c, bgn, -maxWin + shift)
  }

  /** Inside the calendar the start date lies max_win - shift trade dates
      before `bgn`; a window reaching back past the first trade date wraps
      round to a date after `bgn`, as long as the window is shorter than
      the calendar. */
  lemma GetStartDateBefore(c: Calendar, bgn: string, maxWin: int, shift: int)
    requires Sorted(c) && GetStartDate(c, bgn, maxWin, shift).Ok?
    ensures var pos := GetSn(c, bgn).value - maxWin + shift;
      var r := GetStartDate(c, bgn, maxWin, shift).value;
      (0 <= pos ==> GetSn(c, r).value + maxWin - shift == GetSn(c, bgn).value) &&
      (0 <= pos && maxWin > shift ==> Less(r, bgn)) &&
      (pos < 0 ==> GetSn(c, r).value == |c.dates| + pos) &&
      (pos < 0 && maxWin - shift < |c.dates| ==> Less(bgn, r))
  {
    var sn := GetSn(c, bgn).value;
    var pos := sn - maxWin + shift;
    var i := if 0 <= pos then pos else |c.dates| + pos;
    GetSnOfDate(c, i);
    if i < sn {
      assert Less(c.dates[i], c.dates[sn]);
    } else if sn < i {
      assert Less(c.dates[sn], c.dates[i]);
    }
  }

  /** A concrete instance of the wrap: on the calendar 20240102, 20240103,
      20240104 a one-day window before 20240102 starts on 20240104. */
  lemma GetStartDateWrapExample()
    ensures GetStartDate(Calendar(["20240102", "20240103", "20240104"]), "20240102", 1, 0) == Ok("20240104")
  {
    GetNextDateWrapExample();
  }

  /** Trade dates `shift` = a, a+1, ..., b-1 positions from `d`, in that
      order (the list comprehensions of `shift_iter_dates`). */
  function Neighbours(c: Calendar, d: string, a: int, b: int): (r: Result<seq<string>>)
    ensures r.Ok? ==> |r.value| == if a <= b then b - a else 0
    decreases b - a
  {
    if a >= b then Ok([])
    else
      var x :- GetNextDateAsWritten(c, d, a);
      var rest :- Neighbours(c, d, a + 1, b);
      Ok([x] + rest)
  }

  /** Inside a sorted calendar the neighbours of position j are the
      calendar slice j + a .. j + b. */
  lemma {:induction false} NeighboursSlice(c: Calendar, j: nat, a: int, b: int)
    requires Sorted(c) && j < |c.dates|
    requires a <= b && 0 <= j + a && j + b <= |c.dates|
    ensures Neighbours(c, c.dates[j], a, b) == Ok(c.dates[j + a..j + b])
    decreases b - a
  {
    if a < b {
      NeighboursSlice(c, j, a + 1, b);
      NeighbourAt(c, j, a);
      SliceCons(c.dates, j + a, j + b);
      assert Neighbours(c, c.dates[j], a, b) == Ok([c.dates[j + a]] + c.dates[j + a + 1..j + b]);
    } else {
      assert c.dates[j + a..j + b] == [];
    }
  }

  /** One neighbour inside the calendar is the date at that position. */
  lemma NeighbourAt(c: Calendar, j: nat, a: int)
    requires Sorted(c) && 0 <= j + a < |c.dates| && j < |c.dates|
    ensures GetNextDateAsWritten(c, c.dates[j], a) == Ok(c.dates[j + a])
  {
    GetSnOfDate(c, j);
  }

  lemma SliceCons<T>(s: seq<T>, lo: nat, hi: nat)
    requires lo < hi <= |s|
    ensures s[lo..hi] == [s[lo]] + s[lo + 1..hi]
  {
  }

  /** A concrete instance of the wrap in the comprehensions: shifting the
      one-date list [20240102] one trade date back gives [20240104]. */
  lemma ShiftIterDatesWrapExample()
    ensures ShiftIterDates(Calendar(["20240102", "20240103", "20240104"]), ["20240102"], -1) == Ok(["20240104"])
  {
    var c := Calendar(["20240102", "20240103", "20240104"]);
    GetNextDateWrapExample();
    assert GetNextDateAsWritten(c, "20240102", -1) == Ok("20240104");
    assert Neighbours(c, "20240102", 0, 0) == Ok([]);
    assert ["20240104"] + [] == ["20240104"];
    assert Neighbours(c, "20240102", -1, 0) == Ok(["20240104"]);
    assert PySeq.At(["20240102"], 0) == Ok("20240102");
    assert Prepended(c, ["20240102"], -1) == Ok(["20240104"]);
    assert PySeq.Until(["20240102"], -1) == [];
  }

  /** The dates a forward shift appends: neighbours 1..shift of the last
      date (IndexError when there is no last date to start from). */
  function Appended(c: Calendar, iter: seq<string>, shift: int): Result<seq<string>> {
    if shift >= 1 then
      var last :- PySeq.At(iter, -1);
      Neighbours(c, last, 1, shift + 1)
    else Ok([])
  }

  /** The dates a backward shift prepends: neighbours shift..-1 of the first. */
  function Prepended(c: Calendar, iter: seq<string>, shift: int): Result<seq<string>> {
    if shift < 0 then
      var first :- PySeq.At(iter, 0);
      Neighbours(c, first, shift, 0)
    else Ok([])
  }

  /** `shift_iter_dates(iter_dates, shift)`: drop |shift| dates from one end
      and add as many calendar neighbours at the other. */
  function ShiftIterDates(c: Calendar, iter: seq<string>, shift: int): (r: Result<seq<string>>)
    ensures r.Ok? && Numeric.AbsInt(shift) <= |iter| ==> |r.value| == |iter|
  {
    if shift >= 0 then
      var added :- Appended(c, iter, shift);
      Ok(PySeq.From(iter, shift) + added)
    else
      var added :- Prepended(c, iter, shift);
      Ok(added + PySeq.Until(iter, shift))
  }

  /** Shifting a run of consecutive trade dates by at most its length
      yields the run that starts `shift` positions later. */
  lemma ShiftIterDatesWindow(c: Calendar, lo: nat, hi: nat, shift: int)
    requires Sorted(c) && lo < hi <= |c.dates|
    requires Numeric.AbsInt(shift) <= hi - lo
    requires 0 <= lo + shift && hi + shift <= |c.dates|
    ensures ShiftIterDates(c, c.dates[lo..hi], shift) == Ok(c.dates[lo + shift..hi + shift])
  {
    if shift >= 0 {
      ShiftForward(c, lo, hi, shift);
    } else {
      ShiftBackward(c, lo, hi, shift);
    }
  }

  lemma ShiftForward(c: Calendar, lo: nat, hi: nat, shift: nat)
    requires Sorted(c) && lo < hi <= |c.dates|
    requires shift <= hi - lo && hi + shift <= |c.dates|
    ensures ShiftIterDates(c, c.dates[lo..hi], shift) == Ok(c.dates[lo + shift..hi + shift])
  {
    AppendedSlice(c, lo, hi, shift);
    ShiftedForward(c, c.dates[lo..hi], shift, c.dates[hi..hi + shift]);
    FromSliceJoin(c.dates, lo, hi, shift);
  }

  /** The forward branch of `shift_iter_dates` once the appended dates are
      known. */
  lemma ShiftedForward(c: Calendar, iter: seq<string>, shift: nat, added: seq<string>)
    requires Appended(c, iter, shift) == Ok(added)
    ensures ShiftIterDates(c, iter, shift) == Ok(PySeq.From(iter, shift) + added)
  {
  }

  lemma FromSliceJoin<T>(s: seq<T>, lo: nat, hi: nat, shift: nat)
    requires lo + shift <= hi && hi + shift <= |s|
    ensures PySeq.From(s[lo..hi], shift) + s[hi..hi + shift] == s[lo + shift..hi + shift]
  {
    assert PySeq.From(s[lo..hi], shift) == s[lo + shift..hi];
  }

  /** The dates a forward shift appends to a run of the calendar are the
      next `shift` trade dates. */
  lemma AppendedSlice(c: Calendar, lo: nat, hi: nat, shift: nat)
    requires Sorted(c) && lo < hi && hi + shift <= |c.dates|
    ensures Appended(c, c.dates[lo..hi], shift) == Ok(c.dates[hi..hi + shift])
  {
    if shift >= 1 {
      assert PySeq.At(c.dates[lo..hi], -1) == Ok(c.dates[hi - 1]);
      NeighboursSlice(c, hi - 1, 1, shift + 1);
    } else {
      assert c.dates[hi..hi + shift] == [];
    }
  }

  lemma ShiftBackward(c: Calendar, lo: nat, hi: nat, shift: int)
    requires Sorted(c) && lo < hi <= |c.dates|
    requires shift < 0 && -shift <= hi - lo && 0 <= lo + shift
    ensures ShiftIterDates(c, c.dates[lo..hi], shift) == Ok(c.dates[lo + shift..hi + shift])
  {
    var iter := c.dates[lo..hi];
    var added := c.dates[lo + shift..lo];
    assert PySeq.At(iter, 0) == Ok(c.dates[lo]);
    NeighboursSlice(c, lo, shift, 0);
    assert Prepended(c, iter, shift) == Ok(added);
    assert PySeq.Bound(|iter|, shift) == |iter| + shift;
    assert PySeq.Until(iter, shift) == iter[..|iter| + shift];
    assert iter[..|iter| + shift] == c.dates[lo..hi + shift];
    assert added + c.dates[lo..hi + shift] == c.dates[lo + shift..hi + shift];
  }
}
