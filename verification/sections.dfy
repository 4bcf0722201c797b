/**
 * The trade-section calendar of src/husfort/qcalendar.py (CSection and
 * CCalendarSection). Each trade date is split into a night section TS1,
 * which opens the evening before, and a day section TS2; a section is
 * identified by "<trade date>-<TS1|TS2>" and sections compare by that id.
 */
module Sections {

  import opened Wrappers
  import opened PyStr
  import PySeq

  const TS1: string := "TS1"
  const TS2: string := "TS2"

  /** The begin and end clock times of the two sections. */
  datatype Times = Times(ts1Bgn: string, ts1End: string, ts2Bgn: string, ts2End: string)

  /** The constructor's defaults. */
  const DefaultTimes: Times :=
    Times("19:00:00.000000", "07:00:00.000000", "07:00:00.000000", "19:00:00.000000")

  datatype Section = Section(tradeDate: string, section: string, bgnTime: string, endTime: string)

  /** `secId`, fixed when the section is created. */
  function SecId(s: Section): string {
    s.tradeDate + "-" + s.section
  }

  function SecIds(secs: seq<Section>): (ids: seq<string>)
    ensures |ids| == |secs|
    ensures forall i :: 0 <= i < |secs| ==> ids[i] == SecId(secs[i])
  {
    seq(|secs|, i requires 0 <= i < |secs| => SecId(secs[i]))
  }

  /** `a < b` on sections: exactly when `a >= b` fails, and never between
      equal sections. */
  function SecLess(a: Section, b: Section): (r: bool)
    ensures r <==> !SecGreaterEq(a, b)
    ensures r ==> !SecEq(a, b)
  {
    LessIrreflexive(SecId(a));
    Less(SecId(a), SecId(b))
  }

  /** `a >= b` on sections: the id of `b` does not exceed that of `a`;
      equal sections qualify. */
  function SecGreaterEq(a: Section, b: Section): (r: bool)
    ensures r <==> !Less(SecId(a), SecId(b))
    ensures SecEq(a, b) ==> r
  {
    NotLessIsLessEq(SecId(a), SecId(b));
    LessEq(SecId(b), SecId(a))
  }

  /** `a == b` on sections: the ids alone decide, so for trade dates of one
      length the date and the section name do, whatever the clock times. */
  function SecEq(a: Section, b: Section): (r: bool)
    ensures |a.tradeDate| == |b.tradeDate| ==>
      (r <==> a.tradeDate == b.tradeDate && a.section == b.section)
  {
    var n := |a.tradeDate|;
    assert |a.tradeDate| == |b.tradeDate| && SecId(a) == SecId(b) ==>
      a.tradeDate == SecId(a)[..n] == SecId(b)[..n] == b.tradeDate &&
      a.section == SecId(a)[n + 1..] == SecId(b)[n + 1..] == b.section;
    SecId(a) == SecId(b)
  }

  /** `CSection.match(tp)`: the time stamp lies within the section. */
  predicate Covers(s: Section, tp: string) {
    LessEq(s.bgnTime, tp) && LessEq(tp, s.endTime)
  }

  /** For trade dates of one length, sections order by date first and by
      section name within a date. */
  lemma SecLessByDate(a: Section, b: Section)
    requires |a.tradeDate| == |b.tradeDate|
    ensures SecLess(a, b) <==>
      Less(a.tradeDate, b.tradeDate) || (a.tradeDate == b.tradeDate && Less(a.section, b.section))
  {
    assert SecId(a) == a.tradeDate + ("-" + a.section);
    assert SecId(b) == b.tradeDate + ("-" + b.section);
    LessConcat(a.tradeDate, "-" + a.section, b.tradeDate, "-" + b.section);
    LessConcat("-", a.section, "-", b.section);
  }

  /* -------------------------------------------------------- construction */

  /** The day section of trade date d. */
  function DaySection(d: string, t: Times): Section {
    Section(d, TS2, d + " " + t.ts2Bgn, d + " " + t.ts2End)
  }

  /** The night section of trade date nd, which opens on the evening of the
      previous trade date d and closes on the calendar day after d. */
  function NightSection(d: string, nd: string, calendarNext: string, t: Times): Section {
    Section(nd, TS1, d + " " + t.ts1Bgn, calendarNext + " " + t.ts1End)
  }

  /** `CCalendarSection.__init__` over the trade dates: for each pair of
      consecutive dates, the day section of the first then the night
      section of the second. `calendarNext(d)` is the calendar day after
      d, which the source computes with `datetime`. */
  function Build(dates: seq<string>, calendarNext: string -> string, t: Times): (secs: seq<Section>)
    ensures |secs| == if |dates| < 2 then 0 else 2 * (|dates| - 1)
    decreases |dates|
  {
    if |dates| < 2 then []
    else
      var rest := Build(dates[1..], calendarNext, t);
      [DaySection(dates[0], t), NightSection(dates[0], dates[1], calendarNext(dates[0]), t)] + rest
  }

  /** The sections at positions 2i and 2i+1 belong to the i-th pair of
      consecutive trade dates. */
  lemma {:induction false} BuildAt(dates: seq<string>, calendarNext: string -> string, t: Times, i: nat)
    requires i + 1 < |dates|
    ensures Build(dates, calendarNext, t)[2 * i] == DaySection(dates[i], t)
    ensures Build(dates, calendarNext, t)[2 * i + 1]
         == NightSection(dates[i], dates[i + 1], calendarNext(dates[i]), t)
    decreases i
  {
    if i > 0 {
      BuildAt(dates[1..], calendarNext, t, i - 1);
      assert Build(dates, calendarNext, t)[2 * i] == Build(dates[1..], calendarNext, t)[2 * (i - 1)];
      assert Build(dates, calendarNext, t)[2 * i + 1] == Build(dates[1..], calendarNext, t)[2 * (i - 1) + 1];
    }
  }

  /** With increasing trade dates of one length, the built sections are in
      strictly increasing id order: TS2 of a date, TS1 of the next date,
      TS2 of that date, and so on. */
  lemma {:induction false} BuildSorted(dates: seq<string>, calendarNext: string -> string, t: Times)
    requires StrictlySorted(dates)
    requires forall i :: 0 <= i < |dates| ==> |dates[i]| == 8
    ensures StrictlySorted(SecIds(Build(dates, calendarNext, t)))
    decreases |dates|
  {
    if |dates| >= 2 {
      var rest := dates[1..];
      assert StrictlySorted(rest) by {
        forall i, j | 0 <= i < j < |rest| ensures Less(rest[i], rest[j]) {
          assert Less(dates[i + 1], dates[j + 1]);
        }
      }
      BuildSorted(rest, calendarNext, t);
      var day := DaySection(dates[0], t);
      var night := NightSection(dates[0], dates[1], calendarNext(dates[0]), t);
      var tailSecs := Build(rest, calendarNext, t);
      var ids := SecIds(Build(dates, calendarNext, t));
      var tids := SecIds(tailSecs);
      assert Build(dates, calendarNext, t) == [day, night] + tailSecs;
      assert Less(dates[0], dates[1]);
      SecLessByDate(day, night);
      if |tailSecs| > 0 {
        BuildAt(rest, calendarNext, t, 0);
        assert Less(TS1, TS2);
        SecLessByDate(night, tailSecs[0]);
      }
      forall k | 0 < k < |ids| ensures Less(ids[k - 1], ids[k]) {
        if k >= 3 {
          assert ids[k - 1] == tids[k - 3] && ids[k] == tids[k - 2];
        } else if k == 2 {
          assert ids[k] == tids[0];
        }
      }
      ChainSorted(ids);
    }
  }

  /* ------------------------------------------------------------ lookups */

  /** `head(n)`: `sections[:n]`, so a negative n drops sections from the
      end. */
  function Head(secs: seq<Section>, n: int): (r: seq<Section>)
    ensures 0 <= n <= |secs| ==> r == secs[..n]
    ensures n > |secs| ==> r == secs
    ensures -|secs| <= n < 0 ==> r == secs[..|secs| + n]
    ensures n < -|secs| ==> r == []
  {
    PySeq.Slice(secs, 0, n)
  }

  /** `tail(n)`: `sections[-n:]`. */
  function Tail(secs: seq<Section>, n: int): (r: seq<Section>)
    ensures 0 < n <= |secs| ==> r == secs[|secs| - n..]
    ensures n > |secs| || n == 0 ==> r == secs
    ensures -|secs| <= n < 0 ==> r == secs[-n..]
    ensures n < -|secs| ==> r == []
  {
    PySeq.From(secs, -n)
  }

  /** `tail(0)` is `sections[-0:]`, which is the whole list, not nothing. */
  lemma TailZero(secs: seq<Section>)
    ensures Tail(secs, 0) == secs
  {
  }

  /** `get_sn(sec)`: the first position holding a section equal to `sec`,
      which for CSection means the same id; ValueError otherwise. */
  function GetSn(secs: seq<Section>, sec: Section): (r: Result<nat>)
    ensures r.Ok? <==> exists i :: 0 <= i < |secs| && SecEq(secs[i], sec)
    ensures r.Ok? ==> r.value < |secs| && SecEq(secs[r.value], sec)
    ensures r.Ok? ==> forall i :: 0 <= i < r.value ==> !SecEq(secs[i], sec)
    ensures r.Err? ==> r.error == ValueError
  {
    var r := PySeq.IndexOf(SecIds(secs), SecId(sec));
    assert r.Ok? ==> forall i :: 0 <= i < r.value ==> SecIds(secs)[..r.value][i] == SecId(secs[i]);
    assert (exists i :: 0 <= i < |secs| && SecEq(secs[i], sec)) ==> SecId(sec) in SecIds(secs);
    r
  }

  /** `get_next_sec(sec, shift)`: the section `shift` places away, or None
      when that falls outside the list. */
  function GetNextSec(secs: seq<Section>, sec: Section, shift: int): (r: Result<Option<Section>>)
    ensures r.Err? <==> GetSn(secs, sec).Err?
    ensures r.Err? ==> r.error == ValueError
  {
    var sn :- GetSn(secs, sec);
    var dst := sn + shift;
    if 0 <= dst < |secs| then Ok(Some(secs[dst])) else Ok(None)
  }

  /** Ids that strictly increase are distinct. */
  lemma SortedIdsDistinct(secs: seq<Section>, i: nat, j: nat)
    requires StrictlySorted(SecIds(secs)) && i < |secs| && j < |secs| && SecEq(secs[i], secs[j])
    ensures i == j
  {
    if i != j {
      StrictlySortedDistinct(SecIds(secs), i, j);
    }
  }

  /** On a calendar with increasing ids, the section after `secs[i]` by
      `shift` is `secs[i + shift]`, and None exactly when i + shift leaves
      the list. */
  lemma GetNextSecAt(secs: seq<Section>, i: nat, shift: int)
    requires StrictlySorted(SecIds(secs)) && i < |secs|
    ensures GetNextSec(secs, secs[i], shift)
         == Ok(if 0 <= i + shift < |secs| then Some(secs[i + shift]) else None)
  {
    var sn := GetSn(secs, secs[i]).value;
    SortedIdsDistinct(secs, sn, i);
  }

  /** Stepping forward and back again returns to the starting section. */
  lemma GetNextSecRoundTrip(secs: seq<Section>, i: nat, shift: int)
    requires StrictlySorted(SecIds(secs)) && i < |secs| && 0 <= i + shift < |secs|
    ensures GetNextSec(secs, secs[i], shift) == Ok(Some(secs[i + shift]))
    ensures GetNextSec(secs, secs[i + shift], -shift) == Ok(Some(secs[i]))
  {
    GetNextSecAt(secs, i, shift);
    GetNextSecAt(secs, i + shift, -shift);
  }

  /** `get_iter_list(bgn, stp)`: stop at the first section `>= stp`, keep
      those `>= bgn` before it. */
  function IterList(secs: seq<Section>, bgn: Section, stp: Section): (r: seq<Section>)
    ensures forall x :: x in r ==> x in secs
    decreases |secs|
  {
    if |secs| == 0 then []
    else if SecGreaterEq(secs[0], stp) then []
    else if SecGreaterEq(secs[0], bgn) then [secs[0]] + IterList(secs[1..], bgn, stp)
    else IterList(secs[1..], bgn, stp)
  }

  /** With increasing ids, the iteration list holds exactly the sections s
      with bgn <= s < stp. */
  lemma {:induction false} IterListMembers(secs: seq<Section>, bgn: Section, stp: Section, x: Section)
    requires StrictlySorted(SecIds(secs))
    ensures x in IterList(secs, bgn, stp) <==>
      x in secs && LessEq(SecId(bgn), SecId(x)) && Less(SecId(x), SecId(stp))
    decreases |secs|
  {
    if |secs| > 0 {
      var t := secs[1..];
      var ids := SecIds(secs);
      assert SecIds(t) == ids[1..];
      assert StrictlySorted(SecIds(t));
      IterListMembers(t, bgn, stp, x);
      assert secs == [secs[0]] + t;
      var id0, idb, ids0 := SecId(secs[0]), SecId(bgn), SecId(stp);
      if x == secs[0] {
        LessIrreflexive(id0);
        LessTotal(id0, ids0);
        if Less(id0, idb) && LessEq(idb, id0) {
          LessAsymmetric(id0, idb);
        }
        if LessEq(ids0, id0) && Less(id0, ids0) {
          LessAsymmetric(id0, ids0);
        }
      } else if x in t {
        var i :| 0 <= i < |t| && t[i] == x;
        assert ids[i + 1] == SecId(x);
        assert Less(id0, SecId(x));
        if LessEq(ids0, id0) && Less(SecId(x), ids0) {
          LessTransitive(id0, SecId(x), ids0);
          LessIrreflexive(id0);
          if ids0 != id0 {
            LessAsymmetric(ids0, id0);
          }
        }
      }
    }
  }

  /** The first position whose section covers `tp`. */
  function FirstCovering(secs: seq<Section>, tp: string): (r: Option<nat>)
    ensures r.Some? ==> r.value < |secs| && Covers(secs[r.value], tp)
    ensures r.Some? ==> forall i :: 0 <= i < r.value ==> !Covers(secs[i], tp)
    ensures r.None? ==> forall i :: 0 <= i < |secs| ==> !Covers(secs[i], tp)
    decreases |secs|
  {
    if |secs| == 0 then None
    else if Covers(secs[0], tp) then Some(0)
    else
      match FirstCovering(secs[1..], tp)
      case Some(i) => Some(i + 1)
      case None => None
  }

  /** `match(tp)`: the first section covering the time stamp, if any. */
  function Match(secs: seq<Section>, tp: string): (r: Option<Section>)
    ensures r.Some? <==> exists i :: 0 <= i < |secs| && Covers(secs[i], tp)
    ensures r.Some? ==> r.value in secs && Covers(r.value, tp)
  {
    match FirstCovering(secs, tp)
    case Some(i) => Some(secs[i])
    case None => None
  }

  /** `match_id(id)`: the first section with that id, if any. */
  function MatchId(secs: seq<Section>, id: string): (r: Option<Section>)
    ensures r.Some? <==> id in SecIds(secs)
    ensures r.Some? ==> r.value in secs && SecId(r.value) == id
  {
    match PySeq.IndexOf(SecIds(secs), id)
    case Ok(i) => Some(secs[i])
    case Err(_) => None
  }

  /** `match_date(d)`: the sections of trade date d in order; the flag says
      whether there are any. */
  function MatchDate(secs: seq<Section>, d: string): (r: (bool, seq<Section>))
    ensures r.0 <==> |r.1| > 0
    ensures forall x :: x in r.1 <==> x in secs && x.tradeDate == d
    decreases |secs|
  {
    if |secs| == 0 then (false, [])
    else
      var rest := MatchDate(secs[1..], d).1;
      assert secs == [secs[0]] + secs[1..];
      var res := if secs[0].tradeDate == d then [secs[0]] + rest else rest;
      (|res| > 0, res)
  }

  /** The outcome of `parse_section`: the flag and the begin and stop
      sections found. */
  datatype Parsed = Parsed(success: bool, bgn: Option<Section>, stp: Option<Section>)

  /** `parse_section(using_now, bgn_sec_id, stp_sec_id)`. With `using_now`
      the section covering `now` (the wall clock, a parameter here) is the
      begin and its successor the stop. Otherwise both are looked up by id,
      and a stop id that is not found defaults to the begin's successor. */
  function ParseSection(secs: seq<Section>, usingNow: bool, now: string, bgnId: string, stpId: string): (r: Parsed)
    ensures r.success <==> r.bgn.Some? && r.stp.Some?
    ensures !usingNow ==> r.bgn == MatchId(secs, bgnId)
    ensures !usingNow && r.bgn.Some? && stpId in SecIds(secs) ==> r.stp == MatchId(secs, stpId)
    ensures usingNow ==> r.bgn == Match(secs, now)
  {
    if usingNow then
      var b := Match(secs, now);
      var s := if b.Some? then NextOf(secs, b.value) else None;
      Parsed(b.Some? && s.Some?, b, s)
    else
      var b := MatchId(secs, bgnId);
      var s0 := MatchId(secs, stpId);
      var s := if b.Some? then (if s0.None? then NextOf(secs, b.value) else s0) else None;
      Parsed(b.Some? && s.Some?, b, s)
  }

  /** `get_next_sec(sec, 1)` for a section taken from the list, where the
      lookup cannot fail. */
  function NextOf(secs: seq<Section>, sec: Section): Option<Section>
    requires sec in secs
  {
    var i :| 0 <= i < |secs| && secs[i] == sec;
    assert SecEq(secs[i], sec);
    var r := GetNextSec(secs, sec, 1);
    r.value
  }

  /** Looking up ids on a calendar with increasing ids: parsing succeeds
      exactly when the begin id exists and either the stop id exists or the
      begin section has a successor, which then is the stop. */
  lemma ParseSectionByIds(secs: seq<Section>, i: nat, stpId: string)
    requires StrictlySorted(SecIds(secs)) && i < |secs|
    ensures var r := ParseSection(secs, false, "", SecId(secs[i]), stpId);
      r.bgn == Some(secs[i]) &&
      (stpId !in SecIds(secs) ==>
        (r.success <==> i + 1 < |secs|) && (i + 1 < |secs| ==> r.stp == Some(secs[i + 1])))
  {
    var b := MatchId(secs, SecId(secs[i]));
    var j := PySeq.IndexOf(SecIds(secs), SecId(secs[i])).value;
    SortedIdsDistinct(secs, i, j);
    assert b == Some(secs[i]);
    GetNextSecAt(secs, i, 1);
  }

  /** An unknown begin id fails whatever the stop id. */
  lemma ParseSectionUnknownBegin(secs: seq<Section>, bgnId: string, stpId: string)
    requires bgnId !in SecIds(secs)
    ensures ParseSection(secs, false, "", bgnId, stpId) == Parsed(false, None, None)
  {
  }
}
