/**
 * The trade-section calendar of build/lib/husfort/qcalendar.py. Sections
 * are built, ordered, iterated and matched exactly as in the current
 * revision (module Sections), but CSection is a plain frozen dataclass
 * here: `==` compares every field, so `get_sn` finds a section only when
 * an identical one is in the list, not merely one with the same id.
 */
module SectionsBuild {

  import opened Wrappers
  import opened PyStr
  import PySeq
  import opened Sections

  /** `get_sn(sec)`: the first position holding a section identical to
      `sec`; ValueError otherwise. */
  function GetSn(secs: seq<Section>, sec: Section): (r: Result<nat>)
    ensures r.Ok? <==> sec in secs
    ensures r.Ok? ==> r.value < |secs| && secs[r.value] == sec
    ensures r.Ok? ==> sec !in secs[..r.value]
    ensures r.Err? ==> r.error == ValueError
  {
    PySeq.IndexOf(secs, sec)
  }

  /** `get_next_sec(sec, shift)`. */
  function GetNextSec(secs: seq<Section>, sec: Section, shift: int): (r: Result<Option<Section>>)
    ensures r.Err? <==> sec !in secs
    ensures r.Err? ==> r.error == ValueError
  {
    var sn :- GetSn(secs, sec);
    var dst := sn + shift;
    if 0 <= dst < |secs| then Ok(Some(secs[dst])) else Ok(None)
  }

  /** `get_next_sec(sec, 1)` for a section taken from the list. */
  function NextOf(secs: seq<Section>, sec: Section): Option<Section>
    requires sec in secs
  {
    GetNextSec(secs, sec, 1).value
  }

  /** `parse_section`, with the same structure as the current revision but
      the successor found by identity. */
  function ParseSection(secs: seq<Section>, usingNow: bool, now: string, bgnId: string, stpId: string): (r: Parsed)
    ensures r.success <==> r.bgn.Some? && r.stp.Some?
    ensures !usingNow ==> r.bgn == MatchId(secs, bgnId)
    ensures usingNow ==> r.bgn == Match(secs, now)
  {
    if usingNow then
      var b := Match(secs, now);
      var s := if b.Some? then NextOf(secs, b.value) else None;
      Parsed(b.Some? && s.Some?, b, s)
    else
      var b := MatchId(secs, bgnId);
      var s0 := MatchId(secs, stpId);
      var s := if b.Some? then (if s0.None? then NextOf(secs, b.value) else s0) else None;
      Parsed(b.Some? && s.Some?, b, s)
  }

  /** The first section with a given id is found at the same place by
      identity and by id. */
  lemma FirstOfIdSamePlace(secs: seq<Section>, i: nat)
    requires i < |secs| && forall j :: 0 <= j < i ==> SecId(secs[j]) != SecId(secs[i])
    ensures GetSn(secs, secs[i]) == Ok(i)
    ensures Sections.GetSn(secs, secs[i]) == Ok(i)
  {
  }

  /** On a calendar with increasing ids both revisions locate any listed
      section at the same position. */
  lemma GetSnAgrees(secs: seq<Section>, i: nat)
    requires StrictlySorted(SecIds(secs)) && i < |secs|
    ensures GetSn(secs, secs[i]) == Sections.GetSn(secs, secs[i]) == Ok(i)
  {
    forall j | 0 <= j < i ensures SecId(secs[j]) != SecId(secs[i]) {
      assert Less(SecIds(secs)[j], SecIds(secs)[i]);
      LessIrreflexive(SecId(secs[i]));
    }
    FirstOfIdSamePlace(secs, i);
  }

  /** A section that shares its id with a listed one but differs in its
      times is found by the current revision and rejected by this one. */
  lemma GetSnDiffers()
    ensures var listed := Section("20240102", TS2, "20240102 07:00:00.000000", "20240102 19:00:00.000000");
      var probe := Section("20240102", TS2, "", "");
      Sections.GetSn([listed], probe) == Ok(0) && GetSn([listed], probe) == Err(ValueError)
  {
    var listed := Section("20240102", TS2, "20240102 07:00:00.000000", "20240102 19:00:00.000000");
    var probe := Section("20240102", TS2, "", "");
    assert SecEq([listed][0], probe);
  }

  /** Parsing by ids gives the same answer in both revisions on every
      calendar, and parsing from the clock does so whenever ids increase. */
  lemma ParseSectionAgrees(secs: seq<Section>, usingNow: bool, now: string, bgnId: string, stpId: string)
    requires usingNow ==> StrictlySorted(SecIds(secs))
    ensures ParseSection(secs, usingNow, now, bgnId, stpId)
         == Sections.ParseSection(secs, usingNow, now, bgnId, stpId)
  {
    if usingNow {
      var b := Match(secs, now);
      if b.Some? {
        var i :| 0 <= i < |secs| && secs[i] == b.value;
        GetSnAgrees(secs, i);
      }
    } else {
      var b := MatchId(secs, bgnId);
      if b.Some? {
        var i := PySeq.IndexOf(SecIds(secs), bgnId).value;
        assert secs[i] == b.value;
        forall j | 0 <= j < i ensures SecId(secs[j]) != SecId(secs[i]) {
          assert SecIds(secs)[..i][j] == SecId(secs[j]);
        }
        FirstOfIdSamePlace(secs, i);
      }
    }
  }
}
