/**
 * The append-continuity check of CDbHDF5PlusTDates in
 * build/lib/husfort/qh5.py. The HDF5 store is reduced to what the check
 * reads from it: whether the table can be opened, and the trade_date
 * column of its rows.
 */
module H5Build {

  import opened Wrappers
  import opened PyStr
  import Calendar
  import SqliteLegacy

  /** The table as the check sees it: opening it raises FileNotFoundError
      or KeyError, or it holds rows with these trade dates, in order. */
  datatype Store = Missing | Stored(tradeDates: seq<string>)

  /** `check_continuity(append_date, calendar)`: 0 when the table is
      missing or empty; otherwise the successor of the last stored trade
      date is compared with `append`: 0 equal, 1 days omitted, 2 overlap. */
  function CheckContinuity(store: Store, append: string, c: Calendar.Calendar): (r: Result<nat>)
    ensures store.Missing? ==> r == Ok(0)
    ensures store.Stored? && |store.tradeDates| == 0 ==> r == Ok(0)
    ensures r.Ok? ==> r.value <= 2
    ensures store.Stored? && |store.tradeDates| > 0 ==>
      var last := store.tradeDates[|store.tradeDates| - 1];
      (r.Err? <==> !(last in c.dates && Calendar.GetSn(c, last).value + 1 < |c.dates|))
  {
    match store
    case Missing => Ok(0)
    case Stored(ds) =>
      if |ds| == 0 then Ok(0)
      else
        var expected :- Calendar.GetNextDate(c, ds[|ds| - 1], 1);
        if expected == append then Ok(0)
        else if Less(expected, append) then Ok(1)
        else Ok(2)
  }

  /** The HDF5 check and the SQLite check reach the same verdict on the
      same last stored date. */
  lemma AgreesWithSqlite(ds: seq<string>, append: string, c: Calendar.Calendar)
    ensures CheckContinuity(Stored(ds), append, c)
         == SqliteLegacy.CheckContinuity(if |ds| == 0 then None else Some(ds[|ds| - 1]), append, c)
  {
  }

  /** A table holding a run of consecutive trade dates stays such a run
      when a date the check accepts with 0 is appended; on a sorted
      calendar that date is the only one accepted. */
  lemma AcceptedAppendKeepsRun(c: Calendar.Calendar, lo: nat, hi: nat, append: string)
    requires Calendar.Sorted(c) && lo < hi < |c.dates|
    ensures CheckContinuity(Stored(c.dates[lo..hi]), append, c) == Ok(0) <==> append == c.dates[hi]
    ensures CheckContinuity(Stored(c.dates[lo..hi]), append, c) == Ok(0) ==>
      c.dates[lo..hi] + [append] == c.dates[lo..hi + 1]
  {
    var ds := c.dates[lo..hi];
    assert ds[|ds| - 1] == c.dates[hi - 1];
    AgreesWithSqlite(ds, append, c);
    SqliteLegacy.ContinuityOnCalendar(c, hi - 1, append);
    assert c.dates[lo..hi + 1] == c.dates[lo..hi] + [c.dates[hi]];
  }
}
