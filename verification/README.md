# husfort core, modelled in Dafny

This project models the deterministic core of husfort, a futures research toolkit. At its centre is the end-of-day futures backtest accounting engine, in its three revisions. Each day the engine:

- diffs a book of positions keyed by (contract, direction) against target positions, giving OPEN and CLOSE trades;
- applies the trades (weighted-average cost price, realized P&L, proportional cost);
- marks the surviving positions to the close;
- rolls the NAV forward.

Around the engine sit smaller pure cores:

- the trading calendar (window selection, shifting, month and week grouping, YYYYMM arithmetic, date-format converters, the night/day trade-section list);
- the futures contract-code rules (instrument prefix, the Zhengzhou decade fix-up, vendor formats);
- the SQL text and append-continuity decisions of the SQLite and HDF5 wrappers;
- the NAV-series scans and memoised indicators of CNAV;
- the weight-based quick simulation;
- the PnL viewer's valuation and ordering;
- the data viewer's argument parsing and head/tail selection;
- the small helpers: display width, colour wrapper, `batched`, palette colours, sprite layout.

Layout:

- There is one module per source file and revision. SimCurrent and SimCurrentRun model src/husfort/qsimulation.py. SimLegacy and SimLegacyRun model husfort/qsimulation.py.
- build/lib/husfort/qsimulation.py carries the same text as husfort/qsimulation.py for CTrade, CPosition, CPositionPlus, `cal_trades_for_signal` and `update_realized_pnl`. Its rows below cite the build/lib lines of the same SimLegacy members.
- Its `prune` iterates over a copy of the keys, which is the corrected `SimLegacy.Prune`.
- Calendar and CalendarGroups, Months and Sections model src/husfort/qcalendar.py. SectionsBuild models the build/lib section calendar.
- The build/lib `CCalendar.get_iter_list` and `get_next_date` have the same text as the src ones, so their rows cite Calendar members.
- husfort.qcalendar, which husfort/qsqlite.py imports, is not part of this model. The build/lib calendar stands in for it.

Conventions:

- Failures are `Result` values whose error names the Python exception raised (KeyError, ValueError, IndexError, ZeroDivisionError, RuntimeError, AttributeError). A numpy division that would yield NaN or infinity is the error `NonFinite`.
- A NaN price is `None` wherever the code tests for NaN.
- Python dicts are insertion-ordered entry sequences (module Dicts), because their iteration order decides the order of generated trades.
- Python's slicing, negative indexing, `int()`, `str()`, `sorted`, floor division and `np.round` (half to even) are written out in PySeq, PyInt, PyStr, StrSort and Numeric.
- Lookups the engine reads from files or databases are passed in as maps or functions: signals, multipliers, major contracts and market data.
- Where the intended behaviour and the code disagree, the model keeps the code as written and the corrected reading side by side, and every such case is listed under Findings. A member whose name ends in AsWritten follows the code. An operation built on a corrected member says so in its row and is named under Left out. Forward calendar steps never wrap, so there both readings of `get_next_date` coincide (Calendar.GetNextDateForwardAgrees).

## Model

| member | source | states |
|---|---|---|
| Calendar.FromRows | src/husfort/qcalendar.py:7-12 | one trade date per calendar row, in file order, each with every "-" removed |
| Calendar.Window | src/husfort/qcalendar.py:27-33 | the loop keeps only calendar dates and never more dates than the calendar has |
| Calendar.WindowMembers | src/husfort/qcalendar.py:26-34 | on a sorted calendar a date is in the window exactly when it is a trade date with bgn <= d < stp |
| Calendar.WindowSorted | src/husfort/qcalendar.py:26-34 | the window of a sorted calendar is itself strictly increasing |
| Calendar.WindowPrefix | src/husfort/qcalendar.py:26-34 | when no trade date precedes bgn the window is a prefix of the calendar |
| Calendar.WindowIsSlice | src/husfort/qcalendar.py:26-34 | the window of a sorted calendar is a run of consecutive calendar dates |
| Calendar.IterList | src/husfort/qcalendar.py:26-34 | as many dates as the window; on a sorted calendar, in either order, exactly the trade dates d with bgn <= d < stp |
| Calendar.IterListDescending | src/husfort/qcalendar.py:34 | with ascending=False the list is the ascending window read backwards |
| Calendar.GetSn | src/husfort/qcalendar.py:52-53 | succeeds exactly for trade dates and returns a position holding that date; ValueError otherwise |
| Calendar.GetSnOfDate | src/husfort/qcalendar.py:52-56 | on a sorted calendar get_sn inverts get_date |
| Calendar.GetNextDateAsWritten | src/husfort/qcalendar.py:61-71 | the code as written: a result is always some calendar date; an unknown date raises ValueError |
| Calendar.GetNextDate | src/husfort/qcalendar.py:61-71 | the documented meaning: the date shift positions away, IndexError exactly when that position is outside the calendar |
| Calendar.GetNextDateAgrees | src/husfort/qcalendar.py:61-71 | code and documented meaning agree whenever the target position is not negative |
| Calendar.GetNextDateForwardAgrees | src/husfort/qcalendar.py:61-71 | a forward step never wraps, so code and documented meaning always agree on it |
| Calendar.GetNextDateWrapsAtStart | src/husfort/qcalendar.py:69-71 | as written, one step back from the first trade date yields the last trade date, a later date |
| Calendar.GetNextDateWrapExample | src/husfort/qcalendar.py:69-71 | concrete three-date calendar where the step before the first date returns the last |
| Calendar.GetNextDateDirection | src/husfort/qcalendar.py:61-71 | on a sorted calendar a positive shift gives a later date and a negative one an earlier date |
| Calendar.GetNextDateRoundTrip | src/husfort/qcalendar.py:61-71 | stepping shift and then -shift returns to the starting date |
| Calendar.GetStartDate | src/husfort/qcalendar.py:73-74 | as written: ValueError for an unknown bgn; for position pos = sn(bgn) - max_win + shift it succeeds exactly when -len <= pos < len, giving the date at pos, or at len + pos when pos is negative; IndexError otherwise |
| Calendar.GetStartDateBefore | src/husfort/qcalendar.py:73-74 | inside the calendar the start date is the trade date max_win - shift positions before bgn; a window reaching before the first trade date wraps to a date after bgn |
| Calendar.GetStartDateWrapExample | src/husfort/qcalendar.py:73-74 | concrete three-date calendar where a one-day window before the first date starts on the last date |
| Calendar.Neighbours | src/husfort/qcalendar.py:44-49 | the comprehension, through get_next_date as written, yields one date per shift in a..b-1 |
| Calendar.NeighboursSlice | src/husfort/qcalendar.py:44-49 | inside a sorted calendar the neighbours are the consecutive calendar slice |
| Calendar.NeighbourAt | src/husfort/qcalendar.py:69-71 | inside a sorted calendar the neighbour a positions from position j is the date at j + a |
| Calendar.ShiftIterDates | src/husfort/qcalendar.py:36-50 | as written, a shift no longer than the list keeps its length |
| Calendar.ShiftIterDatesWindow | src/husfort/qcalendar.py:36-50 | shifting a run of consecutive trade dates gives the run shift positions later (earlier when negative) |
| Calendar.ShiftForward | src/husfort/qcalendar.py:44-46 | forward branch: drop shift dates at the front, append the next shift trade dates |
| Calendar.AppendedSlice | src/husfort/qcalendar.py:44-45 | the dates a forward shift appends to a run of the calendar are the next shift trade dates |
| Calendar.ShiftIterDatesWrapExample | src/husfort/qcalendar.py:47-49 | concrete three-date calendar where shifting [20240102] one date back gives [20240104] |
| Calendar.ShiftBackward | src/husfort/qcalendar.py:47-49 | backward branch: prepend the previous dates and drop as many at the end |
| CalendarGroups.LastDays | src/husfort/qcalendar.py:76-86 | the pair loop keeps only calendar dates |
| CalendarGroups.LastDaysMembers | src/husfort/qcalendar.py:76-86 | on a sorted calendar a date is kept exactly when bgn <= d < stp and the next trade date is in another month (the final calendar date is never kept) |
| CalendarGroups.LastDaysInRange | src/husfort/qcalendar.py:76-86 | only calendar dates; on a sorted calendar exactly the dates d with bgn <= d < stp whose next trade date lies in another month, so the last calendar date is never reported |
| CalendarGroups.LastAtMost | src/husfort/qcalendar.py:95-97 | the backward scan finds the last position whose date is at most the threshold, none when there is none |
| CalendarGroups.FirstAtLeast | src/husfort/qcalendar.py:107-109 | the forward scan finds the first position whose date is at least the threshold, none when there is none |
| CalendarGroups.LastDayOfMonth | src/husfort/qcalendar.py:88-98 | a calendar date not after month + "31"; ValueError exactly when every date is later |
| CalendarGroups.FirstDayOfMonth | src/husfort/qcalendar.py:100-110 | a calendar date not before month + "01"; ValueError exactly when every date is earlier |
| CalendarGroups.LastDayOfMonthGreatest | src/husfort/qcalendar.py:88-98 | on a sorted calendar the result is the greatest trade date at most month + "31" |
| CalendarGroups.FirstDayOfMonthLeast | src/husfort/qcalendar.py:100-110 | on a sorted calendar the result is the least trade date at least month + "01" |
| CalendarGroups.OfMonth | src/husfort/qcalendar.py:115-120 | the dates of one month, in their order |
| CalendarGroups.SplitByMonth | src/husfort/qcalendar.py:113-121 | one entry per month present, distinct keys, in order of first appearance |
| CalendarGroups.SplitByMonthGroups | src/husfort/qcalendar.py:113-121 | a month is a key exactly when some date falls in it, and its list holds exactly that month's dates in order |
| CalendarGroups.WeekEndPosIncreasing | src/husfort/qcalendar.py:144-147 | week-end days taken from the dates sit at increasing positions |
| CalendarGroups.GroupEnd | src/husfort/qcalendar.py:157-165 | a group ends at the next week-end day, inclusive; the last group takes every later date |
| CalendarGroups.WeekGroupMembers | src/husfort/qcalendar.py:138-169 | a week group is the slice of dates after its week-end day up to the next one |
| CalendarGroups.WeekGroupSound | src/husfort/qcalendar.py:138-169 | every date of a group is after its week-end day and not after the next one |
| CalendarGroups.WeekGroupComplete | src/husfort/qcalendar.py:138-169 | every date after a week-end day and not after the next one is in that day's group |
| CalendarGroups.ReachedValid | src/husfort/qcalendar.py:157-165 | the backward scan stores each week-end day once, latest first |
| CalendarGroups.ScanWeeks | src/husfort/qcalendar.py:151-165 | the backward loop: nothing for no week-end days; otherwise exactly the stored groups, latest week-end day first |
| CalendarGroups.SplitByWeekEndDays | src/husfort/qcalendar.py:138-169 | under the documented precondition, one entry per week-end day holding its group; ascending order when asked, latest first otherwise |
| CalendarGroups.D08ToD10 | src/husfort/qcalendar.py:182-184 | dashes inserted after the year and after the month |
| CalendarGroups.D10ToD08 | src/husfort/qcalendar.py:187-189 | every "-" removed, nothing else changed |
| CalendarGroups.D08RoundTrip | src/husfort/qcalendar.py:182-189 | converting an 8-character date to 10 characters and back gives it back |
| CalendarGroups.D10RoundTrip | src/husfort/qcalendar.py:182-189 | converting a "YYYY-MM-DD" date to 8 characters and back gives it back |
| CalendarGroups.AddMonths | src/husfort/qcalendar.py:201-204 | the year and month arithmetic lands on a month in 1..12, s months after the start |
| CalendarGroups.MonthCountUnique | src/husfort/qcalendar.py:201-204 | a month count splits into a year and a month in 1..12 in one way only |
| CalendarGroups.AddMonthsInverse | src/husfort/qcalendar.py:201-204 | shifting by -s undoes shifting by s |
| CalendarGroups.GetNextMonth | src/husfort/qcalendar.py:192-205 | ValueError exactly when `int()` rejects the year part or the month part, so parts made of digits always succeed |
| CalendarGroups.DigitPartsParse | src/husfort/qcalendar.py:200 | a year or month part made of digits parses as its decimal value |
| PyInt.ParseIntDigits | src/husfort/qcalendar.py:200 | `int()` of plain digits is their decimal value |
| PyInt.ParseIntNegated | src/husfort/qcalendar.py:200 | `int()` accepts a leading minus sign, so a part such as "-001" parses as -1 |
| PyInt.ParseIntPadded | src/husfort/qcalendar.py:200 | `int()` ignores a leading space, so a part such as " 1" parses as 1 |
| CalendarGroups.MonthIndexInjective | src/husfort/qcalendar.py:195 | distinct valid "YYYYMM" strings are distinct months |
| CalendarGroups.FormatMonthValid | src/husfort/qcalendar.py:205 | formatting a four-digit year and a month in 1..12 gives a valid month string that reads back as the same numbers |
| CalendarGroups.GetNextMonthParses | src/husfort/qcalendar.py:200 | a valid month parses into its year and month |
| CalendarGroups.GetNextMonthValue | src/husfort/qcalendar.py:192-205 | for a valid month whose shifted year has four digits the result is the valid month exactly s months later |
| CalendarGroups.FormatMonthOfValid | src/husfort/qcalendar.py:200-205 | a valid month string is the formatting of its own numbers |
| CalendarGroups.GetNextMonthRoundTrip | src/husfort/qcalendar.py:192-205 | moving s months and then -s months returns the original month string |
| Months.BgnDate | src/husfort/qcalendar.py:365-367 | the month's first trade date; IndexError for a month without dates |
| Months.EndDate | src/husfort/qcalendar.py:369-371 | the month's last trade date; IndexError for a month without dates |
| Months.MatchFromDate | src/husfort/qcalendar.py:373-374 | defined exactly for a month with dates (IndexError otherwise), true when the date lies between its first and last date |
| Months.MonthKey | src/husfort/qcalendar.py:386 | the grouping key is the first six characters of the date with "-" removed |
| Months.AddKey | src/husfort/qcalendar.py:388 | inserting a key into the sorted key list keeps it strictly sorted and adds exactly that key |
| Months.KeysOf | src/husfort/qcalendar.py:386-388 | the groupby keys: exactly the keys of the rows, strictly increasing |
| Months.RowsOf | src/husfort/qcalendar.py:388-391 | a group holds exactly the rows of its key, in calendar order |
| Months.RowsOfSorted | src/husfort/qcalendar.py:388-391 | a group of a sorted calendar is sorted |
| Months.CalendarMonths | src/husfort/qcalendar.py:381-393 | one month per distinct key |
| Months.CalendarMonthsGroups | src/husfort/qcalendar.py:381-393 | the months partition the rows: keys increase, no month is empty, every row lies in exactly the month of its key, in order |
| Months.MonthsOfCalendar | src/husfort/qcalendar.py:381-393 | the months built from a sorted calendar are grouped by key |
| Months.MatchMonthFromId | src/husfort/qcalendar.py:395-404 | found exactly when some month has that key, and the month found has it |
| Months.MatchMonthFromDate | src/husfort/qcalendar.py:406-415 | never fails when no month is empty; a month found covers the date |
| Months.MatchMonthFromDateAt | src/husfort/qcalendar.py:406-415 | the search stops at the first covering month when all earlier months have dates |
| Months.KeyOrder | src/husfort/qcalendar.py:386 | for 8-character dates a smaller key means an earlier date |
| Months.MemberBetween | src/husfort/qcalendar.py:373-374 | the first and last date of a sorted month bracket each of its dates |
| Months.EarlierMonthMisses | src/husfort/qcalendar.py:373-374 | a month whose key is below the date's key does not cover it |
| Months.RowShape | src/husfort/qcalendar.py:386 | well-formed calendar rows are eight characters without "-" |
| Months.MatchMonthFromDateOfRow | src/husfort/qcalendar.py:406-415 | the month found for a calendar date is the month of its key |
| Months.IndexOfMonth | src/husfort/qcalendar.py:424 | index() finds a month with the same key, ValueError when there is none |
| Months.IndexOfMonthAt | src/husfort/qcalendar.py:424 | with increasing keys index() finds a month's own position |
| Months.GetNextMonthAsWritten | src/husfort/qcalendar.py:417-425 | the code as written: any result is one of the months |
| Months.GetNextMonth | src/husfort/qcalendar.py:417-425 | the documented meaning: the month shift places away, IndexError outside the list |
| Months.GetNextMonthRoundTrip | src/husfort/qcalendar.py:417-425 | shift places after month i is month i + shift, and stepping back returns |
| Months.GetNextMonthAgrees | src/husfort/qcalendar.py:417-425 | code and documented meaning agree unless the position is negative |
| Months.GetNextMonthWrapsAtStart | src/husfort/qcalendar.py:424-425 | as written, the month before the first month is the last one |
| Months.GetIterMonths | src/husfort/qcalendar.py:427-430 | succeeds exactly when both months are listed (ValueError otherwise) and yields listed months |
| Months.GetIterMonthsAt | src/husfort/qcalendar.py:427-430 | with increasing keys the months are exactly those with keys in [bgn, stp), in order |
| Months.Found | src/husfort/qcalendar.py:445-452 | passing "no month" on: AttributeError from the comparison, or ValueError on an empty list |
| Months.MapIterDatesToIterMonth | src/husfort/qcalendar.py:432-453 | succeeds only for a non-empty date window and yields listed months |
| Months.MapIterDatesFound | src/husfort/qcalendar.py:432-453 | with the first and stop months found at i and k, the result is the months i..k-1 |
| Months.MapIterDatesStopFails | src/husfort/qcalendar.py:446-451 | an error finding the stop month is the result |
| Months.MapIterDatesSlice | src/husfort/qcalendar.py:449-452 | without exclude_last the months run from the first date's month through the last date's month |
| Months.MapIterDatesExcludeLast | src/husfort/qcalendar.py:446-452 | with exclude_last the months run from the month of the window's first date up to, not including, the month of the trade date after the window; IndexError exactly when the window ends on the calendar's last date |
| Months.SliceThrough | src/husfort/qcalendar.py:452 | the months i..j are those whose key lies between theirs |
| Months.TrailingWindow | src/husfort/qcalendar.py:455-459 | succeeds only when the end month has at least trn_win - 1 months before it |
| Months.TrailingWindowSpan | src/husfort/qcalendar.py:455-459 | the window ending with month i runs from the first date of month i-n+1 to the last date of month i |
| Months.TrailingWindowAsWritten | src/husfort/qcalendar.py:455-459 | as written: an unknown end month raises ValueError; when trn_win - 1 months precede it the result is the documented window; when the window reaches back past the first month it starts on the first date of a month counted from the end of the list |
| Months.TrailingWindowWraps | src/husfort/qcalendar.py:456 | as written, a two-month window ending at the first of two months starts in the later month; the corrected step raises IndexError |
| Sections.SecIds | src/husfort/qcalendar.py:230-231 | each section's id is its trade date, "-", its section name |
| Sections.SecLess | src/husfort/qcalendar.py:236-237 | `a < b` holds exactly when `a >= b` fails, and never between equal sections |
| Sections.SecGreaterEq | src/husfort/qcalendar.py:239-240 | `a >= b` holds exactly when the id of a is not below that of b; equal sections qualify |
| Sections.SecEq | src/husfort/qcalendar.py:245-246 | for trade dates of one length, sections are equal exactly when date and section name are, whatever their clock times |
| Sections.SecLessByDate | src/husfort/qcalendar.py:233-243 | for dates of one length, sections order by date first and by section name within a date |
| Sections.Build | src/husfort/qcalendar.py:253-282 | two sections per pair of consecutive trade dates |
| Sections.BuildAt | src/husfort/qcalendar.py:267-280 | sections 2i and 2i+1 are the day section of date i and the night section of date i+1, with the configured times |
| Sections.BuildSorted | src/husfort/qcalendar.py:253-282 | with increasing trade dates of one length the built ids strictly increase |
| Sections.Head | src/husfort/qcalendar.py:284-285 | head(n) is the first n sections, all of them when n exceeds the count, and a negative n drops -n sections from the end |
| Sections.Tail | src/husfort/qcalendar.py:287-288 | tail(n) is the last n sections, all of them for n = 0 or n beyond the count, and a negative n drops -n sections from the front |
| Sections.TailZero | src/husfort/qcalendar.py:287-288 | tail(0) is the whole list, since sections[-0:] starts at 0 |
| Sections.GetSn | src/husfort/qcalendar.py:290-291 | index() finds the first section with an equal id; ValueError when there is none |
| Sections.GetNextSec | src/husfort/qcalendar.py:293-299 | the section shift places away, None when that position is outside the list; ValueError for an unlisted section |
| Sections.SortedIdsDistinct | src/husfort/qcalendar.py:233-246 | strictly increasing ids are distinct |
| Sections.GetNextSecAt | src/husfort/qcalendar.py:293-299 | with increasing ids the section shift after secs[i] is secs[i + shift], None outside |
| Sections.GetNextSecRoundTrip | src/husfort/qcalendar.py:293-299 | stepping forward and back returns to the starting section |
| Sections.IterList | src/husfort/qcalendar.py:301-308 | the loop keeps only listed sections |
| Sections.IterListMembers | src/husfort/qcalendar.py:301-308 | with increasing ids, exactly the sections s with bgn <= s < stp |
| Sections.FirstCovering | src/husfort/qcalendar.py:311-313 | the first position whose section covers the time stamp |
| Sections.Match | src/husfort/qcalendar.py:310-314 | the first section whose begin and end times bracket the time stamp, None when none does |
| Sections.MatchId | src/husfort/qcalendar.py:316-320 | the first section with that id, None when there is none |
| Sections.MatchDate | src/husfort/qcalendar.py:322-324 | exactly the sections of that trade date; the flag says whether there are any |
| Sections.ParseSection | src/husfort/qcalendar.py:326-342 | success exactly when both ends are found; by ids the begin is the id match and a found stop id is used; from the clock the begin is the covering section |
| Sections.ParseSectionByIds | src/husfort/qcalendar.py:333-342 | with increasing ids and an unknown stop id, parsing succeeds exactly when a next section exists, and that section is the stop |
| Sections.ParseSectionUnknownBegin | src/husfort/qcalendar.py:336-341 | an unknown begin id fails whatever the stop id |
| SectionsBuild.GetSn | build/lib/husfort/qcalendar.py:128-129 | the frozen dataclass compares every field: index() finds only an identical section, ValueError otherwise |
| SectionsBuild.GetNextSec | build/lib/husfort/qcalendar.py:131-137 | ValueError exactly for a section not in the list |
| SectionsBuild.ParseSection | build/lib/husfort/qcalendar.py:164-178 | same structure as the current revision with the successor found by identity |
| SectionsBuild.FirstOfIdSamePlace | build/lib/husfort/qcalendar.py:128-129 | the first section with a given id is found at the same place by identity and by id |
| SectionsBuild.GetSnAgrees | build/lib/husfort/qcalendar.py:128-129 | with increasing ids both revisions locate a listed section at the same position |
| SectionsBuild.GetSnDiffers | build/lib/husfort/qcalendar.py:70-87 | a section sharing an id with a listed one but with other times is found by the current revision and not by this one |
| SectionsBuild.ParseSectionAgrees | build/lib/husfort/qcalendar.py:164-178 | parsing by ids answers as the current revision on every calendar; parsing from the clock too when ids increase |
| Instruments.ParseInstrumentFromContract | src/husfort/qinstruments.py:7-8 | the instrument id holds no ASCII digit and is no longer than the contract id |
| Instruments.ParseInstrumentOfCode | src/husfort/qinstruments.py:7-8 | a letters-then-digits contract id such as "MA105" parses to its letter prefix |
| Instruments.ParseInstrumentIdempotent | src/husfort/qinstruments.py:7-8 | parsing an instrument id a second time changes nothing |
| Instruments.GetExchange | src/husfort/qinstruments.py:90-98 | an unknown format raises ValueError; for a known format an unknown instrument raises KeyError; vanilla reads the table's exchange, Wind and Tushare the text after the "." of the vendor id |
| Instruments.ExchangeChs | src/husfort/qinstruments.py:100-110 | exactly the six Chinese futures exchanges have a Chinese name; any other exchange raises KeyError |
| Instruments.GetExchangeChs | src/husfort/qinstruments.py:100-110 | the Chinese name exists exactly when the instrument is known and its exchange is one of the six; KeyError otherwise |
| Instruments.ConvertContractFromVanilla | src/husfort/qinstruments.py:121-131 | succeeds exactly when the exchange lookup does, and then is the upper-cased contract id, a ".", and the exchange code |
| Instruments.ConvertContractToVanilla | src/husfort/qinstruments.py:133-147 | succeeds exactly for an id with one "." in the Wind or Tushare format, else ValueError; the result holds no "." and is shorter than the id |
| Instruments.VanillaRoundTrip | src/husfort/qinstruments.py:121-147 | converting a vanilla id to a vendor format and back returns it, when it holds no "." and is written in the case its exchange keeps |
| Instruments.DigitAt | src/husfort/qinstruments.py:180-182 | `int(s[i])` succeeds exactly on an ASCII digit, raising IndexError past the end and ValueError otherwise |
| Instruments.DecadeWindow | src/husfort/qinstruments.py:180-186 | the two-digit year given to a contract is never before the trade year and less than ten years after it |
| Instruments.InsertDecade | src/husfort/qinstruments.py:180-187 | succeeds exactly when the three digits read are digits; the result is the contract with one decade digit inserted after the instrument prefix |
| Instruments.InsertDecadeRemovable | src/husfort/qinstruments.py:180-187 | removing the inserted digit gives the contract back, and that digit is the trade decade or the one after it |
| Instruments.ReadCode | src/husfort/qinstruments.py:160-169 | vanilla ids look their exchange up in the table; vendor ids must split on exactly one "."; other formats raise ValueError; the prefix is never longer than the code |
| Instruments.FixContractIdAsWritten | src/husfort/qinstruments.py:149-187 | as written: errors of the lookup propagate and an exchange other than "CZCE" leaves the id unchanged |
| Instruments.VendorNeverFixedAsWritten | src/husfort/qinstruments.py:164-173 | as written, a Wind or Tushare Zhengzhou id ("...CZC", "...ZCE") is always returned unchanged |
| Instruments.ReadVendorCode | src/husfort/qinstruments.py:164-169 | a vendor id "cid.code" reads as exchange code, code length and prefix length of cid |
| Instruments.FixContractId | src/husfort/qinstruments.py:149-187 | as documented: errors of the lookup propagate; a non-Zhengzhou exchange, or a code part (before any vendor suffix) that already has a four-digit year, is kept; otherwise the decade digit is inserted |
| Instruments.WindFourDigitKept | src/husfort/qinstruments.py:175-178 | the Wind id "MA1105.CZC", whose code already has a four-digit year, is kept unchanged |
| Instruments.FixContractIdVanillaAgrees | src/husfort/qinstruments.py:149-187 | on vanilla ids the corrected and the as-written fix coincide |
| Instruments.WindFixExample | src/husfort/qinstruments.py:149-187 | "MA105.CZC" traded on 2020-12-01 is returned unchanged as written and becomes "MA2105.CZC" as intended |
| Instruments.VanillaFixAcrossDecade | src/husfort/qinstruments.py:180-187 | "ZC005" traded in 2019 is the 2020 contract "ZC2005" |
| Instruments.VanillaFixSameDecade | src/husfort/qinstruments.py:180-187 | "ZC105" traded in 2020 is the 2021 contract "ZC2105" |
| Instruments.VanillaFixFourDigits | src/husfort/qinstruments.py:175-178 | "ZC2005" already carries its year and is kept |
| InstrumentsBuild.GenFromOther | build/lib/husfort/qinstruments.py:176-183 | a new contract id on the other contract's instrument, exchange and multiplier; equal to the other exactly when the id is |
| InstrumentsBuild.GetExchangeId | build/lib/husfort/qinstruments.py:61-62 | the table's exchange for a known instrument, KeyError otherwise |
| InstrumentsBuild.ExchangeIdEng | build/lib/husfort/qinstruments.py:64-74 | exactly the six exchanges have a three-letter code; KeyError otherwise |
| InstrumentsBuild.ExchangeTablesAgree | build/lib/husfort/qinstruments.py:64-86 | the English and Chinese tables know the same exchanges, and no two exchanges share a short code |
| InstrumentsBuild.GetExchangeIdEng | build/lib/husfort/qinstruments.py:64-74 | defined exactly for a known instrument on one of the six exchanges; KeyError otherwise |
| InstrumentsBuild.GetExchangeIdChs | build/lib/husfort/qinstruments.py:76-86 | defined exactly for a known instrument on one of the six exchanges; KeyError otherwise |
| InstrumentsBuild.GenFromContractId | build/lib/husfort/qinstruments.py:166-174 | the contract built from its id carries the parsed instrument and that instrument's exchange and multiplier; KeyError for an unknown instrument |
| InstrumentsBuild.ConvertVanillaToWind | build/lib/husfort/qinstruments.py:97-106 | the upper-cased id, a ".", and at most three characters of the Wind code's exchange, which hold no "." |
| InstrumentsBuild.ConvertWindToVanilla | build/lib/husfort/qinstruments.py:108-116 | succeeds exactly for an id with one "."; ValueError otherwise |
| InstrumentsBuild.WindToVanillaAgrees | build/lib/husfort/qinstruments.py:108-116 | the older Wind conversion is the current revision's conversion for the Wind format |
| InstrumentsBuild.WindRoundTrip | build/lib/husfort/qinstruments.py:97-116 | vanilla to Wind and back returns the id when it has no "." and is in the case its exchange keeps |
| InstrumentsBuild.ReadCode | build/lib/husfort/qinstruments.py:129-138 | vanilla ids look their exchange up; Wind ids split on one "."; any other type raises ValueError |
| InstrumentsBuild.FixContractIdAsWritten | build/lib/husfort/qinstruments.py:118-152 | as written: errors propagate and an exchange other than "CZC" leaves the id unchanged |
| InstrumentsBuild.FixContractId | build/lib/husfort/qinstruments.py:118-152 | errors propagate; a non-Zhengzhou exchange, in the format's own spelling, or a four-digit id is kept; otherwise the decade digit is inserted |
| InstrumentsBuild.FixContractIdWindAgrees | build/lib/husfort/qinstruments.py:133-152 | on Wind ids the corrected and the as-written fix coincide |
| InstrumentsBuild.VanillaFixExample | build/lib/husfort/qinstruments.py:129-152 | vanilla "MA105" of a "CZCE" instrument traded on 2020-12-01 is kept as written but becomes "MA2105" as intended |
| InstrumentsBuild.WindFourDigitKept | build/lib/husfort/qinstruments.py:142-143 | "MA1105.CZC" already carries its year and is kept |
| SimCurrent.Sign | src/husfort/qsimulation.py:39-42 | a direction counts as +1 (long) or -1 (short) |
| SimCurrent.Cost | src/husfort/qsimulation.py:68-69 | the fee is never negative for non-negative price, multiplier, quantity and rate |
| SimCurrent.UnrealizedPnl | src/husfort/qsimulation.py:80-82 | a position at its cost price, or an empty one, has no unrealized profit |
| SimCurrent.CalTradeFromTarget | src/husfort/qsimulation.py:84-91 | the trade keeps the position's key and multiplier, has a non-negative quantity, opens exactly when the target is not below the holding, and its signed quantity carries the holding to the target |
| SimCurrent.ConvertAsTrade | src/husfort/qsimulation.py:93-100 | the trade is the whole holding under the position's key, with the given offset and price |
| SimCurrent.UpdateFromTrade | src/husfort/qsimulation.py:102-118 | an opening trade succeeds unless the new quantity is zero (ZeroDivisionError), a closing one unless it exceeds the holding (ValueError); the quantity moves by the signed trade, the fee is the trade's cost, opening realizes nothing and closing realizes at the cost price |
| SimCurrent.OpenAtOnePrice | src/husfort/qsimulation.py:102-108 | opening a fresh position makes the trade price its cost price |
| SimCurrent.CloseAllRealizes | src/husfort/qsimulation.py:102-118 | closing the whole holding leaves an empty position and realizes the unrealized profit at the trade price |
| SimCurrent.UpdateFromMarket | src/husfort/qsimulation.py:120-122 | only the last price changes |
| SimCurrent.QtyOf | src/husfort/qsimulation.py:341-342 | the quantity held under a key, 0 for a key the book lacks |
| SimCurrent.TradeFor | src/husfort/qsimulation.py:339-346 | without a book position the target is opened in full, otherwise the book position is carried to the target |
| SimCurrent.TradeForShift | src/husfort/qsimulation.py:339-346 | on consistent books the trade for a key is filed under it, can be applied, and asks for the gap between target and holding |
| SimCurrent.TargetTrades | src/husfort/qsimulation.py:340-347 | only trades with a positive quantity are kept |
| SimCurrent.CloseTrades | src/husfort/qsimulation.py:349-353 | only positive full closes are kept |
| SimCurrent.CalTrades | src/husfort/qsimulation.py:338-354 | every trade has a positive quantity |
| SimCurrent.TargetTradesKeys | src/husfort/qsimulation.py:340-347 | the target trades touch each key at most once, only keys with a target, and each can be applied to the book |
| SimCurrent.TargetTradesShift | src/husfort/qsimulation.py:340-347 | the target trades ask of a targeted key the gap between target and holding, and nothing of any other key |
| SimCurrent.CloseTradesKeys | src/husfort/qsimulation.py:349-353 | the close trades touch each key at most once, only keys held and not targeted, each applicable |
| SimCurrent.CloseTradesShift | src/husfort/qsimulation.py:349-353 | the close trades take a held, untargeted key to zero and ask nothing of other keys |
| SimCurrent.ApplyTrade | src/husfort/qsimulation.py:362-374 | fails exactly when the trade cannot be applied (closing an absent key raises ValueError); on success only the trade's key changes, by the signed quantity, and the book stays consistent |
| SimCurrent.UpdateFromTrades | src/husfort/qsimulation.py:356-376 | the fees add up to the trades' total cost and the book stays consistent |
| SimCurrent.UpdateFromTradesShift | src/husfort/qsimulation.py:356-376 | trades on distinct keys, each applicable, all succeed and move every key by exactly its shift |
| SimCurrent.CalTradesReachTarget | src/husfort/qsimulation.py:338-376 | the computed trades, applied to the book they came from, succeed and leave every key at its target quantity |
| SimCurrent.UpdateBookFromMarket | src/husfort/qsimulation.py:378-397 | the kept positions all hold a positive quantity and are marked at the day's close; the unrealized total is theirs |
| SimCurrent.MarketKeepsPositive | src/husfort/qsimulation.py:385-396 | marking keeps a key exactly when it holds a positive quantity, with that quantity |
| SimCurrent.MarketValid | src/husfort/qsimulation.py:385-396 | marking keeps the book's keys distinct |
| SimCurrent.DayReachesTarget | src/husfort/qsimulation.py:338-397 | after the trades and the close the book holds exactly the positive targets, at their quantities |
| SimCurrentRun.NewAccount | src/husfort/qsimulation.py:228-235 | a fresh account holds nothing, has no snapshots, and its NAV and last NAV are the initial cash |
| SimCurrentRun.Navps | src/husfort/qsimulation.py:241-243 | NAV per share times the initial cash is the NAV; ZeroDivisionError exactly for a zero initial cash |
| SimCurrentRun.Ret | src/husfort/qsimulation.py:245-247 | one plus the return, times the last NAV, is the NAV; ZeroDivisionError exactly for a zero last NAV |
| SimCurrentRun.UpdatePnl | src/husfort/qsimulation.py:249-252 | the NAV moves by the day's net realized profit and by the change of unrealized profit; nothing else changes |
| SimCurrentRun.TakeSnapshot | src/husfort/qsimulation.py:254-268 | appends exactly one row holding the account's figures and leaves the rest alone; ZeroDivisionError exactly when a ratio's divisor is zero |
| SimCurrentRun.UpdateLastNav | src/husfort/qsimulation.py:270-272 | the last NAV becomes the NAV; the NAV, the book and the snapshots are unchanged |
| SimCurrentRun.TargetPosition | src/husfort/qsimulation.py:327-335 | defined exactly when multiplier and close are non-zero; the quantity is NAV times abs(weight) over multiplier and close, rounded half to even, and non-negative for non-negative inputs |
| SimCurrentRun.TargetsFrom | src/husfort/qsimulation.py:325-336 | building the targets keeps the book's keys distinct and each position filed under its own key |
| SimCurrentRun.CovertSigToTargetPos | src/husfort/qsimulation.py:323-336 | KeyError when the date has no signal; a result is a consistent book |
| SimCurrentRun.TargetsFromKeys | src/husfort/qsimulation.py:325-336 | the targets succeed exactly when every signal entry is priced, and then hold exactly the keys of the entries |
| SimCurrentRun.TargetsFromNonNegative | src/husfort/qsimulation.py:329-331 | with non-negative NAV and positive multipliers and closes, every target quantity is non-negative |
| SimCurrentRun.GenSigExeDates | src/husfort/qsimulation.py:316-321 | as many signal dates as execution dates; fails exactly when the step back from bgn, as written with wrap-around, fails |
| SimCurrentRun.GenSigExeDatesNext | src/husfort/qsimulation.py:316-321 | each execution date is the trade date after its signal date and before stp, and the first signal date is where the step back from bgn lands |
| SimCurrentRun.GenSigExeDatesStart | src/husfort/qsimulation.py:317-318 | where the calendar holds a date before bgn, the dates exist and the first signal date is that trade date |
| SimCurrentRun.GenSigExeDatesWrapsAtStart | src/husfort/qsimulation.py:317-320 | from the calendar's first trade date the step back wraps to the last one and there is no signal or execution date at all |
| SimCurrentRun.Step | src/husfort/qsimulation.py:400-412 | one day appends exactly one snapshot, keeps the earlier ones and the account's constants |
| SimCurrentRun.StepBook | src/husfort/qsimulation.py:400-412 | a day of trading succeeds and leaves the book holding exactly the positive target positions, with the unrealized total taken from them |
| SimCurrentRun.Run | src/husfort/qsimulation.py:401-412 | the loop appends one snapshot per date pair and keeps the earlier ones |
| SimCurrentRun.LedgerAppend | src/husfort/qsimulation.py:249-272 | appending a snapshot that continues the ledger keeps it |
| SimCurrentRun.StepLedger | src/husfort/qsimulation.py:400-412 | a day keeps the ledger: each NAV is the initial cash plus net realized profit plus that day's unrealized profit, and each last NAV is the previous NAV |
| SimCurrentRun.RunLedger | src/husfort/qsimulation.py:399-412 | the whole loop keeps the ledger, so the final NAV is the initial cash plus all net realized profit plus the last unrealized profit |
| SimCurrentRun.Main | src/husfort/qsimulation.py:399-415 | a completed run starts from the initial cash, keeps the ledger, and has one snapshot per execution date |
| SimLegacy.Base | husfort/qsimulation.py:187-193 | a position plus carries the key and quantity of its plain position |
| SimLegacy.CalQuantity | build/lib/husfort/qsimulation.py:138-140 | defined exactly for a non-zero price and multiplier; the quantity is the allocation over price and multiplier rounded half to even, non-negative for non-negative inputs |
| SimLegacy.CalTradeFromOtherPos | husfort/qsimulation.py:155-167 | no trade exactly when the quantities agree; otherwise an opening or closing trade of the positive gap, which carries the holding to the other quantity |
| SimLegacy.Open | build/lib/husfort/qsimulation.py:172-174 | opens the whole holding under its key |
| SimLegacy.Close | build/lib/husfort/qsimulation.py:176-178 | closes the whole holding under its key, leaving zero |
| SimLegacy.UnrealizedOf | husfort/qsimulation.py:220-227 | zero at the cost price or for an empty position |
| SimLegacy.UpdateFromTrade | husfort/qsimulation.py:195-218 | an opening trade averages the cost price and fails only when the new quantity is zero (a non-finite cost price); a closing trade always succeeds, keeps the cost price and realizes at it; the record carries the fee and the realized profit |
| SimLegacy.OverCloseGoesNegative | husfort/qsimulation.py:202-204 | closing more than is held succeeds and leaves a negative quantity: this revision has no over-close guard |
| SimLegacy.CloseRealizesUnrealized | husfort/qsimulation.py:195-227 | a full close at the last price realizes exactly the unrealized profit |
| SimLegacy.UpdateFromMarketData | husfort/qsimulation.py:220-223 | the last price becomes the given price and the unrealized profit is recomputed from it; nothing else changes |
| SimLegacy.UpdateFromLast | build/lib/husfort/qsimulation.py:229-231 | only the unrealized profit changes, recomputed at the retained last price |
| SimLegacy.Mark | husfort/qsimulation.py:361-370 | a NaN close keeps the previous last price, a real close replaces it; the unrealized profit matches the last price |
| SimLegacy.MarkStable | husfort/qsimulation.py:361-370 | marking twice with the same close, or once more with a NaN close, changes nothing |
| SimLegacy.QtyOf | husfort/qsimulation.py:148-153 | the quantity held under a key, 0 for a key the book lacks |
| SimLegacy.TargetQty | husfort/qsimulation.py:272-302 | the quantity a target asks for under a key, 0 when it has none |
| SimLegacy.TargetsFrom | husfort/qsimulation.py:286-301 | the loop keeps the targets' keys distinct, each filed under its key and positive; a bad direction raises ValueError |
| SimLegacy.CalTargetPosition | husfort/qsimulation.py:272-302 | a cost reservation of -1 gives a non-finite budget; a result holds distinct, self-keyed, positive targets |
| SimLegacy.StepTargets | husfort/qsimulation.py:288-301 | a usable row adds its key exactly when its quantity is positive and touches no other key |
| SimLegacy.TargetsFromOk | husfort/qsimulation.py:288-301 | the targets succeed exactly when every row is usable |
| SimLegacy.TargetsFromHas | husfort/qsimulation.py:288-301 | successful targets hold exactly the keys some kept row asks for |
| SimLegacy.TradeFor | husfort/qsimulation.py:306-312 | a target the book lacks is opened in full; otherwise the book position is carried to the target |
| SimLegacy.CloseTrades | husfort/qsimulation.py:315-319 | every trade of step 1 is a close |
| SimLegacy.CalTradesForSignal | husfort/qsimulation.py:304-320 | the trade list holds at least the closes of step 1 |
| SimLegacy.TradeForShift | husfort/qsimulation.py:306-312 | the trade for a positive target on a consistent book is filed under its key, applicable, and asks for the gap between target and holding |
| SimLegacy.TargetTradesKeys | husfort/qsimulation.py:306-313 | the target trades touch each key at most once, only keys with a target, each applicable |
| SimLegacy.TargetTradesShift | husfort/qsimulation.py:306-313 | the target trades ask of a targeted key the gap to its target and nothing of others |
| SimLegacy.CloseTradesKeys | husfort/qsimulation.py:315-319 | the close trades touch each key at most once, only keys held and not targeted |
| SimLegacy.CloseTradesShift | husfort/qsimulation.py:315-319 | the close trades take a held, untargeted key to zero and ask nothing of others |
| SimLegacy.ApplyTrade | husfort/qsimulation.py:337-342 | fails exactly when the trade cannot be applied; only the trade's key changes, by the signed quantity, and the book stays consistent |
| SimLegacy.ApplyTrades | husfort/qsimulation.py:337-342 | one record per trade, each from its own trade, and the book stays consistent |
| SimLegacy.ApplyTradesShift | husfort/qsimulation.py:337-342 | trades on distinct keys, each applicable, all succeed and move a key by exactly its shift |
| SimLegacy.Prune | build/lib/husfort/qsimulation.py:347-350 | the intended prune keeps exactly the positions with a non-zero quantity |
| SimLegacy.PruneKeeps | build/lib/husfort/qsimulation.py:347-350 | pruning keeps every quantity and keeps a key exactly when it is non-zero |
| SimLegacy.PruneAsWritten | husfort/qsimulation.py:344-347 | as written the loop raises RuntimeError exactly when some position is empty, and otherwise returns the book unchanged |
| SimLegacy.PruneAsWrittenAgrees | husfort/qsimulation.py:344-347 | when the written loop survives it agrees with the intended prune |
| SimLegacy.UpdateFromTradesAsWritten | husfort/qsimulation.py:336-348 | as written: once the trades succeed the only failure left is the prune's RuntimeError; a result holds no empty position |
| SimLegacy.UpdateFromTrades | husfort/qsimulation.py:336-348 | succeeds exactly when the trade loop does, keeps its records, and leaves no empty position |
| SimLegacy.FullCloseCrashesAsWritten | husfort/qsimulation.py:336-348 | closing the only position raises RuntimeError as written, where the intended prune leaves an empty book |
| SimLegacy.UpdateFromTradesAgrees | husfort/qsimulation.py:336-348 | both readings fail alike on a failing trade; otherwise the written one agrees with the intended one or raises RuntimeError |
| SimLegacy.ApplyTradesKeeps | husfort/qsimulation.py:338-343 | the trade loop never takes a key out of the book |
| SimLegacy.EmptiedCrashesAsWritten | husfort/qsimulation.py:336-348 | trades that leave a held key at quantity 0 make the written prune raise RuntimeError |
| SimLegacy.SignalTradesPlan | husfort/qsimulation.py:304-320 | the signal trades hit distinct keys, are each applicable, and ask each key for the gap to its target |
| SimLegacy.PlanReachesTarget | husfort/qsimulation.py:336-348 | such trades, applied and pruned, leave each key at its target and keep it exactly when it is targeted |
| SimLegacy.CalTradesReachTarget | husfort/qsimulation.py:304-348 | the signal trades, applied to their book and pruned, leave it holding exactly the targets at their quantities |
| SimLegacy.RollKey | husfort/qsimulation.py:325-328 | the rolled key keeps the direction and instrument and is on the major contract |
| SimLegacy.CalTradesForMajor | husfort/qsimulation.py:322-334 | the rollover trades come in close/open pairs |
| SimLegacy.RolloverShift | husfort/qsimulation.py:322-334 | a rolled key gives up its whole quantity; every key takes what is rolled into it |
| SimLegacy.RolloverEmptiesRolled | husfort/qsimulation.py:322-342 | after the rollover trades every rolled key is empty and every other key holds its quantity plus the inflow |
| SimLegacy.InflowRolled | husfort/qsimulation.py:322-334 | nothing is rolled into a key that itself rolls |
| SimLegacy.UpdateUnrealizedPnl | husfort/qsimulation.py:358-371 | every position keeps its key, quantity and cost price and is marked at its close, or at its old last price for a NaN close; the total is the sum of the positions' unrealized profit |
| SimLegacyRun.NewPortfolio | husfort/qsimulation.py:243-269 | a new portfolio holds nothing, has realized nothing and starts with the NAV equal to the initial cash |
| SimLegacyRun.InitializeDaily | husfort/qsimulation.py:351-356 | the new date is set and the day's records and realized profit cleared; nothing else changes |
| SimLegacyRun.ColumnsNet | husfort/qsimulation.py:373-376 | the realized column sum minus the cost column sum is the records' net realized profit |
| SimLegacyRun.UpdateRealizedPnl | husfort/qsimulation.py:373-378 | with records the day's realized profit is their net, without it stays; the cumulative figure grows by it; nothing else changes |
| SimLegacyRun.UpdateNav | build/lib/husfort/qsimulation.py:382-384 | only the NAV changes, to the initial cash plus cumulative realized plus unrealized profit |
| SimLegacyRun.SaveNavSnapshot | husfort/qsimulation.py:384-394 | appends exactly one row of the day's figures; ZeroDivisionError exactly for a zero initial cash |
| SimLegacyRun.IsRebalanceDay | husfort/qsimulation.py:433 | ZeroDivisionError exactly for a zero holding period; otherwise true exactly when (ti - start_delay) is a multiple of it |
| SimLegacyRun.RebalancePeriodic | husfort/qsimulation.py:433 | rebalance days recur every holding period |
| SimLegacyRun.RebalanceAtDelay | husfort/qsimulation.py:433 | the position at the start delay is a rebalance day |
| SimLegacyRun.PriceTrades | husfort/qsimulation.py:443-445 | succeeds exactly when every trade has a real close, and then only the executed prices change, to the day's close |
| SimLegacyRun.PlanOf | husfort/qsimulation.py:433-442 | a rebalance day trades toward the targets of the signal date; any other day rolls positions to the major contracts |
| SimLegacyRun.Day | husfort/qsimulation.py:429-458 | with the corrected signal-date step and prune, a completed day keeps the constants, balances the NAV, adds the day's net realized profit, marks the book, leaves no empty position and appends one snapshot |
| SimLegacyRun.MarkedNonEmpty | husfort/qsimulation.py:358-371 | marking keeps every position non-empty |
| SimLegacyRun.MarkedQty | husfort/qsimulation.py:358-371 | marking keeps every key and its quantity |
| SimLegacyRun.Loop | husfort/qsimulation.py:427-458 | with the corrected day, the loop appends one snapshot per date and keeps the earlier ones |
| SimLegacyRun.MainLoop | husfort/qsimulation.py:424-458 | with the corrected day, one snapshot per date of the calendar window |
| SimLegacyRun.NewPortfolioLedger | husfort/qsimulation.py:243-269 | a new portfolio satisfies the ledger |
| SimLegacyRun.DayLedger | husfort/qsimulation.py:429-458 | the corrected day keeps the ledger: each snapshot's NAV is the initial cash plus the realized profit so far plus that day's unrealized profit |
| SimLegacyRun.LoopLedger | husfort/qsimulation.py:424-458 | the corrected loop keeps the ledger, so the final NAV is the initial cash plus all daily realized profit plus the last unrealized profit |
| SimLegacyRun.RebalanceDayReachesTarget | husfort/qsimulation.py:433-448 | with the corrected prune, on a completed rebalance day the book holds exactly the targets computed from the previous trade date's signal, at their quantities |
| SimLegacyRun.OtherDayRolls | husfort/qsimulation.py:438-448 | with the corrected prune, on any other completed day no position is left on a contract that is no longer the major one |
| SimLegacyRun.TradedAsWritten | husfort/qsimulation.py:429-448 | as written: an unknown trade date raises ValueError, and traded books hold no empty position |
| SimLegacyRun.Traded | husfort/qsimulation.py:429-448 | with the corrected date step: an unknown trade date raises ValueError, success needs a previous trade date and a non-zero holding period, zero gives ZeroDivisionError, and the traded book holds no empty position |
| SimLegacyRun.Settle | husfort/qsimulation.py:449-458 | settling traded books realizes the records' net profit, marks the book at the close, balances the NAV and appends one snapshot; ZeroDivisionError exactly for a zero initial cash |
| SimLegacyRun.DayAsWritten | husfort/qsimulation.py:429-458 | as written: an unknown trade date raises ValueError; a completed day keeps the initial cash, balances the NAV, leaves no empty position and appends one snapshot |
| SimLegacyRun.TradedAgrees | husfort/qsimulation.py:429-448 | where the trade date has a predecessor, the written trading fails as the intended one does, agrees when it completes, and otherwise raises RuntimeError |
| SimLegacyRun.DayAgrees | husfort/qsimulation.py:429-458 | a completed written day is the intended day, and where they differ the written day raised RuntimeError |
| SimLegacyRun.LoopAsWritten | husfort/qsimulation.py:427-458 | as written: the loop appends one snapshot per date |
| SimLegacyRun.MainLoopAsWritten | husfort/qsimulation.py:424-458 | as written: one snapshot per date of the calendar window |
| SimLegacyRun.LoopAgrees | husfort/qsimulation.py:427-458 | over dates that each have a predecessor, a completed written loop is the intended one, and where they differ the written loop raised RuntimeError |
| SimLegacyRun.MainLoopAgrees | husfort/qsimulation.py:424-458 | when some trade date precedes bgn, the written main loop agrees with the intended one up to the prune's RuntimeError |
| SimLegacyRun.WindowDateHasPredecessor | husfort/qsimulation.py:427-430 | when some trade date precedes bgn, every date of the window has a trade date before it |
| SimLegacyRun.RebalanceCloseCrashesAsWritten | husfort/qsimulation.py:433-448 | as written, a completed rebalance day that closes a held position missing from the new targets raises RuntimeError |
| SimLegacyRun.RolloverCrashesAsWritten | husfort/qsimulation.py:438-448 | as written, a completed day that rolls a held position off a non-major contract raises RuntimeError |
| SimLegacyRun.EmptiedCrashes | husfort/qsimulation.py:429-448 | as written, a day whose priced trades leave a held key at quantity 0 raises RuntimeError |
| SqliteLegacy.NamesOf | husfort/qsqlite.py:26-32 | one name per column description, in order |
| SqliteLegacy.Names | husfort/qsqlite.py:34-35 | the primary-key names followed by the value-column names |
| SqliteLegacy.Size | husfort/qsqlite.py:22-23 | the column count is the number of names |
| SqliteLegacy.CmdSqlUpd | husfort/qsqlite.py:71-75 | an "INSERT OR REPLACE INTO <table> (" statement closed by ")" |
| SqliteLegacy.UpdPlaceholders | husfort/qsqlite.py:71-75 | for names and a table name without "?", the insert statement has exactly one "?" per column |
| SqliteLegacy.UpdColumnSeparators | husfort/qsqlite.py:72 | for names without ",", the column list has one separator fewer than columns |
| SqliteLegacy.CmdSqlPrimary | husfort/qsqlite.py:85-88 | "PRIMARY KEY(...)" around exactly the joined primary-key names |
| SqliteLegacy.CmdSqlVars | husfort/qsqlite.py:77-82 | empty without columns; with comma-free names and types, one comma fewer than there are columns |
| SqliteLegacy.CreateStatement | husfort/qsqlite.py:139-144 | a parameterless "CREATE TABLE IF NOT EXISTS" statement, so an existing table is kept, closed by the primary-key clause |
| SqliteLegacy.InitTable | husfort/qsqlite.py:122-149 | mode "r" issues nothing; mode "w" on an existing table drops it first; modes "w" and "a" end with CREATE TABLE IF NOT EXISTS |
| SqliteLegacy.NewMgr | husfort/qsqlite.py:105-120 | succeeds exactly for modes "w", "a", "r", else ValueError; the manager keeps mode and table and issues the table set-up |
| SqliteLegacy.CheckPermission | husfort/qsqlite.py:171-174 | grants writing exactly outside mode "r"; ValueError otherwise |
| SqliteLegacy.ExecuteWrite | husfort/qsqlite.py:176-182 | a write issues its one statement exactly outside mode "r" |
| SqliteLegacy.RemoveTable | husfort/qsqlite.py:189-192 | a DROP TABLE statement, only outside mode "r" |
| SqliteLegacy.Update | husfort/qsqlite.py:315-330 | outside mode "r", one insert statement per row carrying that row's values; ValueError in mode "r" |
| SqliteLegacy.ParseValueColumns | husfort/qsqlite.py:158-160 | "*" when no columns are asked for |
| SqliteLegacy.GetColumnNames | husfort/qsqlite.py:162-163 | the asked columns, or every column of the table when none are asked for |
| SqliteLegacy.SelectedColumnsAgree | husfort/qsqlite.py:158-163 | the result's labels always describe what was selected |
| SqliteLegacy.RenderCond | husfort/qsqlite.py:229 | "column op 'value'", four characters longer than its parts |
| SqliteLegacy.RenderCondSplit | husfort/qsqlite.py:229 | for parts without spaces, a rendered condition splits back into its three parts |
| SqliteLegacy.Select | husfort/qsqlite.py:212-233 | a row is selected exactly when it satisfies every condition |
| SqliteLegacy.ReadByConditions | husfort/qsqlite.py:212-233 | "SELECT <columns> FROM <table> WHERE ...", labelled with the selected columns |
| SqliteLegacy.ReadByRange | husfort/qsqlite.py:241-248 | labelled with the selected columns |
| SqliteLegacy.ReadByRangeText | husfort/qsqlite.py:241-248 | the WHERE clause is "trade_date >= 'bgn' and trade_date < 'stp'" |
| SqliteLegacy.ReadByRangeWindow | husfort/qsqlite.py:241-248 | a row is read exactly when its trade date lies in the half-open window [bgn, stp) |
| SqliteLegacy.Read | husfort/qsqlite.py:194-198 | "SELECT <columns> FROM <table>" with no condition, labelled with the selected columns |
| SqliteLegacy.Limit | husfort/qsqlite.py:200-210 | SQLite's LIMIT keeps the first n rows, all of them for a negative n |
| SqliteLegacy.HeadRows | husfort/qsqlite.py:200-204 | head(n) is the first n rows in rowid order, all of them for a negative n |
| SqliteLegacy.TailRows | husfort/qsqlite.py:206-210 | tail(n) returns n rows, all of them for a negative n or a short table, and ends with the table's last row |
| SqliteLegacy.TailRowsSuffix | husfort/qsqlite.py:206-210 | tail(n) is the last n rows in rowid order, all of them for a negative n |
| SqliteLegacy.TailOneIsLast | husfort/qsqlite.py:268-270 | tail(1) of a non-empty table is its last row, of an empty one nothing |
| SqliteLegacy.ReadByDate | husfort/qsqlite.py:235-239 | a WHERE query labelled with the selected columns |
| SqliteLegacy.ReadByDateRows | husfort/qsqlite.py:235-239 | a row is read exactly when its trade date is the given date |
| SqliteLegacy.ReadByInstrument | husfort/qsqlite.py:250-254 | a WHERE query labelled with the selected columns |
| SqliteLegacy.ReadByInstrumentRows | husfort/qsqlite.py:250-254 | a row is read exactly when it is of the given instrument |
| SqliteLegacy.ReadByInstrumentRange | husfort/qsqlite.py:256-265 | a WHERE query labelled with the selected columns |
| SqliteLegacy.ReadByInstrumentRangeRows | husfort/qsqlite.py:256-265 | a row is read exactly when it is of the instrument and its date lies in [bgn, stp) |
| SqliteLegacy.DeleteByConditions | husfort/qsqlite.py:332-347 | one "DELETE from <table> WHERE (" statement, only outside mode "r"; ValueError in mode "r" |
| SqliteLegacy.DeleteByDate | husfort/qsqlite.py:349-351 | outside mode "r", exactly the statement deleting the rows of that trade date |
| SqliteLegacy.DeleteBySection | husfort/qsqlite.py:353-359 | one DELETE statement, only outside mode "r" |
| SqliteLegacy.DeleteBySectionRows | husfort/qsqlite.py:353-359 | the deletion targets exactly the rows of the section's date and section |
| SqliteLegacy.WritesNeedPermission | husfort/qsqlite.py:171-182 | every write path refuses exactly a read-only manager |
| SqliteLegacy.VerdictTrichotomy | husfort/qsqlite.py:275-286 | 0, 1 and 2 mean the expected date equals, precedes or follows the incoming one |
| SqliteLegacy.CheckContinuity | husfort/qsqlite.py:267-286 | an empty table passes; otherwise the check succeeds exactly when the last date is a trade date with a successor, and an unknown last date raises ValueError |
| SqliteLegacy.ContinuityOnCalendar | husfort/qsqlite.py:267-286 | 0 exactly for the next trade date, 1 exactly when a date is skipped, and for a trade date 2 exactly when it is not after the stored one |
| SqliteLegacy.CheckSectionContinuity | husfort/qsqlite.py:288-313 | an empty table passes; 3 exactly when the last row's section id is unknown; TypeError when the last row is the calendar's final section |
| SqliteLegacy.SectionContinuityOnCalendar | husfort/qsqlite.py:288-313 | 0 exactly for the next section, 1 exactly when the next section lies before the appended one, and the final section raises |
| H5Build.CheckContinuity | build/lib/husfort/qh5.py:81-110 | a missing or empty table passes with 0; otherwise the verdict of the stored last date's calendar successor against the appended date, never above 2 |
| H5Build.AgreesWithSqlite | build/lib/husfort/qh5.py:81-110 | the HDF5 check and the SQLite check reach the same verdict on the same last stored date |
| H5Build.AcceptedAppendKeepsRun | build/lib/husfort/qh5.py:81-110 | on a table holding a run of consecutive trade dates, 0 is given exactly for the next trade date, and appending it keeps the run |
| NavSeries.CumProd | src/husfort/qevaluation.py:88-89 | the compounded series has one value per return and starts at one plus the first return |
| NavSeries.CumProdStep | src/husfort/qevaluation.py:88-89 | each compounded value is the previous one times one plus its return |
| NavSeries.Normalise | src/husfort/qevaluation.py:79-91 | ValueError exactly for a type other than "NAV" or "RET" in any case; "RET" compounds the returns; "NAV" succeeds exactly for a non-empty series with a non-zero start and finite steps, then starts at 1 with return 0 and is the input over its first value; an empty NAV series raises IndexError |
| NavSeries.NavReturnRoundTrip | src/husfort/qevaluation.py:83-85 | compounding the derived returns of a NAV input gives back the normalised NAV |
| NavSeries.CumMax | src/husfort/qevaluation.py:165 | the running maximum is never below any earlier value |
| NavSeries.CumMaxAttained | src/husfort/qevaluation.py:165 | the running maximum at i is the value of some position up to i |
| NavSeries.Drawdown | src/husfort/qevaluation.py:165 | the drawdown series is defined exactly when no running high is zero, one value per position |
| NavSeries.DrawdownPositive | src/husfort/qevaluation.py:165 | for a positive NAV each drawdown lies in [0, 1) and is 0 exactly at a running high |
| NavSeries.MaxIdx | src/husfort/qevaluation.py:166-167 | the maximum of a non-empty series and the first position holding it |
| NavSeries.MaxIdxInt | src/husfort/qevaluation.py:204-205 | the maximum of a non-empty integer series and the first position holding it |
| NavSeries.RecoverSeries | src/husfort/qevaluation.py:210-225 | one recovery duration per position, each that position's entry of the loop |
| NavSeries.HighAfterIsFirstMax | src/husfort/qevaluation.py:213-222 | the high the recovery loop tracks at i is the first position of the maximum so far |
| NavSeries.RecoverIsDistanceToHigh | src/husfort/qevaluation.py:213-222 | each recovery duration is the distance back to the first position of the running high, between 0 and i |
| NavSeries.DdLoop | src/husfort/qevaluation.py:191-203 | after n steps: n entries, the tracked high is the maximum of the first n values at its position, entry 0 is 0 and entry i lies in [-i, i]; a positive NAV never fails |
| NavSeries.DdSeries | src/husfort/qevaluation.py:188-208 | an empty series raises IndexError; a result has one entry per position, starting at 0, entry i in [-i, i]; a positive NAV always succeeds |
| NavSeries.NewHighNegative | src/husfort/qevaluation.py:196-203 | at a strict new high after the start the loop keeps the earlier drawdown position, so the entry written there is negative |
| NavSeries.DdMaxNonNegative | src/husfort/qevaluation.py:204 | the longest drawdown duration reported is never negative |
| ValueAtRisk.VarKey | src/husfort/qevaluation.py:229 | a percentile key is "q" followed by at least two digits |
| ValueAtRisk.VarKeyInjective | src/husfort/qevaluation.py:229 | distinct percentiles never share a key, so no requested percentile overwrites another |
| ValueAtRisk.VarMap | src/husfort/qevaluation.py:229 | every requested percentile has its key in the value-at-risk dict |
| ValueAtRisk.VarMapEntry | src/husfort/qevaluation.py:229 | every entry of the dict is the percentile of a requested q whose key it is |
| ValueAtRisk.VarMapKeys | src/husfort/qevaluation.py:229 | every key of the value-at-risk dict starts with "q" |
| EvaluationCurrent.NewNav | src/husfort/qevaluation.py:54-116 | the constructor succeeds exactly for the "NAV" and "RET" input types, keeps the normalised NAV and return series, and leaves every indicator unavailable |
| EvaluationCurrent.Memo | src/husfort/qevaluation.py:119-121 | an indicator already available is kept; an unavailable one becomes available with the new value |
| EvaluationCurrent.CalReturnMean | src/husfort/qevaluation.py:118-122 | the mean return becomes available, is the series mean when it was unset, and nothing else changes |
| EvaluationCurrent.CalReturnStd | src/husfort/qevaluation.py:124-128 | the return deviation becomes available and nothing else changes |
| EvaluationCurrent.CalHoldPeriodReturn | src/husfort/qevaluation.py:130-134 | the holding-period return is the last NAV less one; an empty series raises IndexError; a value already computed is kept |
| EvaluationCurrent.CalAnnualReturn | src/husfort/qevaluation.py:136-145 | "linear" in any case gives the mean return times the annual factor, "compound" the compound figure, any other method ValueError, and a computed value is kept whatever the method |
| EvaluationCurrent.CalAnnualVolatility | src/husfort/qevaluation.py:147-151 | the annualised volatility becomes available and nothing else changes |
| EvaluationCurrent.CalSharpeRatio | src/husfort/qevaluation.py:153-160 | the Sharpe ratio becomes available and nothing else changes |
| EvaluationCurrent.CalMaxDrawdownScale | src/husfort/qevaluation.py:162-168 | the drawdown series is one less the NAV over its running maximum, the maximum drawdown is its largest value at the first position reaching it; an empty series raises ValueError |
| EvaluationCurrent.CalCalmarRatio | src/husfort/qevaluation.py:170-176 | the Calmar ratio is the annual return over the maximum drawdown, computing either first only when it is unavailable, and changes nothing besides those three |
| EvaluationCurrent.CalScore | src/husfort/qevaluation.py:178-186 | the score becomes available exactly when both Sharpe and Calmar are, and is then their sum |
| EvaluationCurrent.CalLongestDrawdownDuration | src/husfort/qevaluation.py:188-208 | the drawdown-duration series is the one of the loop over the NAV, its maximum and first position are reported; an empty series raises IndexError |
| EvaluationCurrent.CalLongestRecoverDuration | src/husfort/qevaluation.py:210-225 | the recovery-duration series counts positions since the running high, its maximum and first position are reported; an empty series raises IndexError |
| EvaluationCurrent.CalValueAtRisk | src/husfort/qevaluation.py:227-231 | the value at risk is set to the percentile dict exactly when it was unset and some percentile is requested |
| EvaluationCurrent.CalAllIndicators | src/husfort/qevaluation.py:233-264 | every indicator is computed, and the durations and value at risk exactly when they are not excluded (the value at risk also needs a percentile) |
| EvaluationCurrent.CalAllIdempotent | src/husfort/qevaluation.py:233-264 | a second `cal_all_indicators` on a NAV whose indicators are all computed changes nothing |
| EvaluationCurrent.CalAllKeepsMethod | src/husfort/qevaluation.py:251-255 | from a fresh NAV the annual return reported is the one of the method asked for, although the Calmar step asks for the default one |
| EvaluationCurrent.CalAllComputesVolatility | src/husfort/qevaluation.py:252 | from a fresh NAV the annualised volatility is computed |
| EvaluationCurrent.ToDict | src/husfort/qevaluation.py:266-312 | the dict holds exactly the fixed keys of available indicators and the value-at-risk keys, the latter carrying their percentiles |
| EvaluationCurrent.VarKeyNotFixed | src/husfort/qevaluation.py:229 | no percentile key collides with a fixed key of the report |
| EvaluationCurrent.ToDictOnlyFixed | src/husfort/qevaluation.py:310-311 | without a value at risk only fixed keys are reported |
| EvaluationCurrent.ToDictVarKeys | src/husfort/qevaluation.py:310-311 | once the value at risk is computed every requested percentile's key is reported |
| EvaluationCurrent.ToDictNoVarKeys | src/husfort/qevaluation.py:310-311 | without a value at risk no percentile key is reported |
| EvaluationCurrent.ToDictFixed | src/husfort/qevaluation.py:268-308 | a fixed key is reported exactly when its indicator is available |
| EvaluationCurrent.ToDictReportsFixed | src/husfort/qevaluation.py:289-308 | with the score computed the score is reported, and each duration is reported exactly when computed |
| EvaluationCurrent.ToDictReportsVar | src/husfort/qevaluation.py:310-311 | a requested percentile's key is reported exactly when the value at risk was computed |
| EvaluationCurrent.CalAllReports | src/husfort/qevaluation.py:233-312 | after `cal_all_indicators` on a fresh NAV the report always has a score, has each duration exactly when it was not excluded, and each percentile key exactly when "var" was not excluded |
| EvaluationLegacy.NewCnav | husfort/qevaluation.py:12-75 | the constructor succeeds exactly for "NAV" and "RET", keeps the normalised series and starts every figure at zero |
| EvaluationLegacy.CalHoldPeriodReturn | husfort/qevaluation.py:85-87 | the holding-period return is the last NAV less one; an empty series raises IndexError |
| EvaluationLegacy.CalAnnualReturn | husfort/qevaluation.py:93-101 | "linear" gives the mean return times the annual factor, "compound" the compound figure, any other method ValueError, recomputed on every call |
| EvaluationLegacy.CalMaxDrawdownScale | husfort/qevaluation.py:110-114 | the drawdown series, its maximum and the first position of the maximum; an empty series raises ValueError |
| EvaluationLegacy.CalCalmarRatio | husfort/qevaluation.py:116-120 | the annual return is recomputed by the linear method and the Calmar ratio is it over the maximum drawdown |
| EvaluationLegacy.CalMaxDrawdownDuration | husfort/qevaluation.py:122-139 | the drawdown-duration series of the loop, its maximum and first position; an empty series raises IndexError |
| EvaluationLegacy.CalMaxRecoverDuration | husfort/qevaluation.py:141-153 | positions since the running high, never negative, with maximum and first position; an empty series raises IndexError |
| EvaluationLegacy.CalValueAtRisk | husfort/qevaluation.py:155-156 | every requested percentile is set under its key, earlier keys not requested stay, and no other key appears |
| EvaluationLegacy.CalPrimary | husfort/qevaluation.py:166-170 | the first steps succeed exactly for a non-empty series and a known method, and leave the volatility as it was |
| EvaluationLegacy.CalSecondary | husfort/qevaluation.py:172-174 | after the Calmar and duration steps the annual return is the linear one and the Calmar ratio its quotient by the maximum drawdown |
| EvaluationLegacy.CalAllIndicators | husfort/qevaluation.py:158-176 | an empty series raises IndexError and an unknown method ValueError; on success the annual return is the linear one whatever the method, the volatility is left as it was, and every requested percentile is set |
| EvaluationLegacy.CalAllLosesCompound | husfort/qevaluation.py:169-172 | asking for "compound" does not report the compound figure when it differs from the linear one |
| EvaluationLegacy.Entries | husfort/qevaluation.py:185-199 | both languages report thirteen fixed figures |
| EvaluationLegacy.Fixed | husfort/qevaluation.py:185-199 | the fixed dict has exactly the keys of the chosen language |
| EvaluationLegacy.ToDict | husfort/qevaluation.py:178-220 | "eng" and "chs" in any case are accepted and any other save type raises ValueError; the keys are the language's fixed keys and the value-at-risk keys |
| EvaluationLegacy.Report | husfort/qevaluation.py:200 | the report holds the fixed keys and the value-at-risk keys |
| EvaluationLegacy.FixedAt | husfort/qevaluation.py:185-199 | with distinct keys each fixed key reports its own figure |
| EvaluationLegacy.FixedKeysNotQ | husfort/qevaluation.py:185-216 | no fixed key of either language starts with "q", so the value-at-risk update cannot overwrite one |
| EvaluationLegacy.ReportFixedEntry | husfort/qevaluation.py:185-200 | each fixed key still reports its own figure after the value-at-risk update |
| EvaluationLegacy.ToDictAsReport | husfort/qevaluation.py:184-217 | "eng" selects the English keys and "chs" the Chinese ones |
| EvaluationLegacy.ReportEng | husfort/qevaluation.py:185-200 | each English key reports its figure |
| EvaluationLegacy.ReportChs | husfort/qevaluation.py:202-217 | each Chinese key reports its figure |
| EvaluationLegacy.ToDictLanguagesAgree | husfort/qevaluation.py:184-217 | the i-th English key and the i-th Chinese key carry the same figure |
| SimQuick.Buffer | src/husfort/qsimquick.py:92-94 | with the corrected backward step: the window starts shift + 1 trade dates before the begin date and runs to the stop date; it fails exactly when the calendar cannot step back that far |
| SimQuick.BufferAsWritten | src/husfort/qsimquick.py:92-94 | as written: the window starts where the wrapping step back of shift + 1 trade dates lands; it fails exactly when that step fails |
| SimQuick.BufferAgrees | src/husfort/qsimquick.py:92-94 | where the calendar can step back far enough both windows are the same |
| SimQuick.BufferWrapsAtStart | src/husfort/qsimquick.py:92-94 | from the calendar's first trade date the corrected window raises IndexError while the one as written starts at the last trade date |
| SimQuick.GetDatesAsWritten | src/husfort/qsimquick.py:91-97 | as written, on the window as written: for a positive shift the signal dates lead the execution dates by `shift` positions of the window; for shift 0 there is no signal date and the execution dates are the whole window |
| SimQuick.GetDates | src/husfort/qsimquick.py:91-97 | as intended: every shift pairs each signal date with the execution date `shift` positions later, as many of one as of the other |
| SimQuick.GetDatesAgree | src/husfort/qsimquick.py:91-97 | for every positive shift the code as written computes the intended dates wherever the calendar can step back far enough |
| SimQuick.GetDatesShiftZero | src/husfort/qsimquick.py:95 | with shift 0 the code as written yields no signal date while the intended signal dates are the whole window |
| SimQuick.ExeFollowsSig | src/husfort/qsimquick.py:95-96 | on a sorted calendar each execution date is the trade date `shift` positions after its signal date |
| SimQuick.ExeSorted | src/husfort/qsimquick.py:96 | the execution dates are strictly increasing |
| SimQuick.Load | src/husfort/qsimquick.py:217-218 | the loaded rows are exactly the stored rows dated in [bgn, stp) |
| SimQuick.LoadIdempotent | src/husfort/qsimquick.py:217-218 | loading the loaded rows again changes nothing |
| SimQuick.LoadCalendarWindow | src/husfort/qsimquick.py:217-218 | for rows dated on a sorted calendar the loaded rows are those whose date lies in the calendar window |
| SimQuick.Fill | src/husfort/qsimquick.py:102 | a missing value becomes 0 and a present one is kept |
| SimQuick.Matches | src/husfort/qsimquick.py:102 | the signal rows matching a return row are exactly those with its date and instrument |
| SimQuick.MergeOne | src/husfort/qsimquick.py:102 | a return row yields one merged row per matching signal, or one row of weight 0, each carrying its date, instrument and return |
| SimQuick.Merge | src/husfort/qsimquick.py:99-103 | the right merge keeps every return row at least once |
| SimQuick.MergeUnique | src/husfort/qsimquick.py:102 | with at most one signal per date and instrument the merge keeps exactly one row per return row, in order, with the matching weight |
| SimQuick.MissingSignalWeighsZero | src/husfort/qsimquick.py:102 | a return row without a signal gets weight 0 |
| SimQuick.DateKeys | src/husfort/qsimquick.py:106 | the group dates are strictly increasing and are exactly the dates in the table |
| SimQuick.InstrumentKeys | src/husfort/qsimquick.py:107 | the pivot columns are strictly increasing and are exactly the instruments in the table |
| SimQuick.DayRows | src/husfort/qsimquick.py:106 | a day's group holds exactly the rows of that date |
| SimQuick.DayRowsPartition | src/husfort/qsimquick.py:106 | every row lies in the group of its date and every group is non-empty |
| SimQuick.RawRetUnweighted | src/husfort/qsimquick.py:106 | a day whose weights are all zero has a raw return of zero |
| SimQuick.Pivot | src/husfort/qsimquick.py:107 | a pivot cell is missing exactly when the instrument has no row that day |
| SimQuick.TurnoverAsWritten | src/husfort/qsimquick.py:108-109 | as written: the turnover between two days is never negative |
| SimQuick.Turnover | src/husfort/qsimquick.py:108-109 | as intended: the turnover is never negative, a missing instrument counting as weight 0 |
| SimQuick.TurnoverAsWrittenAtMost | src/husfort/qsimquick.py:108-109 | the code as written never charges more turnover than intended |
| SimQuick.TurnoverAgree | src/husfort/qsimquick.py:108-109 | both turnovers agree when each instrument has rows on both days or on neither |
| SimQuick.TurnoverSwitchExample | src/husfort/qsimquick.py:108 | moving the whole book from A to B is charged 0 as written and 2 as intended |
| SimQuick.TurnoversAsWritten | src/husfort/qsimquick.py:108-109 | one turnover per date as written, non-negative, 0 on the first date |
| SimQuick.Turnovers | src/husfort/qsimquick.py:108-109 | one turnover per date as intended, non-negative, 0 on the first date |
| SimQuick.Assemble | src/husfort/qsimquick.py:110-118 | each result row has the day's raw return, turnover, cost at the rate, net return and execution date |
| SimQuick.CalCoreAsWritten | src/husfort/qsimquick.py:105-119 | as written: the frame is built exactly when there are as many execution dates as dates, else ValueError |
| SimQuick.CalCore | src/husfort/qsimquick.py:105-119 | as intended: the same rows with the intended turnover; ValueError on a length mismatch |
| SimQuick.NetBelowRaw | src/husfort/qsimquick.py:110-111 | with a non-negative cost rate the cost is non-negative and the net return never exceeds the raw return |
| SimQuick.CalCoreAsWrittenUndercharges | src/husfort/qsimquick.py:105-119 | both readings agree on the raw return and the code as written charges at most the intended cost |
| SimQuick.Keep | src/husfort/qsimquick.py:123 | no kept row is dated before the begin date |
| SimQuick.Recalibrate | src/husfort/qsimquick.py:121-125 | the truncation raises ValueError exactly when the execution dates are neither increasing nor decreasing; otherwise no row is dated before the begin date |
| SimQuick.KeepMembers | src/husfort/qsimquick.py:123 | a row dated on or after the begin date is kept |
| SimQuick.KeepSuffix | src/husfort/qsimquick.py:123 | on increasing execution dates the kept rows are a suffix starting at the first row dated on or after the begin date |
| SimQuick.UpdateNav | src/husfort/qsimquick.py:127-130 | the NAV compounds the net returns from the last stored NAV |
| SimQuick.CompoundsUnique | src/husfort/qsimquick.py:129 | at most one NAV series compounds given returns from a given start |
| SimQuick.NavContinues | src/husfort/qsimquick.py:129 | running the returns in two pieces, the second from the last NAV of the first, gives the NAV of one run |
| SimQuick.NavReturns | src/husfort/qsimquick.py:129 | each NAV step gives back the day's return |
| SimQuick.LastNav | src/husfort/qsimquick.py:132-148 | the stored NAV of the date, 1.0 when none is stored |
| SimQuick.Run | src/husfort/qsimquick.py:189-195 | with the corrected backward step and the intended turnover: no signal date raises IndexError; on success no NAV row is dated before the begin date and the NAV starts from the NAV stored on the previous trade date |
| SimQuick.RunAsWritten | src/husfort/qsimquick.py:189-195 | as written, with the turnover as written: no signal date raises IndexError; on success no NAV row is dated before the begin date and the NAV starts from the NAV stored on the date the wrapping step back lands on |
| SimQuick.RunAgrees | src/husfort/qsimquick.py:187-195 | where the calendar holds a date before the begin date both runs succeed or fail together; with a non-negative cost rate they keep the same dates and raw returns and the code as written charges no more |
| SimQuick.KeepUndercharged | src/husfort/qsimquick.py:121-125 | truncating two row lists with the same dates and raw returns keeps matching rows, costs no higher |
| SimQuick.CalCoreRelated | src/husfort/qsimquick.py:105-119 | both readings of cal_core give the same execution dates and raw returns, the code as written costing no more |
| SimQuick.Main | src/husfort/qsimquick.py:187-195 | with the intended dates and backward step: a successful run had its dates and dated no row before the begin date |
| SimQuick.MainAsWritten | src/husfort/qsimquick.py:187-195 | as written, in dates, calendar steps and turnover: a successful run had its dates as written and dated no row before the begin date |
| SimQuick.MainAgrees | src/husfort/qsimquick.py:187-195 | for a positive shift, wherever the calendar can step back far enough, the code as written succeeds exactly when the intended run does, and with a non-negative cost rate reports the same dates and raw returns at no higher cost |
| SimQuick.MainShiftZeroFails | src/husfort/qsimquick.py:188-189 | with shift 0 the code as written always fails |
| SimQuick.RecalibrateSorted | src/husfort/qsimquick.py:193 | on a sorted calendar the truncation never raises |
| ViewerPnl.TianqinId | src/husfort/qviewer_pnl.py:87-89 | the id is the exchange, a ".", then the contract |
| ViewerPnl.TianqinIdSplit | src/husfort/qviewer_pnl.py:87-89 | splitting the id at "." gives back exchange and contract when neither holds a "." |
| ViewerPnl.ContractGt | src/husfort/qviewer_pnl.py:91-92 | a > b only between different contract ids and then not b > a; otherwise the id of a is at most that of b |
| ViewerPnl.Eq | src/husfort/qviewer_pnl.py:115-116 | a NaN floating PnL equals nothing; equal positions have equal (last - base) * exposure, and `__gt__` still orders them by contract id, then direction |
| ViewerPnl.Gt | src/husfort/qviewer_pnl.py:118-129 | no position is greater than itself; with a NaN price on either side the contract id, then the direction, decides |
| ViewerPnl.BaseVal | src/husfort/qviewer_pnl.py:103-105 | the base value is the base price times the signed exposure (quantity, multiplier, direction) |
| ViewerPnl.LastVal | src/husfort/qviewer_pnl.py:107-109 | the last value is known exactly when the last price is, and is that price times the signed exposure |
| ViewerPnl.FloatPnl | src/husfort/qviewer_pnl.py:111-113 | the floating PnL is known exactly when the last price is, and is the price move times the signed exposure |
| ViewerPnl.GtIsLexicographic | src/husfort/qviewer_pnl.py:118-129 | with both prices known `__gt__` is the lexicographic order on floating PnL, contract id, direction |
| ViewerPnl.GtStrictOrder | src/husfort/qviewer_pnl.py:118-129 | with prices known `__gt__` is irreflexive, asymmetric and transitive |
| ViewerPnl.GtTotal | src/husfort/qviewer_pnl.py:118-129 | two priced positions differing in PnL or contract are ordered one way or the other |
| ViewerPnl.EqualAndGreater | src/husfort/qviewer_pnl.py:115-129 | two positions can be equal by `__eq__` and one greater than the other |
| ViewerPnl.GtNotTransitiveWithNaN | src/husfort/qviewer_pnl.py:118-129 | with an unpriced position `__gt__` is not transitive |
| ViewerPnl.SetLastPrice | src/husfort/qviewer_pnl.py:131-133 | a NaN price leaves the last price as it was, a number replaces it, and nothing else changes |
| ViewerPnl.QuotePrice | src/husfort/qviewer_pnl.py:251-252 | the quote's last price is assigned as it is, NaN included, and nothing else changes |
| ViewerPnl.QuoteCanForgetPrice | src/husfort/qviewer_pnl.py:131-133 | a known price stays known through `set_last_price` but a NaN quote makes it and the floating PnL unknown |
| ViewerPnl.UpdateFromQuotes | src/husfort/qviewer_pnl.py:250-252 | position i takes quote i; positions beyond the quotes are unchanged |
| ViewerPnl.SetColor | src/husfort/qviewer_pnl.py:163-178 | a positive value takes the positive style, a negative one the negative style, zero or NaN the zero style |
| ViewerPnl.DefaultColorsTellSign | src/husfort/qviewer_pnl.py:163-178 | with the default colours the style tells whether the value is positive, negative or neither |
| ViewerPnl.AddOpt | src/husfort/qviewer_pnl.py:186-189 | adding NaN gives NaN; otherwise the sum |
| ViewerPnl.FooterOf | src/husfort/qviewer_pnl.py:180-216 | the footer's quantity is the total quantity and its style is the one of the total floating PnL's sign |
| ViewerPnl.FooterAddsUp | src/husfort/qviewer_pnl.py:181-189 | the total floating PnL is known exactly when every price is, and is then the total last value less the total base value |
| DataViewer.ParseVars | src/husfort/qdataviewer.py:278-280 | a missing or empty argument gives no name; otherwise one name per comma plus one, joined back by "," into the argument, none holding a comma |
| DataViewer.ParseSorts | src/husfort/qdataviewer.py:282-295 | the sort columns are the parsed names with one flag each: without flags all ascending; with flags the i-th flag, the last one repeated when too few are given and the surplus dropped |
| DataViewer.Flags | src/husfort/qdataviewer.py:286 | one flag per piece, true exactly when the piece is "T" or "TRUE" in any case |
| DataViewer.Repeat | src/husfort/qdataviewer.py:288 | n copies of the flag |
| DataViewer.ParseSortsExact | src/husfort/qdataviewer.py:289-290 | a flag list as long as the column list is taken as it is |
| DataViewer.IntOrStr | src/husfort/qdataviewer.py:298-302 | the integer exactly when `int()` accepts the text, otherwise the text itself |
| DataViewer.IntOrStrNumber | src/husfort/qdataviewer.py:298-302 | a number written in decimal comes back as that number |
| DataViewer.IntOrStrName | src/husfort/qdataviewer.py:298-302 | text starting with a letter stays text |
| DataViewer.PickHeadTail | src/husfort/qdataviewer.py:18-39 | neither positive keeps all rows; otherwise the first min(head, n) rows followed by the last min(tail, n) rows, a non-positive side taking none |
| DataViewer.PickHeadTailDisjoint | src/husfort/qdataviewer.py:26-30 | when head and tail do not reach each other the result is the table with its middle cut out, no row twice |
| DataViewer.PickHeadTailOverlap | src/husfort/qdataviewer.py:21-25 | when they overlap the result is longer than the table, as the warning says |
| DataViewer.PickCHeadCTail | src/husfort/qdataviewer.py:41-61 | at most twice the columns are picked |
| DataViewer.PickColumnsLikeRows | src/husfort/qdataviewer.py:41-61 | columns are picked by the same rule as rows |
| Utility.Rest | src/husfort/qutility.py:20 | what remains after removing ASCII digits and letters holds none of them and is no longer than the text |
| Utility.MixStringLen | src/husfort/qutility.py:11-23 | the width is the larger of the expected width less the wide characters and the text length plus the wide characters |
| Utility.Columns | src/husfort/qutility.py:11-23 | a string occupies at least one column per character |
| Utility.PadRight | src/husfort/qutility.py:16 | the text padded with spaces on the right to the width, never cut |
| Utility.ColumnsMixed | src/husfort/qutility.py:19-21 | in a string of ASCII alphanumerics and wide characters every removed character is one extra column |
| Utility.MixStringAligns | src/husfort/qutility.py:11-23 | padded to the width returned, a mixed string occupies the expected columns, or its own columns when it is longer |
| Utility.SetFontColor | src/husfort/qutility.py:26-35 | the text wrapped between the ANSI colour sequence of the code and the reset sequence, seven characters added |
| Utility.SetFontColorUnwrap | src/husfort/qutility.py:26-35 | code and text are recovered from the wrapped string when the code holds no "m" |
| Utility.Chunks | src/husfort/qutility.py:109-114 | ceil(len / n) pieces, each non-empty and at most n long, all but the last exactly n |
| Utility.ChunksFlatten | src/husfort/qutility.py:109-114 | the pieces put back together are the input in order |
| Utility.Batched | src/husfort/qutility.py:109-114 | a negative size raises ValueError, a size of zero yields nothing, a positive size yields ceil(len / n) pieces of at most n |
| Utility.BatchedFlatten | src/husfort/qutility.py:109-114 | for a positive size the batches give back the input |
| Palette.LStripHash | src/husfort/utility/view_palette.py:22 | the leading hashes are removed and nothing else: the result is a suffix that does not start with "#" |
| Palette.ColorRgb | src/husfort/utility/view_palette.py:20-26 | the three components are characters 0-2, 2-4 and 4-6 after the hashes read in base 16; any piece `int()` refuses raises ValueError |
| Palette.ColorRgbHex | src/husfort/utility/view_palette.py:20-26 | reading a colour written as "#rrggbb" gives the colour back |
| Palette.TwoHexDigits | src/husfort/utility/view_palette.py:23-25 | two hex digits read as a number below 256 |
| Palette.ColorRgbBytes | src/husfort/utility/view_palette.py:20-26 | with six hex digits after the hashes the colour parses and every component is a byte |
| Palette.RgbText | src/husfort/utility/view_palette.py:30 | the RGB text is parenthesised |
| Palette.ColorRgbAsString | src/husfort/utility/view_palette.py:28-30 | the RGB text of the colour exactly when the colour parses, ValueError otherwise |
| Palette.ParseSpaced | src/husfort/utility/view_palette.py:30 | a number after one space reads back as that number |
| Palette.RgbTextParses | src/husfort/utility/view_palette.py:28-30 | the RGB text splits on "," into three pieces that read back as the three components |
| Palette.GetPalettes | src/husfort/utility/view_palette.py:64-72 | one palette per entry, one block per colour in order, every block of the given size |
| Palette.Names | src/husfort/utility/view_palette.py:64-72 | one name per palette |
| Palette.GetPalettesNames | src/husfort/utility/view_palette.py:66-71 | the palettes are named by the dict's keys, in order |
| Palette.RJust | src/husfort/utility/view_palette.py:56 | the text right-aligned with spaces to the width, never cut |
| Palette.Example | src/husfort/utility/view_palette.py:56 | the example cell is the colour markup around an "a" right-aligned to the block width; a negative width raises ValueError |
| Palette.BlockRows | src/husfort/utility/view_palette.py:50-57 | a block draws `height` rows (none when it is not positive), the hex and RGB labels on the first row only, each with the example cell |
| Palette.DrawBlock | src/husfort/utility/view_palette.py:50-57 | one block draws exactly when its colour parses and, if it has rows, its width is no sign; it gives one row per unit of positive height, and a failure is ValueError |
| Palette.PlotRows | src/husfort/utility/view_palette.py:39-61 | a drawn palette has one row per unit of block height, summed over its blocks; a palette that does not draw fails with ValueError |
| Palette.PlotRowsOk | src/husfort/utility/view_palette.py:49-57 | a palette draws exactly when each of its blocks can be drawn |
| Palette.PlotRowsOkDrawable | src/husfort/utility/view_palette.py:49-57 | every block of a drawn palette can be drawn |
| Palette.PlotRowsBlockErr | src/husfort/utility/view_palette.py:50 | one block whose colour does not parse fails the palette, even a block without rows |
| Palette.PlotRowsErrBlock | src/husfort/utility/view_palette.py:49-57 | a palette that fails holds a block that cannot be drawn |
| Palette.PlotRowsStep | src/husfort/utility/view_palette.py:49-57 | a palette draws exactly when all but its last block draw and the last one can be drawn |
| Palette.PaletteRowCount | src/husfort/utility/view_palette.py:64-72 | a palette built by `get_palettes` with a positive height draws colours times height rows |
| Sprites.PngFilter | src/husfort/utility/create_sprites_sheet.py:20 | the names kept are exactly the listed names ending in ".png" or ".PNG" |
| Sprites.GetPngs | src/husfort/utility/create_sprites_sheet.py:19-21 | a permutation of the PNG names, ascending, or descending when reverse is set |
| Sprites.CalNrow | src/husfort/utility/create_sprites_sheet.py:24-28 | the row count is the least that holds every sprite in the columns: (rows - 1) * ncol < tot <= rows * ncol; zero columns raise ZeroDivisionError |
| Sprites.CalNrowLeast | src/husfort/utility/create_sprites_sheet.py:24-28 | no smaller row count holds every sprite |
| Sprites.Cell | src/husfort/utility/create_sprites_sheet.py:46 | the column is below the column count and row * ncol + column is the sprite's number |
| Sprites.CellsDistinct | src/husfort/utility/create_sprites_sheet.py:46 | different sprites go to different cells |
| Sprites.CellInside | src/husfort/utility/create_sprites_sheet.py:42-46 | every sprite's row lies inside the sheet |
| Sprites.Layout | src/husfort/utility/create_sprites_sheet.py:38-55 | no PNG gives no sheet, zero columns raise ZeroDivisionError, otherwise the sheet of ncol by nrow sprites of the first one's size |
| Sprites.Side | src/husfort/utility/create_sprites_sheet.py:44 | a canvas side is non-negative for a non-negative count and at least one sprite wide for a positive one |
| Sprites.Boxes | src/husfort/utility/create_sprites_sheet.py:45-50 | one paste corner per sprite, at its cell scaled by the sprite size |
| Sprites.GridFits | src/husfort/utility/create_sprites_sheet.py:44-50 | every pasted sprite lies inside the canvas |
| Sprites.GridDistinct | src/husfort/utility/create_sprites_sheet.py:45-50 | no two sprites share a corner when sprites have a size |

## Left out

- File, SQLite, HDF5 and CSV I/O: statement execution in CMgrSqlDb, the HDF5 store calls, the `save_*` methods of CPortfolio and CSimulation, and the saving and continuity step at the end of CSimQuick's main. A write path is modelled by the statements it would run; a reader by its query text and column labels.
- Data loaders behind the engines (CManagerMajor, CManagerMarketData, CManagerSignal, CMgrMajContract, CMgrMktData, CSignal, CInstruMgr file reading): they are file and pandas loading. Their contents are parameters (maps or functions).
- The pandas mechanics of qsimquick (merge, pivot_table, groupby, truncate): the arithmetic is modelled on explicit per-date rows of weights and returns.
- pandas' `sort_values` and `DataFrame` display: sorting is modelled by its result only.
- Floating-point statistics of CNAV (mean, standard deviation, compound annual return, volatility, Sharpe ratio, percentiles): numpy computes them, so they enter as given figures. Floating-point rounding in general is not modelled; prices and weights are exact reals.
- Day arithmetic through `datetime`: `move_date_string`, `get_week_end_days_in_range`, and the calendar-day string before a trade date in section construction. These strings are parameters.
- The wall clock read by `parse_section(using_now=True)` and by the PnL viewer: it is a parameter.
- Unicode: digits, whitespace and letters are ASCII only. `str.upper` maps ASCII letters only, and `get_mix_string_len` treats every non-ASCII character as two columns wide.
- The build/lib CPortfolio methods `cal_target_position`, `cal_trades_for_major`, `update_from_trades` and `main_loop`: they call a CPosition constructor, `get_key()` and `quantity()` that the build/lib classes do not have. Only the methods that run on that text are modelled.
- The qviewer_pnl live loop (TqApi quote subscription, rich tables, terminal refresh), qdataviewer fetch/show/save, and the CLI entry points under utility/: network and terminal I/O.
- Plotting (qplot, CSimQuick.plot, the rich rendering of view_palette) and PIL image I/O of create_sprites_sheet: only the layout arithmetic is modelled.
- qmultiprocessing, qmails, qremote, qlog, qtimer, the optimiser wrappers, and directory helpers: concurrency, network, logging and filesystem plumbing outside the core.
- SimLegacyRun.PriceTrades: a missing or NaN close is the error NonFinite. The code assigns the NaN as the executed price and carries it into the cost, the realized profit and the NAV without raising; NaN arithmetic is not modelled.
- SimLegacyRun.Traded: states the corrected trading step, whose signal date never wraps and whose prune removes emptied positions. The code as written is SimLegacyRun.TradedAsWritten, and SimLegacyRun.TradedAgrees relates the two.
- SimLegacyRun.Day: states the corrected day, whose prune removes emptied positions. The code as written raises RuntimeError on any emptied position; that half is SimLegacyRun.DayAsWritten, and SimLegacyRun.DayAgrees relates the two.
- SimLegacyRun.Loop: iterates the corrected day; the code as written is SimLegacyRun.LoopAsWritten, which stops at the first emptied position.
- SimLegacyRun.MainLoop: one snapshot per date holds for the corrected loop only; the code as written is SimLegacyRun.MainLoopAsWritten.
- SimLegacyRun.RebalanceDayReachesTarget: proved for the corrected day. As written, a rebalance day that closes a held key raises RuntimeError (SimLegacyRun.RebalanceCloseCrashesAsWritten).
- SimLegacyRun.OtherDayRolls: proved for the corrected day. As written, a day that rolls a held key raises RuntimeError (SimLegacyRun.RolloverCrashesAsWritten).
- SimQuick.Buffer: steps back with the corrected `get_next_date`, so it raises IndexError where the code wraps to a date near the calendar's end; the code as written is SimQuick.BufferAsWritten.
- SimQuick.Run: steps back with the corrected `get_next_date` and charges the intended turnover; the code as written is SimQuick.RunAsWritten.
- SimQuick.Main: uses the intended dates, backward step and turnover; the code as written is SimQuick.MainAsWritten.
- SimQuick.GetDates: `shift` is a natural number. The loader's shift counts days of lag, and a negative one is not modelled.

## Findings

| source | as written | input that shows it | evidently intended | confidence | as-written member | corrected member |
|---|---|---|---|---|---|---|
| src/husfort/qcalendar.py:61-71 | `get_next_date` indexes the date list with index + shift. A negative position counts from the end of the list. | calendar 20240102, 20240103, 20240104; date 20240102, shift -1 gives 20240104, a later date | a position before the first date raises IndexError | high, not executed | Calendar.GetNextDateWrapsAtStart | Calendar.GetNextDate |
| src/husfort/qcalendar.py:424-425 | `get_next_month` indexes the month list with index + shift, so a negative position wraps to the last month. | months 202401, 202402; a two-month trailing window ending in 202401 starts on 20240201, after its own end | a window reaching before the first month raises IndexError | high, not executed | Months.TrailingWindowAsWritten, Months.TrailingWindowWraps | Months.TrailingWindow |
| husfort/qsimulation.py:344-347 | the prune loop deletes from `manager_pos` while iterating over it. Python raises RuntimeError on the next step. | a book holding one long position that the day's trades close in full | the empty position is removed and the book is left empty | high, not executed | SimLegacy.FullCloseCrashesAsWritten | SimLegacy.UpdateFromTrades |
| src/husfort/qinstruments.py:160-187 | for the Wind and Tushare formats the exchange is the vendor suffix ("CZC", "ZCE"), which never equals "CZCE", so no vendor id is fixed | "MA105.CZC" traded on 20201201 in the Wind format comes back unchanged | "MA2105.CZC", while "MA1105.CZC", whose code before "." already has four digits, is kept | high, not executed | Instruments.WindFixExample | Instruments.FixContractId |
| build/lib/husfort/qinstruments.py:118-152 | `fix_contract_id` compares the exchange with "CZC", but the exchange of a vanilla id is the table's "CZCE" | "MA105" of a Zhengzhou instrument, traded on 20201201, comes back unchanged | "MA2105" | high, not executed | InstrumentsBuild.VanillaFixExample | InstrumentsBuild.FixContractId |
| husfort/qevaluation.py:158-176 | `cal_all_indicators` ends with `cal_calmar_ratio`, which recomputes the annual return with the default linear method | a NAV whose compound annual return differs from its linear one, with method "compound" | the reported annual return is the compound one | medium, not executed | EvaluationLegacy.CalAllLosesCompound | EvaluationCurrent.CalAllKeepsMethod |
| husfort/qevaluation.py:166-175 | `cal_all_indicators` never calls `cal_annual_volatility`, so the reported volatility stays 0 | any NAV with a non-zero return spread | the annualised volatility is computed | medium, not executed | EvaluationLegacy.CalAllIndicators | EvaluationCurrent.CalAllComputesVolatility |
| src/husfort/qsimquick.py:91-97 | with shift 0, d is 1 and the signal dates are `iter[0:0]`, an empty list. The main run then fails on `sig_dates[0]`. | shift 0 for any window | signal and execution dates are the same dates | high, not executed | SimQuick.MainShiftZeroFails | SimQuick.GetDates |
| src/husfort/qsimquick.py:107-109 | the turnover takes `diff().fillna(0)` of the pivoted weights, so an instrument with no row on one of the two days adds nothing | the whole book moves from instrument A on one day to instrument B on the next: as written the turnover is 0 | turnover 2, since a missing weight is 0 | medium, not executed | SimQuick.TurnoverSwitchExample | SimQuick.Turnover |
