/**
 * The command-line data viewer of src/husfort/qdataviewer.py: parsing of
 * the column and sort arguments, `int_or_str`, and the head/tail selection
 * of rows and of columns. A table is modelled by its row (or column)
 * sequence; pandas' `head(n)` is `s[:n]` and `tail(n)` is `s[-n:]`.
 */
module DataViewer {

  import opened Wrappers
  import opened PyStr
  import PySeq
  import PyInt

  /* ----------------------------------------------------------- arguments */

  /** A present, non-empty argument (`if arg:` in Python). */
  predicate Given(arg: Option<string>) {
    arg.Some? && arg.value != ""
  }

  /** `parse_vars`: the comma-separated names, none for a missing or empty
      argument. */
  function ParseVars(v: Option<string>): (r: seq<string>)
    ensures !Given(v) ==> r == []
    ensures Given(v) ==> |r| == Count(v.value, ',') + 1 && Join(r, ",") == v.value
    ensures forall k, i :: 0 <= k < |r| && 0 <= i < |r[k]| ==> r[k][i] != ','
  {
    if Given(v) then
      JoinSplit(v.value, ',');
      Split(v.value, ',')
    else []
  }

  /** A sort flag: "T" or "TRUE" in any case. */
  predicate Flag(z: string) {
    Upper(z) == "T" || Upper(z) == "TRUE"
  }

  /** `parse_sorts`: the sort columns and one ascending flag per column.
      Missing flags repeat the last one given; surplus flags are dropped;
      with no flags at all every column sorts ascending. */
  function ParseSorts(sort: Option<string>, ascending: Option<string>): (r: (seq<string>, seq<bool>))
    ensures r.0 == ParseVars(sort)
    ensures |r.1| == |r.0|
    ensures !Given(ascending) ==> forall i :: 0 <= i < |r.1| ==> r.1[i]
    ensures Given(ascending) ==>
      var pieces := Split(ascending.value, ',');
      forall i :: 0 <= i < |r.1| ==> r.1[i] == Flag(pieces[if i < |pieces| then i else |pieces| - 1])
  {
    var sorts := ParseVars(sort);
    var ascendings := if Given(ascending) then Flags(Split(ascending.value, ',')) else Repeat(true, |sorts|);
    if |ascendings| >= |sorts| then (sorts, ascendings[..|sorts|])
    else
      // the source's third case, no flags and more than none needed, is
      // unreachable: a given flag string splits into at least one piece
      (sorts, ascendings + Repeat(ascendings[|ascendings| - 1], |sorts| - |ascendings|))
  }

  /** `[z.upper() in ["T", "TRUE"] for z in pieces]`. */
  function Flags(pieces: seq<string>): (r: seq<bool>)
    ensures |r| == |pieces|
    ensures forall i :: 0 <= i < |r| ==> r[i] == Flag(pieces[i])
  {
    if |pieces| == 0 then [] else Flags(pieces[..|pieces| - 1]) + [Flag(pieces[|pieces| - 1])]
  }

  /** `[b] * n`. */
  function Repeat(b: bool, n: nat): (r: seq<bool>)
    ensures |r| == n
    ensures forall i :: 0 <= i < n ==> r[i] == b
  {
    if n == 0 then [] else Repeat(b, n - 1) + [b]
  }

  /** A flag list given in full is taken as it is. */
  lemma ParseSortsExact(sort: Option<string>, ascending: Option<string>)
    requires Given(sort) && Given(ascending)
    requires Count(ascending.value, ',') == Count(sort.value, ',')
    ensures forall i :: 0 <= i < |ParseSorts(sort, ascending).1| ==>
      ParseSorts(sort, ascending).1[i] == Flag(Split(ascending.value, ',')[i])
  {
  }

  /** The result of `int_or_str`. */
  datatype Arg = Num(n: int) | Text(s: string)

  /** `int_or_str(arg)`: the integer when `int(arg)` succeeds, else the
      text itself. */
  function IntOrStr(arg: string): (r: Arg)
    ensures r.Num? <==> PyInt.ParseInt(arg, 10).Ok?
    ensures r.Num? ==> r.n == PyInt.ParseInt(arg, 10).value
    ensures r.Text? ==> r.s == arg
  {
    match PyInt.ParseInt(arg, 10)
    case Ok(n) => Num(n)
    case Err(_) => Text(arg)
  }

  /** A number written by `str` comes back as that number. */
  lemma IntOrStrNumber(n: int)
    ensures IntOrStr(IntToDecimal(n)) == Num(n)
  {
    PyInt.ParseIntDecimal(n);
  }

  /** A name that starts with a letter stays a name. */
  lemma IntOrStrName(arg: string)
    requires |arg| > 0 && IsAsciiLetter(arg[0])
    ensures IntOrStr(arg) == Text(arg)
  {
    assert !PyInt.IsSpace(arg[0]);
    var t := PyInt.StripSpaces(arg);
    if |t| > 0 {
      StripKeepsFirst(arg);
      assert PyInt.Digits(t, 10) == t;
      assert PyInt.DigitOf(t[0], 10).None?;
      PyInt.RunStartsWithDigit(t, 10);
    }
  }

  lemma StripKeepsFirst(s: string)
    requires |s| > 0 && !PyInt.IsSpace(s[0]) && |PyInt.StripSpaces(s)| > 0
    ensures PyInt.StripSpaces(s)[0] == s[0]
    decreases |s|
  {
    if PyInt.IsSpace(s[|s| - 1]) {
      StripKeepsFirst(s[..|s| - 1]);
    }
  }

  /* --------------------------------------------------------- selection */

  /** `pick_head_tail(head, tail)` on the rows: the first `head` rows, the
      last `tail` rows, both concatenated, or all rows when neither is
      positive. */
  function PickHeadTail<T>(rows: seq<T>, head: int, tail: int): (r: seq<T>)
    ensures var h := if head <= 0 then 0 else if head < |rows| then head else |rows|;
            var t := if tail <= 0 then 0 else if tail < |rows| then tail else |rows|;
            if head <= 0 && tail <= 0 then r == rows
            else |r| == h + t && r[..h] == rows[..h] && r[h..] == rows[|rows| - t..]
  {
    if head > 0 then
      if tail > 0 then PySeq.Until(rows, head) + PySeq.From(rows, -tail)
      else PySeq.Until(rows, head)
    else if tail > 0 then PySeq.From(rows, -tail)
    else rows
  }

  /** When head and tail do not reach each other the result is the table
      with its middle cut out, each row at most once. */
  lemma PickHeadTailDisjoint<T>(rows: seq<T>, head: int, tail: int)
    requires head > 0 && tail > 0 && head + tail <= |rows|
    ensures PickHeadTail(rows, head, tail) == rows[..head] + rows[|rows| - tail..]
    ensures multiset(PickHeadTail(rows, head, tail)) <= multiset(rows)
  {
    assert rows == rows[..head] + rows[head..|rows| - tail] + rows[|rows| - tail..];
  }

  /** When they overlap some rows come out twice: the result is longer than
      the table. */
  lemma PickHeadTailOverlap<T>(rows: seq<T>, head: int, tail: int)
    requires head > 0 && tail > 0 && |rows| < head + tail && |rows| > 0
    ensures |PickHeadTail(rows, head, tail)| > |rows|
  {
  }

  /** `pick_chead_ctail(chead, ctail)` on the columns:
      `iloc[:, 0:chead]` and `iloc[:, -ctail:]`. */
  function PickCHeadCTail<T>(cols: seq<T>, chead: int, ctail: int): (r: seq<T>)
    ensures |r| <= 2 * |cols|
  {
    if chead > 0 then
      if ctail > 0 then PySeq.Slice(cols, 0, chead) + PySeq.From(cols, -ctail)
      else PySeq.Slice(cols, 0, chead)
    else if ctail > 0 then PySeq.From(cols, -ctail)
    else cols
  }

  /** Columns are picked by the same rule as rows. */
  lemma PickColumnsLikeRows<T>(cols: seq<T>, chead: int, ctail: int)
    ensures PickCHeadCTail(cols, chead, ctail) == PickHeadTail(cols, chead, ctail)
  {
  }
}
