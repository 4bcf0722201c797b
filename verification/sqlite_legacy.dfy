/**
 * The SQLite layer of husfort/qsqlite.py: table descriptions (CSqlVar,
 * CSqlVars, CSqlTable) and the SQL text they produce, the access-mode and
 * write-permission rules of CMgrSqlDb, the WHERE clauses of its readers,
 * and the two append-continuity checks. Executing a statement is I/O and
 * is not modelled: a write path yields the statements it would execute,
 * a reader yields its query text and the column labels of its result.
 *
 * husfort/qsqlite.py imports its calendars from husfort.qcalendar, which
 * is not part of this model; the calendar of build/lib/husfort/qcalendar.py
 * stands in for it (modules Calendar and SectionsBuild).
 */
module SqliteLegacy {

  import opened Wrappers
  import opened PyStr
  import PySeq
  import Calendar
  import opened Sections
  import SectionsBuild

  /* ------------------------------------------------------ table schemas */

  /** `CSqlVar`: a column name and its SQL type ("TEXT", "INTEGER", "REAL"). */
  datatype SqlVar = SqlVar(name: string, dtype: string)

  /** `CSqlVars`: the primary-key columns and the value columns. */
  datatype SqlVars = SqlVars(primaryKeys: seq<SqlVar>, valueColumns: seq<SqlVar>)

  /** `CSqlTable`. */
  datatype Table = Table(name: string, vars: SqlVars)

  function NamesOf(vs: seq<SqlVar>): (r: seq<string>)
    ensures |r| == |vs|
    ensures forall i :: 0 <= i < |vs| ==> r[i] == vs[i].name
  {
    seq(|vs|, i requires 0 <= i < |vs| => vs[i].name)
  }

  /** `names`: the primary-key names, then the value-column names. */
  function Names(v: SqlVars): (r: seq<string>)
    ensures |r| == |v.primaryKeys| + |v.valueColumns|
    ensures forall i :: 0 <= i < |v.primaryKeys| ==> r[i] == v.primaryKeys[i].name
    ensures forall i :: 0 <= i < |v.valueColumns| ==> r[|v.primaryKeys| + i] == v.valueColumns[i].name
  {
    NamesOf(v.primaryKeys) + NamesOf(v.valueColumns)
  }

  /** `size`: one per column. */
  function Size(v: SqlVars): (n: nat)
    ensures n == |Names(v)|
  {
    |v.primaryKeys| + |v.valueColumns|
  }

  /** `[x] * n`. */
  function Repeat(x: string, n: nat): (r: seq<string>)
    ensures |r| == n
    ensures forall i :: 0 <= i < n ==> r[i] == x
  {
    seq(n, _ => x)
  }

  /** `cmd_sql_upd`: an upsert naming every column, one "?" per column. */
  function CmdSqlUpd(t: Table): (r: string)
    ensures StartsWith(r, "INSERT OR REPLACE INTO " + t.name + " (")
    ensures EndsWith(r, ")")
  {
    "INSERT OR REPLACE INTO " + t.name + " (" + Join(Names(t.vars), ", ") + ") values("
      + Join(Repeat("?", Size(t.vars)), ", ") + ")"
  }

  /** "name TYPE" of each column in `vs`. */
  function DefsOf(vs: seq<SqlVar>): (r: seq<string>)
    ensures |r| == |vs|
    ensures forall i :: 0 <= i < |vs| ==> r[i] == vs[i].name + " " + vs[i].dtype
  {
    seq(|vs|, i requires 0 <= i < |vs| => vs[i].name + " " + vs[i].dtype)
  }

  /** The column definitions, the primary keys first. */
  function ColumnDefs(v: SqlVars): (r: seq<string>)
    ensures |r| == Size(v)
  {
    DefsOf(v.primaryKeys) + DefsOf(v.valueColumns)
  }

  /** `cmd_sql_vars`: the column definitions, comma separated. Without a
      column it is empty; when no name or type holds a comma it has one
      separator fewer than there are columns. */
  function CmdSqlVars(t: Table): (r: string)
    ensures Size(t.vars) == 0 ==> r == ""
    ensures Size(t.vars) > 0 && Avoids(ColumnDefs(t.vars), ',') ==> Count(r, ',') == Size(t.vars) - 1
  {
    JoinSeparators(ColumnDefs(t.vars));
    Join(ColumnDefs(t.vars), ", ")
  }

  /** Comma-free parts joined by ", " hold one comma per separator. */
  lemma JoinSeparators(parts: seq<string>)
    ensures |parts| > 0 && Avoids(parts, ',') ==> Count(Join(parts, ", "), ',') == |parts| - 1
  {
    if |parts| > 0 && Avoids(parts, ',') {
      SeparatorCounts();
      CountJoin(parts, ", ", ',');
      CountAllAvoids(parts, ',');
    }
  }

  /** `cmd_sql_primary`. */
  function CmdSqlPrimary(t: Table): (r: string)
    ensures StartsWith(r, "PRIMARY KEY(") && EndsWith(r, ")")
    ensures |r| == |"PRIMARY KEY()"| + |Join(NamesOf(t.vars.primaryKeys), ", ")|
  {
    "PRIMARY KEY(" + Join(NamesOf(t.vars.primaryKeys), ", ") + ")"
  }

  /** No character `c` in any of the strings. */
  predicate Avoids(parts: seq<string>, c: char) {
    forall k, i :: 0 <= k < |parts| && 0 <= i < |parts[k]| ==> parts[k][i] != c
  }

  lemma {:induction false} CountAllAvoids(parts: seq<string>, c: char)
    requires Avoids(parts, c)
    ensures CountAll(parts, c) == 0
    decreases |parts|
  {
    if |parts| > 0 {
      CountAllAvoids(parts[..|parts| - 1], c);
      CountAbsent(parts[|parts| - 1], c);
    }
  }

  lemma {:induction false} CountAllRepeat(x: string, n: nat, c: char)
    ensures CountAll(Repeat(x, n), c) == n * Count(x, c)
    decreases n
  {
    if n > 0 {
      assert Repeat(x, n)[..n - 1] == Repeat(x, n - 1);
      CountAllRepeat(x, n - 1, c);
    }
  }

  /** Occurrences of `c` in text free of it, with a part in the middle. */
  lemma CountAround(a: string, m: string, b: string, c: char)
    requires forall i :: 0 <= i < |a| ==> a[i] != c
    requires forall i :: 0 <= i < |b| ==> b[i] != c
    ensures Count(a + m + b, c) == Count(m, c)
  {
    CountAbsent(a, c);
    CountAbsent(b, c);
    CountConcat(a, m, c);
    CountConcat(a + m, b, c);
  }

  /** The "?" placeholders of `n` columns. */
  lemma PlaceholderCount(n: nat)
    ensures Count(Join(Repeat("?", n), ", "), '?') == n
  {
    SeparatorCounts();
    if n > 0 {
      CountJoin(Repeat("?", n), ", ", '?');
      CountAllRepeat("?", n, '?');
      assert Count("?", '?') == 1 by {
        assert "?"[..0] == [];
      }
    }
  }

  /** No "?" among the joined column names. */
  lemma ColumnsCount(names: seq<string>)
    requires Avoids(names, '?')
    ensures Count(Join(names, ", "), '?') == 0
  {
    SeparatorCounts();
    if |names| > 0 {
      CountJoin(names, ", ", '?');
      CountAllAvoids(names, '?');
    }
  }

  /** The upsert binds exactly one parameter per column: when neither the
      table name nor a column name holds a "?", the statement has `size`
      placeholders. */
  lemma UpdPlaceholders(t: Table)
    requires forall i :: 0 <= i < |t.name| ==> t.name[i] != '?'
    requires Avoids(Names(t.vars), '?')
    ensures Count(CmdSqlUpd(t), '?') == Size(t.vars)
  {
    var cols := Join(Names(t.vars), ", ");
    var args := Join(Repeat("?", Size(t.vars)), ", ");
    assert Count(cols, '?') == 0 by {
      ColumnsCount(Names(t.vars));
    }
    assert Count(args, '?') == Size(t.vars) by {
      PlaceholderCount(Size(t.vars));
    }
    var head := "INSERT OR REPLACE INTO " + t.name + " (";
    UpsertHeadAvoids(t.name);
    CountUpsert(head, cols, args, '?');
  }

  /** The opening of the upsert holds no "?" beyond the table name's. */
  lemma UpsertHeadAvoids(name: string)
    requires forall i :: 0 <= i < |name| ==> name[i] != '?'
    ensures var head := "INSERT OR REPLACE INTO " + name + " (";
      forall i :: 0 <= i < |head| ==> head[i] != '?'
  {
  }

  /** Only the parameter list of the upsert can hold a "?". */
  lemma CountUpsert(head: string, cols: string, args: string, c: char)
    requires c == '?' && Count(cols, c) == 0
    requires forall i :: 0 <= i < |head| ==> head[i] != c
    ensures Count(head + cols + ") values(" + args + ")", c) == Count(args, c)
  {
    CountAround(head, cols, ") values(", c);
    CountConcat(head + cols + ") values(", args, c);
    CountConcat(head + cols + ") values(" + args, ")", c);
    CountAbsent(")", c);
  }

  /** With comma-free column names the column list of the upsert has one
      entry per column: `size - 1` separators. */
  lemma UpdColumnSeparators(t: Table)
    requires Size(t.vars) > 0 && Avoids(Names(t.vars), ',')
    ensures Count(Join(Names(t.vars), ", "), ',') == Size(t.vars) - 1
  {
    SeparatorCounts();
    CountJoin(Names(t.vars), ", ", ',');
    CountAllAvoids(Names(t.vars), ',');
  }

  lemma SeparatorCounts()
    ensures Count(", ", ',') == 1 && Count(", ", '?') == 0
  {
    assert ", "[..1] == ",";
    assert ","[..0] == [];
  }

  /* ---------------------------------------------------- the db manager */

  /** `CMgrSqlDb`; `mode` is kept as the string it was given. */
  datatype Mgr = Mgr(dbSaveDir: string, dbName: string, table: Table, mode: string)

  predicate KnownMode(mode: string) {
    mode == "w" || mode == "a" || mode == "r"
  }

  /** One executed SQL statement with its bound parameters. */
  datatype Statement = Statement(sql: string, args: seq<string>)

  /** `__init_table`: in mode "w" an existing table is dropped; in "w" and
      "a" the table is created if missing; mode "r" writes nothing.
      `hasTable` is the answer of `has_table`. */
  function InitTable(t: Table, mode: string, hasTable: bool): (r: seq<Statement>)
    ensures mode == "r" ==> r == []
    ensures mode == "w" && hasTable ==> |r| == 2 && r[0].sql == "DROP TABLE " + t.name
    ensures (mode == "w" || mode == "a") ==> |r| > 0 && StartsWith(r[|r| - 1].sql, "CREATE TABLE IF NOT EXISTS ")
  {
    if mode == "w" then
      if hasTable then [Statement("DROP TABLE " + t.name, []), CreateStatement(t)] else [CreateStatement(t)]
    else if mode == "a" then [CreateStatement(t)]
    else []
  }

  /** The CREATE statement of `__init_table`: it binds no parameter, leaves
      an existing table alone, and closes with the primary-key clause. */
  function CreateStatement(t: Table): (s: Statement)
    ensures s.args == []
    ensures StartsWith(s.sql, "CREATE TABLE IF NOT EXISTS ")
    ensures EndsWith(s.sql, CmdSqlPrimary(t) + ")")
  {
    var head := "CREATE TABLE IF NOT EXISTS ";
    var tail := CmdSqlPrimary(t) + ")";
    var sql := head + (t.name + "(" + CmdSqlVars(t) + ", ") + tail;
    assert sql[..|head|] == head;
    assert sql[|sql| - |tail|..] == tail;
    Statement(sql, [])
  }

  /** The constructor: a mode outside "w", "a", "r" raises ValueError
      before anything is written; otherwise the manager and the statements
      of `__init_table`. */
  function NewMgr(dir: string, name: string, t: Table, mode: string, hasTable: bool): (r: Result<(Mgr, seq<Statement>)>)
    ensures r.Ok? <==> KnownMode(mode)
    ensures r.Err? ==> r.error == ValueError
    ensures r.Ok? ==> r.value.0.mode == mode && r.value.0.table == t
    ensures r.Ok? ==> r.value.1 == InitTable(t, mode, hasTable)
  {
    if KnownMode(mode) then Ok((Mgr(dir, name, t, mode), InitTable(t, mode, hasTable)))
    else Err(ValueError)
  }

  /** `check_permission`: writing is refused in mode "r". */
  function CheckPermission(m: Mgr): (r: Result<bool>)
    ensures r.Ok? <==> m.mode != "r"
    ensures r.Ok? ==> r.value
    ensures r.Err? ==> r.error == ValueError
  {
    if m.mode == "r" then Err(ValueError) else Ok(true)
  }

  /** `__execute_cmd_write`: the statement, once permission is granted. */
  function ExecuteWrite(m: Mgr, sql: string): (r: Result<seq<Statement>>)
    ensures r.Ok? <==> m.mode != "r"
    ensures r.Ok? ==> r.value == [Statement(sql, [])]
    ensures r.Err? ==> r.error == ValueError
  {
    var ok :- CheckPermission(m);
    Ok([Statement(sql, [])])
  }

  /** `remove_table`. */
  function RemoveTable(m: Mgr, t: Table): (r: Result<seq<Statement>>)
    ensures r.Ok? <==> m.mode != "r"
    ensures r.Ok? ==> |r.value| == 1 && StartsWith(r.value[0].sql, "DROP TABLE ")
  {
    ExecuteWrite(m, "DROP TABLE " + t.name)
  }

  /** `update`: the upsert once per row, each row bound as its parameters. */
  function Update(m: Mgr, rows: seq<seq<string>>): (r: Result<seq<Statement>>)
    ensures r.Ok? <==> m.mode != "r"
    ensures r.Err? ==> r.error == ValueError
    ensures r.Ok? ==> |r.value| == |rows|
    ensures r.Ok? ==> forall i :: 0 <= i < |rows| ==> r.value[i] == Statement(CmdSqlUpd(m.table), rows[i])
  {
    var ok :- CheckPermission(m);
    Ok(seq(|rows|, i requires 0 <= i < |rows| => Statement(CmdSqlUpd(m.table), rows[i])))
  }

  /* ------------------------------------------------- columns and WHERE */

  /** `parse_value_columns`: "*" when no columns (None or empty) are asked
      for, else the names joined by ", ". */
  function ParseValueColumns(vc: Option<seq<string>>): (r: string)
    ensures (vc.None? || |vc.value| == 0) ==> r == "*"
  {
    if vc.Some? && |vc.value| > 0 then Join(vc.value, ", ") else "*"
  }

  /** `get_column_names`: the requested columns, or every column of the
      table. */
  function GetColumnNames(m: Mgr, vc: Option<seq<string>>): (r: seq<string>)
    ensures vc.Some? && |vc.value| > 0 ==> r == vc.value
    ensures (vc.None? || |vc.value| == 0) ==> r == Names(m.table.vars)
  {
    if vc.Some? && |vc.value| > 0 then vc.value else Names(m.table.vars)
  }

  /** The labels a reader gives its result always describe what it
      selected: the joined labels when columns are named, or all the
      table's columns when "*" is selected. */
  lemma SelectedColumnsAgree(m: Mgr, vc: Option<seq<string>>)
    ensures ParseValueColumns(vc) == Join(GetColumnNames(m, vc), ", ")
         || (ParseValueColumns(vc) == "*" && GetColumnNames(m, vc) == Names(m.table.vars))
  {
  }

  /** A condition `(column, operator, value)`. */
  datatype Cond = Cond(col: string, op: string, val: string)

  /** "c0 c1 'c2'". */
  function RenderCond(c: Cond): (r: string)
    ensures StartsWith(r, c.col + " " + c.op + " '") && EndsWith(r, "'")
    ensures |r| == |c.col| + |c.op| + |c.val| + 4
  {
    c.col + " " + c.op + " '" + c.val + "'"
  }

  function RenderConds(cs: seq<Cond>, sep: string): (r: string)
  {
    Join(seq(|cs|, i requires 0 <= i < |cs| => RenderCond(cs[i])), sep)
  }

  /** A rendered condition hands its three parts back when split on
      spaces, provided none of them holds a space. */
  lemma {:induction false} RenderCondSplit(c: Cond)
    requires forall i :: 0 <= i < |c.col| ==> c.col[i] != ' '
    requires forall i :: 0 <= i < |c.op| ==> c.op[i] != ' '
    requires forall i :: 0 <= i < |c.val| ==> c.val[i] != ' '
    ensures Split(RenderCond(c), ' ') == [c.col, c.op, "'" + c.val + "'"]
  {
    var q := "'" + c.val + "'";
    assert forall i :: 0 <= i < |q| ==> q[i] != ' ';
    assert RenderCond(c) == (c.col + " " + c.op) + " " + q;
    SplitLast(c.col + " " + c.op, ' ', q);
    SplitLast(c.col, ' ', c.op);
    SplitAbsent(c.col, ' ');
  }

  /** SQLite's comparison of TEXT values: binary, i.e. code-point order. */
  predicate KnownOp(op: string) {
    op in {"=", "!=", "<", "<=", ">", ">="}
  }

  /** Whether a row satisfies a condition; a row without the column holds
      NULL there, and a comparison with NULL never holds. */
  predicate Holds(c: Cond, row: map<string, string>)
    requires KnownOp(c.op)
  {
    c.col in row &&
    var x := row[c.col];
    match c.op
    case "=" => x == c.val
    case "!=" => x != c.val
    case "<" => Less(x, c.val)
    case "<=" => LessEq(x, c.val)
    case ">" => Less(c.val, x)
    case _ => LessEq(c.val, x)
  }

  predicate AllKnown(cs: seq<Cond>) {
    forall i :: 0 <= i < |cs| ==> KnownOp(cs[i].op)
  }

  /** The rows a WHERE clause of `cs` joined by "and" keeps; the contract
      states which rows and that none is added, not their order. */
  function Select(rows: seq<map<string, string>>, cs: seq<Cond>): (r: seq<map<string, string>>)
    requires AllKnown(cs)
    ensures forall x :: x in r <==> x in rows && forall i :: 0 <= i < |cs| ==> Holds(cs[i], x)
    ensures |r| <= |rows|
    decreases |rows|
  {
    if |rows| == 0 then []
    else
      var rest := Select(rows[1..], cs);
      assert rows == [rows[0]] + rows[1..];
      if forall i :: 0 <= i < |cs| ==> Holds(cs[i], rows[0]) then [rows[0]] + rest else rest
  }

  lemma JoinTwo(a: string, b: string, sep: string)
    ensures Join([a, b], sep) == a + sep + b
  {
    assert [a, b][..1] == [a];
  }

  /** A reader's query: its SQL text and the labels of its columns. */
  datatype Query = Query(sql: string, columns: seq<string>)

  /** `read_by_conditions`. */
  function ReadByConditions(m: Mgr, cs: seq<Cond>, vc: Option<seq<string>>): (q: Query)
    ensures StartsWith(q.sql, "SELECT " + ParseValueColumns(vc) + " FROM " + m.table.name + " WHERE ")
    ensures q.columns == GetColumnNames(m, vc)
  {
    Query("SELECT " + ParseValueColumns(vc) + " FROM " + m.table.name + " WHERE " + RenderConds(cs, " and "),
          GetColumnNames(m, vc))
  }

  function RangeConds(bgn: string, stp: string): seq<Cond> {
    [Cond("trade_date", ">=", bgn), Cond("trade_date", "<", stp)]
  }

  /** `read_by_range`. */
  function ReadByRange(m: Mgr, bgn: string, stp: string, vc: Option<seq<string>>): (q: Query)
    ensures q.columns == GetColumnNames(m, vc)
  {
    ReadByConditions(m, RangeConds(bgn, stp), vc)
  }

  /** The WHERE clause `read_by_range` sends. */
  lemma ReadByRangeText(m: Mgr, bgn: string, stp: string, vc: Option<seq<string>>)
    ensures ReadByRange(m, bgn, stp, vc).sql == "SELECT " + ParseValueColumns(vc) + " FROM " + m.table.name
      + " WHERE " + ("trade_date >= '" + bgn + "'") + " and " + ("trade_date < '" + stp + "'")
  {
    var cs := RangeConds(bgn, stp);
    var parts := seq(|cs|, i requires 0 <= i < |cs| => RenderCond(cs[i]));
    assert parts == [RenderCond(cs[0]), RenderCond(cs[1])];
    JoinTwo(RenderCond(cs[0]), RenderCond(cs[1]), " and ");
    var lo := RenderCond(cs[0]);
    var hi := RenderCond(cs[1]);
    assert lo == "trade_date >= '" + bgn + "'" by {
      assert "trade_date" + " " + ">=" + " '" == "trade_date >= '";
    }
    assert hi == "trade_date < '" + stp + "'" by {
      assert "trade_date" + " " + "<" + " '" == "trade_date < '";
    }
  }

  /** `read_by_range` is the half-open date window [bgn, stp). */
  lemma ReadByRangeWindow(rows: seq<map<string, string>>, bgn: string, stp: string, x: map<string, string>)
    ensures AllKnown(RangeConds(bgn, stp))
    ensures x in Select(rows, RangeConds(bgn, stp)) <==>
      (x in rows && "trade_date" in x && LessEq(bgn, x["trade_date"]) && Less(x["trade_date"], stp))
  {
    var cs := RangeConds(bgn, stp);
    assert AllKnown(cs);
    if x in rows && "trade_date" in x && LessEq(bgn, x["trade_date"]) && Less(x["trade_date"], stp) {
      assert forall i :: 0 <= i < |cs| ==> Holds(cs[i], x);
    }
    if x in Select(rows, cs) {
      assert Holds(cs[0], x) && Holds(cs[1], x);
    }
  }

  /** `read(value_columns)`: every row, the asked columns. */
  function Read(m: Mgr, vc: Option<seq<string>>): (q: Query)
    ensures StartsWith(q.sql, "SELECT " + ParseValueColumns(vc) + " FROM ")
    ensures EndsWith(q.sql, " FROM " + m.table.name)
    ensures q.columns == GetColumnNames(m, vc)
  {
    Query("SELECT " + ParseValueColumns(vc) + " FROM " + m.table.name, GetColumnNames(m, vc))
  }

  /** SQLite's `LIMIT n` on rows in rowid order: a negative limit sets no
      bound. */
  function Limit<T>(rows: seq<T>, n: int): (r: seq<T>)
    ensures |r| == if n < 0 || n >= |rows| then |rows| else n
    ensures forall i :: 0 <= i < |r| ==> r[i] == rows[i]
  {
    if n < 0 || n >= |rows| then rows else rows[..n]
  }

  /** The rows `head(n)` returns from a table whose rows, in rowid order,
      are `rows`: `ORDER BY rowid LIMIT n`. */
  function HeadRows<T>(rows: seq<T>, n: int): (r: seq<T>)
    ensures n < 0 ==> r == rows
    ensures n >= 0 ==> r == rows[..if n < |rows| then n else |rows|]
  {
    var r := Limit(rows, n);
    assert r == rows[..|r|];
    r
  }

  /** The rows `tail(n)` returns: `ORDER BY rowid DESC LIMIT n`, turned
      back into rowid order. */
  function TailRows<T>(rows: seq<T>, n: int): (r: seq<T>)
    ensures |r| == if n < 0 || n >= |rows| then |rows| else n
    ensures |r| > 0 ==> r[|r| - 1] == rows[|rows| - 1]
  {
    PySeq.Reverse(Limit(PySeq.Reverse(rows), n))
  }

  /** `tail(n)` is the last n rows in rowid order, all of them for a
      negative n. */
  lemma TailRowsSuffix<T>(rows: seq<T>, n: int)
    ensures n < 0 ==> TailRows(rows, n) == rows
    ensures n >= 0 ==> TailRows(rows, n) == rows[|rows| - (if n < |rows| then n else |rows|)..]
  {
    var k := if n < 0 || n >= |rows| then |rows| else n;
    var t := TailRows(rows, n);
    assert |t| == k;
    forall i | 0 <= i < k ensures t[i] == rows[|rows| - k + i] {
      assert t[i] == Limit(PySeq.Reverse(rows), n)[k - 1 - i];
    }
  }

  /** The last row `check_continuity` reads: `tail(1)` of a non-empty table
      is its last row, of an empty one nothing. */
  lemma TailOneIsLast<T>(rows: seq<T>)
    ensures |rows| == 0 ==> TailRows(rows, 1) == []
    ensures |rows| > 0 ==> TailRows(rows, 1) == [rows[|rows| - 1]]
  {
    TailRowsSuffix(rows, 1);
  }

  /** The conditions of `read_by_date`. */
  function DateConds(d: string): seq<Cond> {
    [Cond("trade_date", "=", d)]
  }

  /** `read_by_date`. */
  function ReadByDate(m: Mgr, d: string, vc: Option<seq<string>>): (q: Query)
    ensures q.columns == GetColumnNames(m, vc)
    ensures StartsWith(q.sql, "SELECT " + ParseValueColumns(vc) + " FROM " + m.table.name + " WHERE ")
  {
    ReadByConditions(m, DateConds(d), vc)
  }

  /** `read_by_date` keeps exactly the rows of that date. */
  lemma ReadByDateRows(rows: seq<map<string, string>>, d: string, x: map<string, string>)
    ensures AllKnown(DateConds(d))
    ensures x in Select(rows, DateConds(d)) <==> (x in rows && "trade_date" in x && x["trade_date"] == d)
  {
    var cs := DateConds(d);
    assert AllKnown(cs);
    if x in Select(rows, cs) {
      assert Holds(cs[0], x);
    }
  }

  /** The conditions of `read_by_instrument`. */
  function InstrumentConds(instrument: string): seq<Cond> {
    [Cond("instrument", "=", instrument)]
  }

  /** `read_by_instrument`. */
  function ReadByInstrument(m: Mgr, instrument: string, vc: Option<seq<string>>): (q: Query)
    ensures q.columns == GetColumnNames(m, vc)
    ensures StartsWith(q.sql, "SELECT " + ParseValueColumns(vc) + " FROM " + m.table.name + " WHERE ")
  {
    ReadByConditions(m, InstrumentConds(instrument), vc)
  }

  /** `read_by_instrument` keeps exactly the rows of that instrument. */
  lemma ReadByInstrumentRows(rows: seq<map<string, string>>, instrument: string, x: map<string, string>)
    ensures AllKnown(InstrumentConds(instrument))
    ensures x in Select(rows, InstrumentConds(instrument)) <==>
      (x in rows && "instrument" in x && x["instrument"] == instrument)
  {
    var cs := InstrumentConds(instrument);
    assert AllKnown(cs);
    if x in Select(rows, cs) {
      assert Holds(cs[0], x);
    }
  }

  /** The conditions of `read_by_instrument_range`. */
  function InstrumentRangeConds(bgn: string, stp: string, instrument: string): seq<Cond> {
    RangeConds(bgn, stp) + InstrumentConds(instrument)
  }

  /** `read_by_instrument_range`. */
  function ReadByInstrumentRange(m: Mgr, bgn: string, stp: string, instrument: string, vc: Option<seq<string>>): (q: Query)
    ensures q.columns == GetColumnNames(m, vc)
    ensures StartsWith(q.sql, "SELECT " + ParseValueColumns(vc) + " FROM " + m.table.name + " WHERE ")
  {
    ReadByConditions(m, InstrumentRangeConds(bgn, stp, instrument), vc)
  }

  /** `read_by_instrument_range` keeps exactly the instrument's rows in the
      half-open date window [bgn, stp). */
  lemma ReadByInstrumentRangeRows(rows: seq<map<string, string>>, bgn: string, stp: string, instrument: string,
                                  x: map<string, string>)
    ensures AllKnown(InstrumentRangeConds(bgn, stp, instrument))
    ensures x in Select(rows, InstrumentRangeConds(bgn, stp, instrument)) <==>
      (x in rows && "trade_date" in x && LessEq(bgn, x["trade_date"]) && Less(x["trade_date"], stp) &&
       "instrument" in x && x["instrument"] == instrument)
  {
    var cs := InstrumentRangeConds(bgn, stp, instrument);
    assert AllKnown(cs);
    if x in rows && "trade_date" in x && LessEq(bgn, x["trade_date"]) && Less(x["trade_date"], stp) &&
       "instrument" in x && x["instrument"] == instrument {
      assert forall i :: 0 <= i < |cs| ==> Holds(cs[i], x);
    }
    if x in Select(rows, cs) {
      assert Holds(cs[0], x) && Holds(cs[1], x) && Holds(cs[2], x);
    }
  }

  /** `delete_by_conditions`: the same rendering with " AND ", wrapped in
      parentheses, once permission is granted. */
  function DeleteByConditions(m: Mgr, cs: seq<Cond>): (r: Result<seq<Statement>>)
    ensures r.Ok? <==> m.mode != "r"
    ensures r.Err? ==> r.error == ValueError
    ensures r.Ok? ==> (|r.value| == 1
      && StartsWith(r.value[0].sql, "DELETE from " + m.table.name + " WHERE ("))
  {
    var ok :- CheckPermission(m);
    ExecuteWrite(m, "DELETE from " + m.table.name + " WHERE (" + RenderConds(cs, " AND ") + ")")
  }

  /** `delete_by_date`. */
  function DeleteByDate(m: Mgr, d: string): (r: Result<seq<Statement>>)
    ensures r.Ok? <==> m.mode != "r"
    ensures r.Ok? ==> r.value == [Statement("DELETE from " + m.table.name + " WHERE (trade_date = '" + d + "')", [])]
  {
    DeleteByDateText(m.table.name, d);
    DeleteByConditions(m, [Cond("trade_date", "=", d)])
  }

  /** The one date condition rendered into the DELETE statement. */
  lemma DeleteByDateText(name: string, d: string)
    ensures "DELETE from " + name + " WHERE (" + RenderConds([Cond("trade_date", "=", d)], " AND ") + ")"
         == "DELETE from " + name + " WHERE (trade_date = '" + d + "')"
  {
    var cs := [Cond("trade_date", "=", d)];
    assert seq(|cs|, i requires 0 <= i < |cs| => RenderCond(cs[i])) == [RenderCond(cs[0])];
    assert RenderConds(cs, " AND ") == "trade_date = '" + d + "'" by {
      assert RenderCond(cs[0]) == "trade_date" + " " + "=" + " '" + d + "'";
      assert "trade_date" + " " + "=" + " '" == "trade_date = '";
    }
    assert "DELETE from " + name + " WHERE (" + ("trade_date = '" + d + "'") + ")"
      == "DELETE from " + name + " WHERE (trade_date = '" + d + "')" by {
      assert "'" + ")" == "')";
      assert " WHERE (" + "trade_date = '" == " WHERE (trade_date = '";
    }
  }

  /** The conditions of `delete_by_section`. */
  function SectionConds(sec: Section): seq<Cond> {
    [Cond("trade_date", "=", sec.tradeDate), Cond("section", "=", sec.section)]
  }

  /** `delete_by_section`. */
  function DeleteBySection(m: Mgr, sec: Section): (r: Result<seq<Statement>>)
    ensures r.Ok? <==> m.mode != "r"
    ensures r.Err? ==> r.error == ValueError
    ensures r.Ok? ==> |r.value| == 1 && StartsWith(r.value[0].sql, "DELETE from " + m.table.name + " WHERE (")
  {
    DeleteByConditions(m, SectionConds(sec))
  }

  /** `delete_by_section` targets exactly the rows of that date and
      section. */
  lemma DeleteBySectionRows(rows: seq<map<string, string>>, sec: Section, x: map<string, string>)
    ensures AllKnown(SectionConds(sec))
    ensures x in Select(rows, SectionConds(sec)) <==>
      (x in rows && "trade_date" in x && x["trade_date"] == sec.tradeDate &&
       "section" in x && x["section"] == sec.section)
  {
    var cs := SectionConds(sec);
    assert AllKnown(cs);
    if x in Select(rows, cs) {
      assert Holds(cs[0], x) && Holds(cs[1], x);
    }
  }

  /** Every write path refuses a read-only manager and goes ahead in the
      writing modes. */
  lemma WritesNeedPermission(m: Mgr, t: Table, rows: seq<seq<string>>, cs: seq<Cond>)
    requires KnownMode(m.mode)
    ensures m.mode == "r" <==> RemoveTable(m, t) == Err(ValueError)
    ensures m.mode == "r" <==> Update(m, rows) == Err(ValueError)
    ensures m.mode == "r" <==> DeleteByConditions(m, cs) == Err(ValueError)
  {
  }

  /* -------------------------------------------------------- continuity */

  /** The verdict shared by the continuity checks, once the expected next
      key is known: 0 continuous, 1 keys omitted, 2 keys overlapped. */
  function Verdict(expected: string, incoming: string): (r: nat)
  {
    if expected == incoming then 0 else if Less(expected, incoming) then 1 else 2
  }

  /** The verdict is the three-way comparison of the two keys. */
  lemma VerdictTrichotomy(expected: string, incoming: string)
    ensures Verdict(expected, incoming) == 0 <==> expected == incoming
    ensures Verdict(expected, incoming) == 1 <==> Less(expected, incoming)
    ensures Verdict(expected, incoming) == 2 <==> Less(incoming, expected)
  {
    LessTotal(expected, incoming);
    if Less(expected, incoming) {
      LessAsymmetric(expected, incoming);
    }
    if expected == incoming {
      LessIrreflexive(expected);
    }
  }

  /** `check_continuity`. `last` is the check column of the table's last
      row, None when the table is empty. The expected date is the calendar
      successor of the last date: ValueError when that date is not a trade
      date, IndexError when it is the calendar's last one. */
  function CheckContinuity(last: Option<string>, incoming: string, c: Calendar.Calendar): (r: Result<nat>)
    ensures last.None? ==> r == Ok(0)
    ensures r.Ok? ==> r.value <= 2
    ensures last.Some? ==> (r.Ok? <==> last.value in c.dates && Calendar.GetSn(c, last.value).value + 1 < |c.dates|)
    ensures last.Some? && last.value !in c.dates ==> r == Err(ValueError)
  {
    match last
    case None => Ok(0)
    case Some(d) =>
      var expected :- Calendar.GetNextDate(c, d, 1);
      Ok(Verdict(expected, incoming))
  }

  /** On a sorted calendar, with the table ending at the i-th trade date:
      0 means the incoming date is the very next trade date; 1 means at
      least that date lies strictly between the two; for a trade date, 2
      means it is not after the stored one. */
  lemma ContinuityOnCalendar(c: Calendar.Calendar, i: nat, incoming: string)
    requires Calendar.Sorted(c) && i + 1 < |c.dates|
    ensures CheckContinuity(Some(c.dates[i]), incoming, c) == Ok(0) <==> incoming == c.dates[i + 1]
    ensures CheckContinuity(Some(c.dates[i]), incoming, c) == Ok(1) <==>
      (Less(c.dates[i], c.dates[i + 1]) && Less(c.dates[i + 1], incoming))
    ensures incoming in c.dates ==>
      (CheckContinuity(Some(c.dates[i]), incoming, c) == Ok(2) <==> LessEq(incoming, c.dates[i]))
  {
    Calendar.GetSnOfDate(c, i);
    var e := c.dates[i + 1];
    assert CheckContinuity(Some(c.dates[i]), incoming, c) == Ok(Verdict(e, incoming));
    VerdictTrichotomy(e, incoming);
    if incoming in c.dates {
      var j :| 0 <= j < |c.dates| && c.dates[j] == incoming;
      if j <= i {
        if j < i {
          StrictlySortedDistinct(c.dates, j, i);
          SortedBefore(c.dates, j, i);
        }
        SortedBefore(c.dates, j, i + 1);
      } else if j > i + 1 {
        SortedBefore(c.dates, i + 1, j);
        LessAsymmetric(e, incoming);
        SortedBefore(c.dates, i, j);
        LessAsymmetric(c.dates[i], incoming);
      } else {
        LessIrreflexive(e);
        LessAsymmetric(c.dates[i], e);
        if LessEq(incoming, c.dates[i]) {
          LessIrreflexive(e);
        }
      }
    }
  }

  /** In a strictly sorted list an earlier entry is smaller. */
  lemma {:induction false} SortedBefore(s: seq<string>, a: nat, b: nat)
    requires StrictlySorted(s) && a < b < |s|
    ensures Less(s[a], s[b])
    decreases b - a
  {
    if a + 1 < b {
      SortedBefore(s, a + 1, b);
      LessTransitive(s[a], s[a + 1], s[b]);
    }
  }

  /** `check_section_continuity`. `last` holds the (trade_date, section)
      columns of the table's last row, None when the table is empty. A
      stored id that names no section gives 3. A stored section that is
      the calendar's last one has no successor, and ordering None against
      a section raises TypeError. */
  function CheckSectionContinuity(last: Option<(string, string)>, append: Section, secs: seq<Section>): (r: Result<nat>)
    ensures last.None? ==> r == Ok(0)
    ensures last.Some? ==> (r == Ok(3) <==> last.value.0 + "-" + last.value.1 !in SecIds(secs))
    ensures r.Ok? ==> r.value <= 3
    ensures r.Err? ==> r.error == TypeError
  {
    match last
    case None => Ok(0)
    case Some((d, s)) =>
      match MatchId(secs, d + "-" + s)
      case None => Ok(3)
      case Some(found) =>
        var next := SectionsBuild.NextOf(secs, found);
        if next.None? then Err(TypeError)
        else if next.value == append then Ok(0)
        else if SecLess(next.value, append) then Ok(1)
        else Ok(2)
  }

  /** On a section calendar with increasing ids, with the table ending at
      the i-th section: 0 exactly for the next section, 1 exactly when
      the next section's id is below the appended one's; at the last
      section the check raises. */
  lemma SectionContinuityOnCalendar(secs: seq<Section>, i: nat, append: Section)
    requires StrictlySorted(SecIds(secs)) && i < |secs|
    ensures var r := CheckSectionContinuity(Some((secs[i].tradeDate, secs[i].section)), append, secs);
      && (i + 1 == |secs| ==> r == Err(TypeError))
      && (i + 1 < |secs| ==> (r == Ok(0) <==> append == secs[i + 1]))
      && (i + 1 < |secs| ==> (r == Ok(1) <==> append != secs[i + 1] && SecLess(secs[i + 1], append)))
  {
    var id := secs[i].tradeDate + "-" + secs[i].section;
    assert id == SecIds(secs)[i];
    var ids := SecIds(secs);
    forall a, b | 0 <= a < b < |ids| ensures ids[a] != ids[b] {
      StrictlySortedDistinct(ids, a, b);
    }
    PySeq.IndexOfDistinct(ids, i);
    assert MatchId(secs, id) == Some(secs[i]);
    SectionsBuild.GetSnAgrees(secs, i);
  }
}
