/**
 * The older futures accounting engine of husfort/qsimulation.py (the class
 * text of CTrade, CPosition and CPositionPlus, and CPortfolio's
 * cal_trades_for_signal, is the same in build/lib/husfort/qsimulation.py).
 * Differences from the current revision: an equal-quantity diff yields no
 * trade at all, closing is not guarded (a quantity can go negative), an
 * unknown operation code raises ValueError, a NaN close keeps the previous
 * last price, and positions closed on a day that is not a rebalance day
 * are rolled to the new major contract.
 */
module SimLegacy {

  import opened Wrappers
  import opened Dicts
  import Numeric
  import opened InstrumentsBuild

  /** `CTrade`: created with an executed price of 0, set before execution. */
  datatype Trade = Trade(key: PosKey, op: int, qty: int, exePrice: real)

  /** `CPosition`: a key and a quantity. */
  datatype Holding = Holding(key: PosKey, qty: int)

  /** `CPositionPlus`: a position with its cost price, last price,
      unrealized profit and fee rate. */
  datatype Position = Position(key: PosKey, qty: int, costPrice: real, lastPrice: real, unrealized: real, costRate: real)

  /** The dictionary `update_from_trade` returns for one trade. */
  datatype Record = Record(contract: string, direction: int, op: int, qty: int, price: real, cost: real, realized: real)

  /** The `CPosition` part of a `CPositionPlus`. */
  function Base(p: Position): (h: Holding)
    ensures h.key == p.key && h.qty == p.qty
  {
    Holding(p.key, p.qty)
  }

  /** `cal_quantity(price, allocated_mkt_val)`: the allocation over price
      and multiplier, rounded half to even. A zero divisor is where numpy
      would produce an infinity or a NaN that `int` cannot convert. */
  function CalQuantity(key: PosKey, price: real, alloc: real): (r: Result<Holding>)
    ensures r.Ok? <==> price != 0.0 && key.contract.multiplier != 0.0
    ensures r.Err? ==> r.error == NonFinite
    ensures r.Ok? ==> (r.value.key == key &&
      -0.5 <= alloc / price / key.contract.multiplier - r.value.qty as real <= 0.5)
    ensures r.Ok? ==> var x := alloc / price / key.contract.multiplier;
      (x - r.value.qty as real == 0.5 || r.value.qty as real - x == 0.5) ==> r.value.qty % 2 == 0
    ensures r.Ok? && alloc >= 0.0 && price > 0.0 && key.contract.multiplier > 0.0 ==> r.value.qty >= 0
  {
    var m := key.contract.multiplier;
    if price == 0.0 || m == 0.0 then Err(NonFinite)
    else
      var x := alloc / price / m;
      Ok(Holding(key, Numeric.RoundHalfEven(x)))
  }

  /** The signed quantity change a trade asks for (0 for an unknown
      operation code). */
  function Signed(t: Trade): int {
    if t.op == OPN then t.qty else if t.op == CLS then -t.qty else 0
  }

  /** `cal_trade_from_other_pos(other)`: no trade when the quantities are
      equal, else an opening or closing trade of the difference. */
  function CalTradeFromOtherPos(h: Holding, other: Holding): (r: Option<Trade>)
    ensures r.None? <==> other.qty == h.qty
    ensures r.Some? ==> var t := r.value;
      t.key == h.key && t.qty > 0 && t.exePrice == 0.0 &&
      (t.op == OPN <==> other.qty > h.qty) && (t.op == CLS <==> other.qty < h.qty) &&
      h.qty + Signed(t) == other.qty
  {
    var delta := other.qty - h.qty;
    if delta > 0 then Some(Trade(h.key, OPN, delta, 0.0))
    else if delta < 0 then Some(Trade(h.key, CLS, -delta, 0.0))
    else None
  }

  /** `open()`: a trade opening the whole holding. */
  function Open(h: Holding): (t: Trade)
    ensures t.key == h.key && t.op == OPN && t.qty == h.qty && Signed(t) == h.qty
  {
    Trade(h.key, OPN, h.qty, 0.0)
  }

  /** `close()`: a trade closing the whole holding. */
  function Close(h: Holding): (t: Trade)
    ensures t.key == h.key && t.op == CLS && t.qty == h.qty && h.qty + Signed(t) == 0
  {
    Trade(h.key, CLS, h.qty, 0.0)
  }

  /** The unrealized profit of a position at its last price. */
  function UnrealizedOf(p: Position): (u: real)
    ensures p.lastPrice == p.costPrice || p.qty == 0 ==> u == 0.0
  {
    (p.lastPrice - p.costPrice) * p.key.direction as real * p.key.contract.multiplier * p.qty as real
  }

  /** The outcome of one trade on a position. */
  datatype Fill = Fill(pos: Position, record: Record)

  /** `CPositionPlus.update_from_trade(trade)`. The fee is charged for both
      operations. Opening averages the cost price by quantity; the division
      by a zero total quantity is where numpy would produce an infinity or
      a NaN. Closing has no guard, so the quantity may go negative. Any
      other operation code raises ValueError. */
  function UpdateFromTrade(p: Position, t: Trade): (r: Result<Fill>)
    ensures r.Ok? <==> (t.op == OPN && p.qty + t.qty != 0) || t.op == CLS
    ensures r.Err? ==> r.error == (if t.op == OPN then NonFinite else ValueError)
    ensures r.Ok? ==> var f := r.value;
      f.pos.qty == p.qty + Signed(t) && f.pos.key == p.key &&
      f.pos.lastPrice == p.lastPrice && f.pos.costRate == p.costRate &&
      f.record.cost == t.exePrice * t.qty as real * p.key.contract.multiplier * p.costRate &&
      f.record.contract == p.key.contract.contract && f.record.direction == p.key.direction &&
      f.record.op == t.op && f.record.qty == t.qty && f.record.price == t.exePrice
    ensures r.Ok? && t.op == OPN ==> (r.value.record.realized == 0.0 &&
      r.value.pos.costPrice * r.value.pos.qty as real == p.costPrice * p.qty as real + t.exePrice * t.qty as real)
    ensures r.Ok? && t.op == CLS ==> (r.value.pos.costPrice == p.costPrice &&
      r.value.record.realized ==
        (t.exePrice - p.costPrice) * p.key.direction as real * p.key.contract.multiplier * t.qty as real)
  {
    var m := p.key.contract.multiplier;
    var cost := t.exePrice * t.qty as real * m * p.costRate;
    if t.op == OPN then
      var q := p.qty + t.qty;
      if q == 0 then Err(NonFinite)
      else
        var amt := p.costPrice * p.qty as real + t.exePrice * t.qty as real;
        var pos := p.(qty := q, costPrice := amt / q as real);
        Ok(Fill(pos, Record(p.key.contract.contract, p.key.direction, t.op, t.qty, t.exePrice, cost, 0.0)))
    else if t.op == CLS then
      var realized := (t.exePrice - p.costPrice) * p.key.direction as real * m * t.qty as real;
      Ok(Fill(p.(qty := p.qty - t.qty), Record(p.key.contract.contract, p.key.direction, t.op, t.qty, t.exePrice, cost, realized)))
    else Err(ValueError)
  }

  /** Closing more than is held leaves a negative quantity: the revision
      has no over-close guard. */
  lemma OverCloseGoesNegative(p: Position, t: Trade)
    requires t.op == CLS && t.qty > p.qty
    ensures UpdateFromTrade(p, t).Ok? && UpdateFromTrade(p, t).value.pos.qty < 0
  {
  }

  /** A full close at the last price realizes exactly the position's
      unrealized profit. */
  lemma CloseRealizesUnrealized(p: Position)
    ensures var r := UpdateFromTrade(p, Close(Base(p)).(exePrice := p.lastPrice));
      r.Ok? && r.value.pos.qty == 0 && r.value.record.realized == UnrealizedOf(p)
  {
  }

  /** `update_from_market_data(price)`. */
  function UpdateFromMarketData(p: Position, price: real): (q: Position)
    ensures q.lastPrice == price && q.unrealized == UnrealizedOf(q)
    ensures q == p.(lastPrice := price, unrealized := q.unrealized)
  {
    var q := p.(lastPrice := price);
    q.(unrealized := UnrealizedOf(q))
  }

  /** `update_from_last()`: recomputed at the retained last price. */
  function UpdateFromLast(p: Position): (q: Position)
    ensures q.unrealized == UnrealizedOf(p) && q == p.(unrealized := q.unrealized)
  {
    p.(unrealized := UnrealizedOf(p))
  }

  /** The step of `update_unrealized_pnl` for one position: a NaN close
      (None) keeps the previous last price instead of zeroing it. */
  function Mark(p: Position, close: Option<real>): (q: Position)
    ensures q.unrealized == UnrealizedOf(q)
    ensures q.key == p.key && q.qty == p.qty && q.costPrice == p.costPrice
    ensures q.lastPrice == (if close.Some? then close.value else p.lastPrice)
  {
    match close
    case Some(price) => UpdateFromMarketData(p, price)
    case None => UpdateFromLast(p)
  }

  /** Marking is idempotent, and a NaN close after a real one changes
      nothing. */
  lemma MarkStable(p: Position, close: Option<real>)
    ensures Mark(Mark(p, close), close) == Mark(p, close)
    ensures Mark(Mark(p, close), None) == Mark(p, close)
  {
  }

  /* --------------------------------------------------------------- books */

  /** `manager_pos`: positions keyed by (contract, direction). */
  type Book = Dict<PosKey, Position>

  /** `mgr_new_pos`: target holdings keyed the same way. */
  type Targets = Dict<PosKey, Holding>

  /** Each value is filed under its own key. */
  predicate KeyedBy(b: Book) {
    forall e :: e in b ==> e.1.key == e.0
  }

  predicate TargetsKeyedBy(t: Targets) {
    forall e :: e in t ==> e.1.key == e.0
  }

  /** Every target asks for a positive quantity. */
  predicate Positive(t: Targets) {
    forall e :: e in t ==> e.1.qty > 0
  }

  /** The quantity held under a key, 0 when there is no position. */
  function QtyOf(b: Book, k: PosKey): (q: int)
    ensures Has(b, k) ==> q == Get(b, k).value.qty
    ensures !Has(b, k) ==> q == 0
  {
    match Get(b, k)
    case Some(p) => p.qty
    case None => 0
  }

  /** The quantity a target asks for under a key, 0 when there is none. */
  function TargetQty(t: Targets, k: PosKey): (q: int)
    ensures Has(t, k) ==> q == Get(t, k).value.qty
    ensures !Has(t, k) ==> q == 0
  {
    match Get(t, k)
    case Some(h) => h.qty
    case None => 0
  }

  /* ------------------------------------------------------ target positions */

  /** One row of the signal header: contract, price, direction sign and
      non-negative weight. */
  datatype Row = Row(contract: Contract, price: real, direction: int, weight: real)

  /** The key a row asks for, when its direction is 1 or -1. */
  function RowKey(row: Row): PosKey {
    PosKey(row.contract, if row.direction == 1 then LNG else SRT)
  }

  /** Whether a row can be turned into a holding: its direction code is
      known and, unless the row is skipped, the price and multiplier are
      non-zero. */
  predicate RowOk(row: Row) {
    (row.direction == 1 || row.direction == -1 || row.direction == 0) &&
    (row.direction != 0 ==> row.price != 0.0 && row.contract.multiplier != 0.0)
  }

  /** The market value a row is allocated: the budget times its weight. */
  function Allocation(budget: real, row: Row): real {
    budget * row.weight
  }

  /** Whether a row ends up in the targets. */
  predicate Kept(budget: real, row: Row) {
    RowOk(row) && row.direction != 0 && CalQuantity(RowKey(row), row.price, Allocation(budget, row)).value.qty > 0
  }

  /** The loop of `cal_target_position` from a partial result: direction 1
      is long, -1 short, 0 skipped, anything else raises ValueError; only
      positive quantities are stored, a later row overwriting an earlier
      one on the same key. */
  function TargetsFrom(budget: real, rows: seq<Row>, acc: Targets): (r: Result<Targets>)
    ensures r.Ok? && Valid(acc) ==> Valid(r.value)
    ensures r.Ok? && TargetsKeyedBy(acc) ==> TargetsKeyedBy(r.value)
    ensures r.Ok? && Positive(acc) ==> Positive(r.value)
    ensures r.Err? ==> r.error == ValueError || r.error == NonFinite
    decreases |rows|
  {
    if |rows| == 0 then Ok(acc)
    else
      var row := rows[0];
      if row.direction == 0 then TargetsFrom(budget, rows[1..], acc)
      else if row.direction != 1 && row.direction != -1 then Err(ValueError)
      else
        var h :- CalQuantity(RowKey(row), row.price, Allocation(budget, row));
        var acc' := if h.qty > 0 then Put(acc, h.key, h) else acc;
        PutValid(acc, h.key, h);
        PutEntries(acc, h.key, h);
        TargetsFrom(budget, rows[1..], acc')
  }

  /** `cal_target_position(new_pos_df)`: the budget is the NAV over one
      plus the cost reservation. */
  function CalTargetPosition(nav: real, costReservation: real, rows: seq<Row>): (r: Result<Targets>)
    ensures 1.0 + costReservation == 0.0 ==> r == Err(NonFinite)
    ensures r.Ok? ==> Valid(r.value) && TargetsKeyedBy(r.value) && Positive(r.value)
  {
    if 1.0 + costReservation == 0.0 then Err(NonFinite)
    else TargetsFrom(nav / (1.0 + costReservation), rows, [])
  }

  /** What one usable row does to the partial targets. */
  function StepTargets(budget: real, row: Row, acc: Targets): (r: Targets)
    requires RowOk(row)
    ensures Has(r, RowKey(row)) <==> Has(acc, RowKey(row)) || Kept(budget, row)
    ensures forall k :: k != RowKey(row) ==> Get(r, k) == Get(acc, k)
  {
    if row.direction == 0 then acc
    else
      var h := CalQuantity(RowKey(row), row.price, Allocation(budget, row)).value;
      assert h.key == RowKey(row);
      if h.qty > 0 then
        assert Get(Put(acc, h.key, h), h.key) == Some(h);
        Put(acc, h.key, h)
      else acc
  }

  lemma TargetsFromCons(budget: real, rows: seq<Row>, acc: Targets)
    requires |rows| > 0 && RowOk(rows[0])
    ensures TargetsFrom(budget, rows, acc) == TargetsFrom(budget, rows[1..], StepTargets(budget, rows[0], acc))
  {
    var row := rows[0];
    if row.direction != 0 {
      var h := CalQuantity(RowKey(row), row.price, Allocation(budget, row)).value;
      var acc' := if h.qty > 0 then Put(acc, h.key, h) else acc;
      assert StepTargets(budget, row, acc) == acc';
      assert TargetsFrom(budget, rows, acc) == TargetsFrom(budget, rows[1..], acc');
    }
  }

  /** The targets succeed exactly when every row is usable. */
  lemma {:induction false} TargetsFromOk(budget: real, rows: seq<Row>, acc: Targets)
    ensures TargetsFrom(budget, rows, acc).Ok? <==> forall i :: 0 <= i < |rows| ==> RowOk(rows[i])
    decreases |rows|
  {
    if |rows| > 0 {
      assert forall i :: 0 < i < |rows| ==> rows[i] == rows[1..][i - 1];
      if RowOk(rows[0]) {
        TargetsFromCons(budget, rows, acc);
        TargetsFromOk(budget, rows[1..], StepTargets(budget, rows[0], acc));
      }
    }
  }

  /** Successful targets hold exactly the keys some kept row asks for. */
  lemma {:induction false} TargetsFromHas(budget: real, rows: seq<Row>, acc: Targets, k: PosKey)
    requires TargetsFrom(budget, rows, acc).Ok?
    ensures Has(TargetsFrom(budget, rows, acc).value, k) <==>
      Has(acc, k) || exists i :: 0 <= i < |rows| && Kept(budget, rows[i]) && RowKey(rows[i]) == k
    decreases |rows|
  {
    if |rows| > 0 {
      var rest := rows[1..];
      TargetsFromOk(budget, rows, acc);
      assert RowOk(rows[0]);
      TargetsFromCons(budget, rows, acc);
      var acc' := StepTargets(budget, rows[0], acc);
      TargetsFromHas(budget, rest, acc', k);
      if exists i :: 0 <= i < |rest| && Kept(budget, rest[i]) && RowKey(rest[i]) == k {
        var j :| 0 <= j < |rest| && Kept(budget, rest[j]) && RowKey(rest[j]) == k;
        assert rows[j + 1] == rest[j];
      }
      if exists i :: 0 <= i < |rows| && Kept(budget, rows[i]) && RowKey(rows[i]) == k {
        var j :| 0 <= j < |rows| && Kept(budget, rows[j]) && RowKey(rows[j]) == k;
        if j > 0 {
          assert rest[j - 1] == rows[j];
        }
      }
    }
  }

  /* ------------------------------------------------------- trades for signal */

  /** The trade `cal_trades_for_signal` makes for the target `tgt` filed
      under k: open it in full when the book has nothing under k, else the
      difference to the book's position, which may be no trade. */
  function TradeFor(k: PosKey, tgt: Holding, book: Book): (r: Option<Trade>)
    ensures !Has(book, k) ==> r == Some(Open(tgt))
    ensures Has(book, k) ==> r == CalTradeFromOtherPos(Base(Get(book, k).value), tgt)
  {
    match Get(book, k)
    case None => Some(Open(tgt))
    case Some(p) => CalTradeFromOtherPos(Base(p), tgt)
  }

  /** Step 0 of `cal_trades_for_signal`: the targets in order. */
  function TargetTrades(targets: Targets, book: Book): (ts: seq<Trade>)
    decreases |targets|
  {
    if |targets| == 0 then []
    else
      var o := TradeFor(targets[0].0, targets[0].1, book);
      (if o.Some? then [o.value] else []) + TargetTrades(targets[1..], book)
  }

  /** Step 1 of `cal_trades_for_signal`: close in full every book position
      with no target. */
  function CloseTrades(book: Book, targets: Targets): (ts: seq<Trade>)
    ensures forall i :: 0 <= i < |ts| ==> ts[i].op == CLS
    decreases |book|
  {
    if |book| == 0 then []
    else
      var rest := CloseTrades(book[1..], targets);
      if !Has(targets, book[0].0) then [Close(Base(book[0].1))] + rest else rest
  }

  /** `cal_trades_for_signal(mgr_new_pos)`. */
  function CalTradesForSignal(book: Book, targets: Targets): (ts: seq<Trade>)
    ensures |ts| >= |CloseTrades(book, targets)|
  {
    TargetTrades(targets, book) + CloseTrades(book, targets)
  }

  /** The net quantity change the trades ask of key k. */
  function Shift(trades: seq<Trade>, k: PosKey): int
    decreases |trades|
  {
    if |trades| == 0 then 0
    else (if trades[0].key == k then Signed(trades[0]) else 0) + Shift(trades[1..], k)
  }

  lemma {:induction false} ShiftConcat(a: seq<Trade>, b: seq<Trade>, k: PosKey)
    ensures Shift(a + b, k) == Shift(a, k) + Shift(b, k)
    decreases |a|
  {
    if |a| > 0 {
      assert (a + b)[1..] == a[1..] + b;
      ShiftConcat(a[1..], b, k);
    } else {
      assert a + b == b;
    }
  }

  /** No two trades share a key. */
  predicate DistinctKeys(trades: seq<Trade>) {
    forall i, j :: 0 <= i < j < |trades| ==> trades[i].key != trades[j].key
  }

  /** Whether a trade can be applied to a key holding quantity q: the
      operation code is known and an opening does not sum to zero. */
  predicate Applicable(q: int, t: Trade) {
    (t.op == OPN || t.op == CLS) && (t.op == OPN ==> q + t.qty != 0)
  }

  lemma HasCons<V>(d: Dict<PosKey, V>, k: PosKey)
    requires |d| > 0
    ensures Has(d, k) <==> d[0].0 == k || Has(d[1..], k)
  {
    assert Keys(d) == [d[0].0] + Keys(d[1..]);
  }

  lemma ValidTail<V>(d: Dict<PosKey, V>)
    requires Valid(d) && |d| > 0
    ensures Valid(d[1..]) && !Has(d[1..], d[0].0)
  {
    assert Keys(d) == [d[0].0] + Keys(d[1..]);
    assert forall a :: 0 <= a < |d| - 1 ==> Keys(d[1..])[a] == Keys(d)[a + 1];
  }

  /** The trade for a positive target on a consistent book is filed under
      its key, can be applied, and asks for the difference between target
      and book. */
  lemma TradeForShift(k: PosKey, tgt: Holding, book: Book)
    requires tgt.key == k && tgt.qty > 0 && KeyedBy(book)
    ensures var o := TradeFor(k, tgt, book);
      (o.Some? ==> o.value.key == k && Applicable(QtyOf(book, k), o.value)) &&
      (if o.Some? then Signed(o.value) else 0) == tgt.qty - QtyOf(book, k)
  {
    if Has(book, k) {
      assert (k, Get(book, k).value) in book;
    }
  }

  /** The first entry of consistent positive targets, and their tail. */
  lemma TargetsTail(targets: Targets)
    requires |targets| > 0 && Valid(targets) && TargetsKeyedBy(targets) && Positive(targets)
    ensures Valid(targets[1..]) && !Has(targets[1..], targets[0].0)
    ensures TargetsKeyedBy(targets[1..]) && Positive(targets[1..])
    ensures targets[0].1.key == targets[0].0 && targets[0].1.qty > 0
  {
    ValidTail(targets);
    assert forall e :: e in targets[1..] ==> e in targets;
    assert targets[0] in targets;
  }

  /** The first entry of a consistent book, and its tail. */
  lemma BookTail(book: Book)
    requires |book| > 0 && Valid(book) && KeyedBy(book)
    ensures Valid(book[1..]) && !Has(book[1..], book[0].0) && KeyedBy(book[1..])
    ensures book[0].1.key == book[0].0
  {
    ValidTail(book);
    assert forall e :: e in book[1..] ==> e in book;
    assert book[0] in book;
  }

  /** The target trades touch each key once, only keys with a target, and
      can all be applied to the book. */
  lemma {:induction false} TargetTradesKeys(targets: Targets, book: Book)
    requires Valid(targets) && TargetsKeyedBy(targets) && Positive(targets) && KeyedBy(book)
    ensures var ts := TargetTrades(targets, book);
      DistinctKeys(ts) &&
      forall i :: 0 <= i < |ts| ==> Has(targets, ts[i].key) && Applicable(QtyOf(book, ts[i].key), ts[i])
    decreases |targets|
  {
    if |targets| > 0 {
      var k := targets[0].0;
      TargetsTail(targets);
      TargetTradesKeys(targets[1..], book);
      TradeForShift(k, targets[0].1, book);
      var o := TradeFor(k, targets[0].1, book);
      var rest := TargetTrades(targets[1..], book);
      var head := if o.Some? then [o.value] else [];
      var ts := head + rest;
      assert TargetTrades(targets, book) == ts;
      forall i | 0 <= i < |rest| ensures rest[i].key != k && Has(targets, rest[i].key) {
        HasCons(targets, rest[i].key);
      }
      assert Has(targets, k) by { HasCons(targets, k); }
      PrependKeys(head, rest, k, (t: Trade) => Has(targets, t.key) && Applicable(QtyOf(book, t.key), t));
    }
  }

  /** At most one trade on key k followed by trades on distinct other keys
      has distinct keys, and a property of every trade survives. */
  lemma PrependKeys(head: seq<Trade>, rest: seq<Trade>, k: PosKey, ok: Trade -> bool)
    requires |head| <= 1 && forall i :: 0 <= i < |head| ==> head[i].key == k && ok(head[i])
    requires DistinctKeys(rest) && forall i :: 0 <= i < |rest| ==> rest[i].key != k && ok(rest[i])
    ensures DistinctKeys(head + rest)
    ensures forall i :: 0 <= i < |head + rest| ==> ok((head + rest)[i])
  {
    var ts := head + rest;
    forall i | 0 <= i < |ts| ensures ok(ts[i]) && (i >= |head| ==> ts[i] == rest[i - |head|]) {
      if i >= |head| {
        assert ts[i] == rest[i - |head|];
      }
    }
    forall i, j | 0 <= i < j < |ts| ensures ts[i].key != ts[j].key {
      assert ts[j] == rest[j - |head|];
    }
  }

  /** The target trades ask of each key the difference between its target
      and the book's quantity, and nothing of keys without a target. */
  lemma {:induction false} TargetTradesShift(targets: Targets, book: Book, k: PosKey)
    requires Valid(targets) && TargetsKeyedBy(targets) && Positive(targets) && KeyedBy(book)
    ensures Shift(TargetTrades(targets, book), k) ==
      if Has(targets, k) then TargetQty(targets, k) - QtyOf(book, k) else 0
    decreases |targets|
  {
    if |targets| > 0 {
      var k0 := targets[0].0;
      TargetsTail(targets);
      TargetTradesShift(targets[1..], book, k);
      TradeForShift(k0, targets[0].1, book);
      var o := TradeFor(k0, targets[0].1, book);
      var rest := TargetTrades(targets[1..], book);
      var head := if o.Some? then [o.value] else [];
      assert TargetTrades(targets, book) == head + rest;
      ShiftConcat(head, rest, k);
      HasCons(targets, k);
      assert Shift(head, k) == if k == k0 && o.Some? then Signed(o.value) else 0 by {
        if o.Some? {
          assert head[1..] == [];
        }
      }
      if k == k0 {
        assert TargetQty(targets, k) == targets[0].1.qty;
      } else {
        assert TargetQty(targets, k) == TargetQty(targets[1..], k);
      }
    }
  }

  /** The close trades touch each key once, only keys the book holds and
      the targets lack. */
  lemma {:induction false} CloseTradesKeys(book: Book, targets: Targets)
    requires Valid(book) && KeyedBy(book)
    ensures var ts := CloseTrades(book, targets);
      DistinctKeys(ts) && forall i :: 0 <= i < |ts| ==> Has(book, ts[i].key) && !Has(targets, ts[i].key)
    decreases |book|
  {
    if |book| > 0 {
      BookTail(book);
      CloseTradesKeys(book[1..], targets);
      var k := book[0].0;
      var rest := CloseTrades(book[1..], targets);
      forall i | 0 <= i < |rest| ensures rest[i].key != k && Has(book, rest[i].key) {
        HasCons(book, rest[i].key);
      }
      assert Has(book, k) by { HasCons(book, k); }
      if !Has(targets, k) {
        var head := [Close(Base(book[0].1))];
        var ts := head + rest;
        assert CloseTrades(book, targets) == ts;
        PrependKeys(head, rest, k, (t: Trade) => Has(book, t.key) && !Has(targets, t.key));
      }
    }
  }

  /** The close trades empty every key the book holds and the targets
      lack, and ask nothing of the other keys. */
  lemma {:induction false} CloseTradesShift(book: Book, targets: Targets, k: PosKey)
    requires Valid(book) && KeyedBy(book)
    ensures Shift(CloseTrades(book, targets), k) ==
      if Has(book, k) && !Has(targets, k) then -QtyOf(book, k) else 0
    decreases |book|
  {
    if |book| > 0 {
      BookTail(book);
      CloseTradesShift(book[1..], targets, k);
      CloseShiftCons(book, targets, k);
      HasCons(book, k);
      QtyOfCons(book, k);
    }
  }

  /** The close trade of the first entry, if any, comes before the rest. */
  lemma {:induction false} CloseShiftCons(book: Book, targets: Targets, k: PosKey)
    requires |book| > 0 && book[0].1.key == book[0].0
    ensures Shift(CloseTrades(book, targets), k) ==
      (if book[0].0 == k && !Has(targets, k) then -book[0].1.qty else 0) + Shift(CloseTrades(book[1..], targets), k)
  {
    var rest := CloseTrades(book[1..], targets);
    if !Has(targets, book[0].0) {
      var head := [Close(Base(book[0].1))];
      ShiftConcat(head, rest, k);
      assert Shift(head, k) == if book[0].0 == k then -book[0].1.qty else 0 by {
        assert head[1..] == [];
      }
    }
  }

  /** The holding of k is the first entry's when that entry is k's. */
  lemma {:induction false} QtyOfCons(book: Book, k: PosKey)
    requires |book| > 0
    ensures QtyOf(book, k) == if book[0].0 == k then book[0].1.qty else QtyOf(book[1..], k)
  {
    Dicts.GetCons(book[0], book[1..]);
    assert [book[0]] + book[1..] == book;
  }

  /* ------------------------------------------------------ applying trades */

  /** A book after some trades, with one record per trade. */
  datatype Applied = Applied(book: Book, records: seq<Record>)

  /** One step of the trade loop of `update_from_trades`: a trade on a key
      the book does not hold first files an empty position there (for
      either operation), then the position takes the trade. */
  function ApplyTrade(book: Book, t: Trade, rate: real): (r: Result<(Book, Record)>)
    ensures r.Ok? <==> Applicable(QtyOf(book, t.key), t)
    ensures r.Err? ==> r.error == (if t.op == OPN then NonFinite else ValueError)
    ensures r.Ok? ==> QtyOf(r.value.0, t.key) == QtyOf(book, t.key) + Signed(t)
    ensures r.Ok? ==> forall j :: j != t.key ==> Get(r.value.0, j) == Get(book, j)
    ensures r.Ok? && Valid(book) ==> Valid(r.value.0)
    ensures r.Ok? && KeyedBy(book) ==> KeyedBy(r.value.0)
  {
    var p := if Has(book, t.key) then Get(book, t.key).value else Position(t.key, 0, 0.0, 0.0, 0.0, rate);
    var f :- UpdateFromTrade(p, t);
    var b := Put(book, t.key, f.pos);
    PutEntries(book, t.key, f.pos);
    PutValid(book, t.key, f.pos);
    Ok((b, f.record))
  }

  /** The trade loop of `update_from_trades`, one record per trade; the
      first failing trade aborts. */
  function ApplyTrades(book: Book, trades: seq<Trade>, rate: real): (r: Result<Applied>)
    ensures r.Ok? ==> |r.value.records| == |trades|
    ensures r.Ok? ==> forall i :: 0 <= i < |trades| ==>
      r.value.records[i].qty == trades[i].qty && r.value.records[i].op == trades[i].op &&
      r.value.records[i].price == trades[i].exePrice
    ensures r.Ok? && Valid(book) ==> Valid(r.value.book)
    ensures r.Ok? && KeyedBy(book) ==> KeyedBy(r.value.book)
    decreases |trades|
  {
    if |trades| == 0 then Ok(Applied(book, []))
    else
      var (b, rec) :- ApplyTrade(book, trades[0], rate);
      var rest :- ApplyTrades(b, trades[1..], rate);
      Ok(Applied(rest.book, [rec] + rest.records))
  }

  /** Trades on distinct keys, each applicable to the book, all succeed and
      move every key by exactly the shift they ask for. */
  lemma {:induction false} ApplyTradesShift(book: Book, trades: seq<Trade>, rate: real, k: PosKey)
    requires DistinctKeys(trades)
    requires forall i :: 0 <= i < |trades| ==> Applicable(QtyOf(book, trades[i].key), trades[i])
    ensures ApplyTrades(book, trades, rate).Ok?
    ensures QtyOf(ApplyTrades(book, trades, rate).value.book, k) == QtyOf(book, k) + Shift(trades, k)
    decreases |trades|
  {
    if |trades| > 0 {
      var t := trades[0];
      var b := ApplyTrade(book, t, rate).value.0;
      var rest := trades[1..];
      forall i | 0 <= i < |rest| ensures Applicable(QtyOf(b, rest[i].key), rest[i]) {
        assert rest[i] == trades[i + 1];
        assert Get(b, rest[i].key) == Get(book, rest[i].key);
      }
      ApplyTradesShift(b, rest, rate, k);
      if k != t.key {
        assert Get(b, k) == Get(book, k);
      }
    }
  }

  /** The empty-position prune as intended: drop every position whose
      quantity is 0, keeping the order of the others. */
  function Prune(book: Book): (r: Book)
    ensures forall e :: e in r ==> e in book && e.1.qty != 0
    ensures forall e :: e in book && e.1.qty != 0 ==> e in r
    decreases |book|
  {
    if |book| == 0 then []
    else
      var rest := Prune(book[1..]);
      assert forall e :: e in book[1..] ==> e in book;
      if book[0].1.qty == 0 then rest else [book[0]] + rest
  }

  /** Pruning keeps every quantity (a pruned key held 0), keeps a key
      exactly when its quantity is non-zero, and keeps the book valid. */
  lemma {:induction false} PruneKeeps(book: Book, k: PosKey)
    requires Valid(book)
    ensures Valid(Prune(book))
    ensures QtyOf(Prune(book), k) == QtyOf(book, k)
    ensures Has(Prune(book), k) <==> QtyOf(book, k) != 0
    decreases |book|
  {
    if |book| > 0 {
      var (k0, p) := book[0];
      ValidTail(book);
      PruneKeeps(book[1..], k);
      PruneKeeps(book[1..], k0);
      var rest := Prune(book[1..]);
      HasCons(book, k);
      if k == k0 {
        assert QtyOf(book, k) == p.qty;
      } else {
        assert QtyOf(book, k) == QtyOf(book[1..], k);
      }
      if p.qty != 0 {
        assert Prune(book) == [book[0]] + rest;
        assert Keys(Prune(book)) == [k0] + Keys(rest);
        HasCons(Prune(book), k);
      }
    }
  }

  /** The prune loop as written, `for pos_key in self.manager_pos: ... del
      self.manager_pos[pos_key]`: Python raises RuntimeError on the step
      after a deletion, so the loop fails as soon as one position is
      empty, and otherwise deletes nothing. */
  function PruneAsWritten(book: Book): (r: Result<Book>)
    ensures r.Ok? <==> forall e :: e in book ==> e.1.qty != 0
    ensures r.Err? ==> r.error == RuntimeError
    ensures r.Ok? ==> r.value == book
    decreases |book|
  {
    if |book| == 0 then Ok(book)
    else if book[0].1.qty == 0 then Err(RuntimeError)
    else
      assert forall e :: e in book ==> e == book[0] || e in book[1..];
      var _ :- PruneAsWritten(book[1..]);
      Ok(book)
  }

  /** When the written loop survives, it agrees with the intended prune. */
  lemma PruneAsWrittenAgrees(book: Book)
    requires PruneAsWritten(book).Ok?
    ensures PruneAsWritten(book).value == Prune(book)
  {
    PruneIdentity(book);
  }

  lemma {:induction false} PruneIdentity(book: Book)
    requires forall e :: e in book ==> e.1.qty != 0
    ensures Prune(book) == book
    decreases |book|
  {
    if |book| > 0 {
      assert book[0] in book;
      assert forall e :: e in book[1..] ==> e in book;
      PruneIdentity(book[1..]);
      assert book == [book[0]] + book[1..];
    }
  }

  /** `update_from_trades(trades)` as written: the trade loop, then the
      prune loop that fails once any position is empty. */
  function UpdateFromTradesAsWritten(book: Book, trades: seq<Trade>, rate: real): (r: Result<Applied>)
    ensures r.Ok? ==> forall e :: e in r.value.book ==> e.1.qty != 0
    ensures ApplyTrades(book, trades, rate).Ok? && r.Err? ==> r.error == RuntimeError
  {
    var a :- ApplyTrades(book, trades, rate);
    var b :- PruneAsWritten(a.book);
    Ok(a.(book := b))
  }

  /** `update_from_trades(trades)` as evidently intended (and as the
      build/lib revision writes the prune, over a copy of the keys). */
  function UpdateFromTrades(book: Book, trades: seq<Trade>, rate: real): (r: Result<Applied>)
    ensures r.Ok? <==> ApplyTrades(book, trades, rate).Ok?
    ensures r.Ok? ==> forall e :: e in r.value.book ==> e.1.qty != 0
    ensures r.Ok? ==> r.value.records == ApplyTrades(book, trades, rate).value.records
    ensures r.Ok? && KeyedBy(book) ==> KeyedBy(r.value.book)
  {
    var a :- ApplyTrades(book, trades, rate);
    Ok(a.(book := Prune(a.book)))
  }

  /** Closing the only position of a book makes the written prune raise,
      where the intended one leaves an empty book. */
  lemma FullCloseCrashesAsWritten(k: PosKey, p: Position, price: real, rate: real)
    requires p.key == k && p.qty > 0
    ensures var t := Close(Base(p)).(exePrice := price);
      UpdateFromTradesAsWritten([(k, p)], [t], rate) == Err(RuntimeError) &&
      UpdateFromTrades([(k, p)], [t], rate).Ok? &&
      UpdateFromTrades([(k, p)], [t], rate).value.book == []
  {
    var t := Close(Base(p)).(exePrice := price);
    var book := [(k, p)];
    assert Keys(book) == [k];
    assert Get(book, k) == Some(p);
    var f := UpdateFromTrade(p, t).value;
    var b := Put(book, k, f.pos);
    assert Keys(b) == [k];
    assert b == [(k, f.pos)] by {
      assert b[0].0 == k;
      GetEntry(b, 0);
    }
    assert ApplyTrade(book, t, rate) == Ok((b, f.record));
    assert [t][1..] == [];
    assert ApplyTrades(b, [], rate) == Ok(Applied(b, []));
    assert [t][0] == t && [f.record] + [] == [f.record];
    assert ApplyTrades(book, [t], rate) == Ok(Applied(b, [f.record]));
    assert f.pos.qty == 0;
    assert b[1..] == [];
    assert Prune(b) == [];
  }

  /** The two readings of `update_from_trades` fail alike when a trade
      fails; once the trades go through, the written prune either agrees
      with the intended one or raises RuntimeError. */
  lemma UpdateFromTradesAgrees(book: Book, trades: seq<Trade>, rate: real)
    ensures var w := UpdateFromTradesAsWritten(book, trades, rate);
      var u := UpdateFromTrades(book, trades, rate);
      (u.Err? ==> w == u) && (w.Ok? ==> w == u) && (u.Ok? && w.Err? ==> w.error == RuntimeError)
  {
    var a := ApplyTrades(book, trades, rate);
    if a.Ok? && PruneAsWritten(a.value.book).Ok? {
      PruneAsWrittenAgrees(a.value.book);
    }
  }

  /** The trade loop never takes a key out of the book. */
  lemma {:induction false} ApplyTradesKeeps(book: Book, trades: seq<Trade>, rate: real, k: PosKey)
    requires ApplyTrades(book, trades, rate).Ok? && Has(book, k)
    ensures Has(ApplyTrades(book, trades, rate).value.book, k)
    decreases |trades|
  {
    if |trades| > 0 {
      var b := ApplyTrade(book, trades[0], rate).value.0;
      if k != trades[0].key {
        assert Get(b, k) == Get(book, k);
      }
      ApplyTradesKeeps(b, trades[1..], rate, k);
    }
  }

  /** Trades that empty a position the book held make the written prune
      raise RuntimeError. */
  lemma EmptiedCrashesAsWritten(book: Book, trades: seq<Trade>, rate: real, k: PosKey)
    requires ApplyTrades(book, trades, rate).Ok? && Has(book, k)
    requires QtyOf(ApplyTrades(book, trades, rate).value.book, k) == 0
    ensures UpdateFromTradesAsWritten(book, trades, rate) == Err(RuntimeError)
  {
    ApplyTradesKeeps(book, trades, rate, k);
    var b := ApplyTrades(book, trades, rate).value.book;
    assert (k, Get(b, k).value) in b;
  }

  /** The trades of `cal_trades_for_signal` hit distinct keys, each can be
      applied to the book they were computed from, and together they ask
      every key to move by the gap between its target and its holding. */
  lemma SignalTradesPlan(targets: Targets, book: Book, k: PosKey)
    requires Valid(targets) && TargetsKeyedBy(targets) && Positive(targets)
    requires Valid(book) && KeyedBy(book)
    ensures var ts := CalTradesForSignal(book, targets);
      DistinctKeys(ts) &&
      (forall i :: 0 <= i < |ts| ==> Applicable(QtyOf(book, ts[i].key), ts[i])) &&
      Shift(ts, k) == TargetQty(targets, k) - QtyOf(book, k)
  {
    var ta := TargetTrades(targets, book);
    var cl := CloseTrades(book, targets);
    TargetTradesKeys(targets, book);
    CloseTradesKeys(book, targets);
    forall i | 0 <= i < |cl| ensures Applicable(QtyOf(book, cl[i].key), cl[i]) {
    }
    ConcatKeys(ta, cl, (key: PosKey) => Has(targets, key), (t: Trade) => Applicable(QtyOf(book, t.key), t));
    ShiftConcat(ta, cl, k);
    TargetTradesShift(targets, book, k);
    CloseTradesShift(book, targets, k);
  }

  /** Trades on keys on one side of a split, followed by trades on keys on
      the other side, hit distinct keys when each part does. */
  lemma ConcatKeys(ta: seq<Trade>, cl: seq<Trade>, side: PosKey -> bool, ok: Trade -> bool)
    requires DistinctKeys(ta) && DistinctKeys(cl)
    requires forall i :: 0 <= i < |ta| ==> side(ta[i].key) && ok(ta[i])
    requires forall i :: 0 <= i < |cl| ==> !side(cl[i].key) && ok(cl[i])
    ensures DistinctKeys(ta + cl)
    ensures forall i :: 0 <= i < |ta + cl| ==> ok((ta + cl)[i])
  {
    var ts := ta + cl;
    forall i | 0 <= i < |ts| ensures ok(ts[i]) && (i >= |ta| ==> ts[i] == cl[i - |ta|]) {
      if i >= |ta| {
        assert ts[i] == cl[i - |ta|];
      }
    }
    forall i, j | 0 <= i < j < |ts| ensures ts[i].key != ts[j].key {
      if i < |ta| && j >= |ta| {
        assert side(ts[i].key) && !side(ts[j].key);
      }
    }
  }

  /** Any trades on distinct keys, each applicable, that ask key k for the
      gap to its target leave k at its target once applied and pruned. */
  lemma PlanReachesTarget(targets: Targets, book: Book, ts: seq<Trade>, rate: real, k: PosKey)
    requires Valid(targets) && Positive(targets) && Valid(book) && KeyedBy(book)
    requires DistinctKeys(ts)
    requires forall i :: 0 <= i < |ts| ==> Applicable(QtyOf(book, ts[i].key), ts[i])
    requires Shift(ts, k) == TargetQty(targets, k) - QtyOf(book, k)
    ensures var r := UpdateFromTrades(book, ts, rate);
      r.Ok? && QtyOf(r.value.book, k) == TargetQty(targets, k) &&
      (Has(r.value.book, k) <==> Has(targets, k))
  {
    ApplyTradesShift(book, ts, rate, k);
    var a := ApplyTrades(book, ts, rate).value;
    PruneKeeps(a.book, k);
    if Has(targets, k) {
      assert (k, Get(targets, k).value) in targets;
    }
  }

  /** The trades of `cal_trades_for_signal`, applied to the book they were
      computed from and pruned, succeed and leave the book holding exactly
      the targets, at their quantities. */
  lemma CalTradesReachTarget(targets: Targets, book: Book, rate: real, k: PosKey)
    requires Valid(targets) && TargetsKeyedBy(targets) && Positive(targets)
    requires Valid(book) && KeyedBy(book)
    ensures var r := UpdateFromTrades(book, CalTradesForSignal(book, targets), rate);
      r.Ok? && QtyOf(r.value.book, k) == TargetQty(targets, k) &&
      (Has(r.value.book, k) <==> Has(targets, k))
  {
    SignalTradesPlan(targets, book, k);
    PlanReachesTarget(targets, book, CalTradesForSignal(book, targets), rate, k);
  }

  /** Two trade lists with the same keys, operations and quantities in the
      same order; only execution prices may differ. */
  predicate SamePlan(a: seq<Trade>, b: seq<Trade>) {
    |a| == |b| &&
    forall i :: 0 <= i < |a| ==> a[i].key == b[i].key && a[i].op == b[i].op && a[i].qty == b[i].qty
  }

  /** Trades with the same plan ask every key for the same shift. */
  lemma {:induction false} SamePlanShift(a: seq<Trade>, b: seq<Trade>, k: PosKey)
    requires SamePlan(a, b)
    ensures Shift(a, k) == Shift(b, k)
    decreases |a|
  {
    if |a| > 0 {
      assert SamePlan(a[1..], b[1..]) by {
        forall i | 0 <= i < |a| - 1 ensures a[1..][i] == a[i + 1] && b[1..][i] == b[i + 1] { }
      }
      SamePlanShift(a[1..], b[1..], k);
    }
  }

  /** A successful trade loop moves every key by the shift the trades ask
      for, whatever their keys. */
  lemma {:induction false} ApplyTradesQty(book: Book, trades: seq<Trade>, rate: real, k: PosKey)
    requires ApplyTrades(book, trades, rate).Ok?
    ensures QtyOf(ApplyTrades(book, trades, rate).value.book, k) == QtyOf(book, k) + Shift(trades, k)
    decreases |trades|
  {
    if |trades| > 0 {
      var b := ApplyTrade(book, trades[0], rate).value.0;
      ApplyTradesQty(b, trades[1..], rate, k);
      if k != trades[0].key {
        assert Get(b, k) == Get(book, k);
      }
    }
  }

  /* ------------------------------------------------------------ rollover */

  /** Whether a position's contract is no longer the major one. */
  predicate Rolls(k: PosKey, major: string -> string) {
    k.contract.contract != major(k.contract.instrument)
  }

  /** The key a rolled position moves to: the major contract id on the old
      contract's instrument, exchange and multiplier, same direction. */
  function RollKey(k: PosKey, major: string -> string): (n: PosKey)
    ensures n.direction == k.direction && n.contract.instrument == k.contract.instrument
    ensures !Rolls(n, major)
  {
    PosKey(GenFromOther(major(k.contract.instrument), k.contract), k.direction)
  }

  /** `cal_trades_for_major(mgr_major)`: for each position whose contract is
      no longer the major one (`major(instrument)` at the update date), a
      full close followed by an opening of the same quantity on the major
      contract. */
  function CalTradesForMajor(book: Book, major: string -> string): (ts: seq<Trade>)
    ensures |ts| % 2 == 0
    decreases |book|
  {
    if |book| == 0 then []
    else
      var (k, p) := book[0];
      var rest := CalTradesForMajor(book[1..], major);
      var newId := major(p.key.contract.instrument);
      if p.key.contract.contract != newId then
        [Close(Base(p)), Trade(PosKey(GenFromOther(newId, k.contract), p.key.direction), OPN, p.qty, 0.0)] + rest
      else rest
  }

  /** The quantity rolled into key k from the positions that roll. */
  function Inflow(book: Book, major: string -> string, k: PosKey): int
    decreases |book|
  {
    if |book| == 0 then 0
    else
      (if Rolls(book[0].0, major) && RollKey(book[0].0, major) == k then book[0].1.qty else 0)
      + Inflow(book[1..], major, k)
  }

  /** Rolling asks every rolled key to give up its whole quantity and
      every other key to take what is rolled into it. */
  lemma {:induction false} RolloverShift(book: Book, major: string -> string, k: PosKey)
    requires Valid(book) && KeyedBy(book)
    ensures Shift(CalTradesForMajor(book, major), k) ==
      (if Has(book, k) && Rolls(k, major) then -QtyOf(book, k) else 0) + Inflow(book, major, k)
    decreases |book|
  {
    if |book| > 0 {
      var (k0, p) := book[0];
      BookTail(book);
      RolloverShift(book[1..], major, k);
      var rest := CalTradesForMajor(book[1..], major);
      HasCons(book, k);
      if k == k0 {
        assert QtyOf(book, k) == p.qty;
      } else {
        assert QtyOf(book, k) == QtyOf(book[1..], k);
      }
      if Rolls(k0, major) {
        var pair := [Close(Base(p)), Trade(RollKey(k0, major), OPN, p.qty, 0.0)];
        assert CalTradesForMajor(book, major) == pair + rest;
        ShiftConcat(pair, rest, k);
        assert pair[1..][1..] == [];
        if k == k0 {
          assert RollKey(k0, major) != k;
        }
      } else {
        assert CalTradesForMajor(book, major) == rest;
      }
    }
  }

  /** After the rollover trades succeed, every rolled position is empty
      (so the prune drops it) and every major position holds what it held
      plus what was rolled into it. */
  lemma RolloverEmptiesRolled(book: Book, major: string -> string, rate: real, k: PosKey)
    requires Valid(book) && KeyedBy(book)
    requires ApplyTrades(book, CalTradesForMajor(book, major), rate).Ok?
    ensures var b := ApplyTrades(book, CalTradesForMajor(book, major), rate).value.book;
      QtyOf(b, k) == if Rolls(k, major) then 0 else QtyOf(book, k) + Inflow(book, major, k)
  {
    RolloverShift(book, major, k);
    ApplyTradesQty(book, CalTradesForMajor(book, major), rate, k);
    if Rolls(k, major) {
      InflowRolled(book, major, k);
    }
  }

  /** Nothing is rolled into a key that itself rolls. */
  lemma {:induction false} InflowRolled(book: Book, major: string -> string, k: PosKey)
    requires Rolls(k, major)
    ensures Inflow(book, major, k) == 0
    decreases |book|
  {
    if |book| > 0 {
      InflowRolled(book[1..], major, k);
    }
  }

  /* ----------------------------------------------------- marking to market */

  /** The stored unrealized profits of a book. */
  function SumUnrealized(b: Book): real
    decreases |b|
  {
    if |b| == 0 then 0.0 else b[0].1.unrealized + SumUnrealized(b[1..])
  }

  /** The unrealized profits recomputed from each position's prices. */
  function TotalUnrealizedOf(b: Book): real
    decreases |b|
  {
    if |b| == 0 then 0.0 else UnrealizedOf(b[0].1) + TotalUnrealizedOf(b[1..])
  }

  /** The book after the close, with its unrealized profit. */
  datatype Marked = Marked(book: Book, unrealized: real)

  /** `update_unrealized_pnl(mgr_md)`: every position is marked at its
      close `close(contract, instrument)` (None for NaN, which keeps the
      last price), and the total is the sum over the positions. */
  function UpdateUnrealizedPnl(book: Book, close: (string, string) -> Option<real>): (r: Marked)
    ensures r.unrealized == SumUnrealized(r.book) == TotalUnrealizedOf(r.book)
    ensures Keys(r.book) == Keys(book)
    ensures forall i :: 0 <= i < |book| ==> var p := book[i].1; var q := r.book[i].1;
      q.key == p.key && q.qty == p.qty && q.costPrice == p.costPrice &&
      q.lastPrice == (var c := close(p.key.contract.contract, p.key.contract.instrument);
        if c.Some? then c.value else p.lastPrice)
    decreases |book|
  {
    if |book| == 0 then Marked([], 0.0)
    else
      var (k, p) := book[0];
      var q := Mark(p, close(p.key.contract.contract, p.key.contract.instrument));
      var rest := UpdateUnrealizedPnl(book[1..], close);
      var b := [(k, q)] + rest.book;
      assert b[1..] == rest.book;
      assert forall i :: 0 < i < |book| ==> b[i] == rest.book[i - 1] && book[i] == book[1..][i - 1];
      Marked(b, q.unrealized + rest.unrealized)
  }
}
