/**
 * The daily futures accounting engine of src/husfort/qsimulation.py:
 * trades, positions keyed by (contract, direction), the diff of a book
 * against target positions, and the application of trades and market
 * prices to the book. Prices and multipliers are reals; floating-point
 * rounding is not modelled.
 */
module SimCurrent {

  import opened Wrappers
  import opened Dicts

  datatype Direction = LNG | SRT

  /** `float(direction)`: 1 for long, -1 for short. */
  function Sign(d: Direction): (s: real)
    ensures s == 1.0 || s == -1.0
  {
    if d == LNG then 1.0 else -1.0
  }

  datatype Offset = OPN | CLS

  datatype PosKey = PosKey(contract: string, direction: Direction)

  datatype Trade = Trade(key: PosKey, offset: Offset, qty: int, multiplier: real, exePrice: real)

  datatype Position = Position(key: PosKey, qty: int, multiplier: real, costPrice: real, lastPrice: real)

  /** `CTrade.cost(rate)`: a proportional fee on the traded value, charged
      for opening and closing alike. */
  function Cost(t: Trade, rate: real): (c: real)
    ensures t.qty >= 0 && t.exePrice >= 0.0 && t.multiplier >= 0.0 && rate >= 0.0 ==> c >= 0.0
  {
    t.exePrice * t.multiplier * t.qty as real * rate
  }

  /** `CPosition.unrealized_pnl`. */
  function UnrealizedPnl(p: Position): (u: real)
    ensures p.lastPrice == p.costPrice ==> u == 0.0
    ensures p.qty == 0 ==> u == 0.0
  {
    (p.lastPrice - p.costPrice) * p.multiplier * p.qty as real * Sign(p.key.direction)
  }

  /** The signed quantity change a trade asks for. */
  function Signed(t: Trade): int {
    if t.offset == OPN then t.qty else -t.qty
  }

  /** `cal_trade_from_target(target, exe_price)`: the trade on this
      position's key that moves its quantity to the target's. */
  function CalTradeFromTarget(p: Position, target: Position, exePrice: real): (t: Trade)
    ensures t.key == p.key && t.multiplier == p.multiplier && t.exePrice == exePrice
    ensures t.qty >= 0
    ensures p.qty + Signed(t) == target.qty
    ensures t.offset == OPN <==> p.qty <= target.qty
  {
    Trade(p.key, if p.qty <= target.qty then OPN else CLS,
          if target.qty >= p.qty then target.qty - p.qty else p.qty - target.qty,
          p.multiplier, exePrice)
  }

  /** `convert_as_trade(exe_price, operation)`: trade the whole position. */
  function ConvertAsTrade(p: Position, exePrice: real, op: Offset): (t: Trade)
    ensures t.key == p.key && t.qty == p.qty && t.offset == op
    ensures t.multiplier == p.multiplier && t.exePrice == exePrice
  {
    Trade(p.key, op, p.qty, p.multiplier, exePrice)
  }

  /** The outcome of applying one trade to a position. */
  datatype Fill = Fill(pos: Position, realized: real, cost: real)

  /** `CPosition.update_from_trade(trade, cost_rate)`. Opening averages the
      cost price by quantity (ZeroDivisionError when the sum of quantities
      is 0); closing more than is held raises ValueError. */
  function UpdateFromTrade(p: Position, t: Trade, rate: real): (r: Result<Fill>)
    ensures r.Ok? <==> if t.offset == OPN then p.qty + t.qty != 0 else t.qty <= p.qty
    ensures r.Err? ==> r.error == (if t.offset == OPN then ZeroDivisionError else ValueError)
    ensures r.Ok? ==> r.value.pos.qty == p.qty + Signed(t) && r.value.cost == Cost(t, rate)
    ensures r.Ok? ==> r.value.pos.key == p.key && r.value.pos.multiplier == p.multiplier
    ensures r.Ok? ==> r.value.pos.lastPrice == p.lastPrice
    ensures r.Ok? && t.offset == OPN ==> (r.value.realized == 0.0 &&
      r.value.pos.costPrice * r.value.pos.qty as real == p.costPrice * p.qty as real + t.exePrice * t.qty as real)
    ensures r.Ok? && t.offset == CLS ==> (r.value.pos.qty >= 0 && r.value.pos.costPrice == p.costPrice &&
      r.value.realized == (t.exePrice - p.costPrice) * p.multiplier * t.qty as real * Sign(p.key.direction))
  {
    var cost := Cost(t, rate);
    if t.offset == OPN then
      var sumQty := p.qty + t.qty;
      if sumQty == 0 then Err(ZeroDivisionError)
      else
        var sumAmt := p.costPrice * p.qty as real + t.exePrice * t.qty as real;
        Ok(Fill(p.(qty := sumQty, costPrice := sumAmt / sumQty as real), 0.0, cost))
    else
      if t.qty > p.qty then Err(ValueError)
      else
        var realized := (t.exePrice - p.costPrice) * p.multiplier * t.qty as real * Sign(p.key.direction);
        Ok(Fill(p.(qty := p.qty - t.qty), realized, cost))
  }

  /** An opening trade onto a fresh position makes the trade price the cost
      price; two openings at one price keep that price. */
  lemma OpenAtOnePrice(p: Position, t: Trade, rate: real)
    requires t.offset == OPN && p.qty + t.qty != 0 && (p.qty == 0 || p.costPrice == t.exePrice)
    ensures UpdateFromTrade(p, t, rate).Ok? && UpdateFromTrade(p, t, rate).value.pos.costPrice == t.exePrice
  {
    var q := (p.qty + t.qty) as real;
    if p.qty == 0 {
      assert p.costPrice * p.qty as real == 0.0;
    } else {
      assert p.costPrice * p.qty as real == t.exePrice * p.qty as real;
    }
    assert p.costPrice * p.qty as real + t.exePrice * t.qty as real == t.exePrice * q;
    RealDivCancel(t.exePrice, q);
  }

  lemma RealDivCancel(x: real, q: real)
    requires q != 0.0
    ensures x * q / q == x
  {
  }

  /** A full close leaves an empty position and realizes the whole
      unrealized profit at the trade price. */
  lemma CloseAllRealizes(p: Position, exePrice: real, rate: real)
    ensures var r := UpdateFromTrade(p, ConvertAsTrade(p, exePrice, CLS), rate);
      r.Ok? && r.value.pos.qty == 0 &&
      r.value.realized == UnrealizedPnl(p.(lastPrice := exePrice))
  {
  }

  /** `update_from_market(last_price)`. */
  function UpdateFromMarket(p: Position, lastPrice: real): (q: Position)
    ensures q.key == p.key && q.qty == p.qty && q.costPrice == p.costPrice && q.lastPrice == lastPrice
    ensures q.multiplier == p.multiplier
  {
    p.(lastPrice := lastPrice)
  }

  /* --------------------------------------------------------------- books */

  type Book = Dict<PosKey, Position>

  /** Each position is filed under its own key. */
  predicate KeyedBy(b: Book) {
    forall e :: e in b ==> e.1.key == e.0
  }

  /** The quantity held under a key, 0 when there is no position. */
  function QtyOf(b: Book, k: PosKey): (q: int)
    ensures Has(b, k) ==> q == Get(b, k).value.qty
    ensures !Has(b, k) ==> q == 0
  {
    match Get(b, k)
    case Some(p) => p.qty
    case None => 0
  }

  predicate NonNegative(b: Book) {
    forall e :: e in b ==> e.1.qty >= 0
  }

  /** The net quantity change the trades ask of key k. */
  function Shift(trades: seq<Trade>, k: PosKey): int
    decreases |trades|
  {
    if |trades| == 0 then 0
    else (if trades[0].key == k then Signed(trades[0]) else 0) + Shift(trades[1..], k)
  }

  lemma {:induction false} ShiftConcat(a: seq<Trade>, b: seq<Trade>, k: PosKey)
    ensures Shift(a + b, k) == Shift(a, k) + Shift(b, k)
    decreases |a|
  {
    if |a| > 0 {
      assert (a + b)[1..] == a[1..] + b;
      ShiftConcat(a[1..], b, k);
    } else {
      assert a + b == b;
    }
  }

  lemma {:induction false} ShiftAbsent(trades: seq<Trade>, k: PosKey)
    requires forall i :: 0 <= i < |trades| ==> trades[i].key != k
    ensures Shift(trades, k) == 0
    decreases |trades|
  {
    if |trades| > 0 {
      ShiftAbsent(trades[1..], k);
    }
  }

  /** No two trades share a key. */
  predicate DistinctKeys(trades: seq<Trade>) {
    forall i, j :: 0 <= i < j < |trades| ==> trades[i].key != trades[j].key
  }

  /** The trade `cal_trades` computes for the target position `tgt` filed
      under k: open it in full when the book has nothing under k, else the
      difference to the book's position. */
  function TradeFor(k: PosKey, tgt: Position, book: Book, exePrice: string -> real): (t: Trade)
    ensures !Has(book, k) ==> t == ConvertAsTrade(tgt, exePrice(k.contract), OPN)
    ensures Has(book, k) ==> t == CalTradeFromTarget(Get(book, k).value, tgt, exePrice(k.contract))
  {
    match Get(book, k)
    case None => ConvertAsTrade(tgt, exePrice(k.contract), OPN)
    case Some(act) => CalTradeFromTarget(act, tgt, exePrice(k.contract))
  }

  /** On consistent books with non-negative quantities, the trade for k is
      filed under k, can be applied, and asks for the difference between
      target and book. */
  lemma TradeForShift(k: PosKey, tgt: Position, book: Book, exePrice: string -> real)
    requires tgt.key == k && tgt.qty >= 0 && KeyedBy(book) && NonNegative(book)
    ensures var t := TradeFor(k, tgt, book, exePrice);
      t.key == k && t.qty >= 0 && Signed(t) == tgt.qty - QtyOf(book, k) &&
      (t.qty > 0 ==> Applicable(Has(book, k), QtyOf(book, k), t))
  {
    if Has(book, k) {
      var act := Get(book, k).value;
      assert (k, act) in book;
    }
  }

  /** The part of `cal_trades` that walks the target positions. */
  function TargetTrades(target: Book, book: Book, exePrice: string -> real): (ts: seq<Trade>)
    ensures forall i :: 0 <= i < |ts| ==> ts[i].qty > 0
    decreases |target|
  {
    if |target| == 0 then []
    else
      var t := TradeFor(target[0].0, target[0].1, book, exePrice);
      (if t.qty > 0 then [t] else []) + TargetTrades(target[1..], book, exePrice)
  }

  /** The part of `cal_trades` that closes book positions with no target. */
  function CloseTrades(book: Book, target: Book, exePrice: string -> real): (ts: seq<Trade>)
    ensures forall i :: 0 <= i < |ts| ==> ts[i].qty > 0 && ts[i].offset == CLS
    decreases |book|
  {
    if |book| == 0 then []
    else
      var (k, act) := book[0];
      var rest := CloseTrades(book[1..], target, exePrice);
      if !Has(target, k) then
        var t := ConvertAsTrade(act, exePrice(k.contract), CLS);
        (if t.qty > 0 then [t] else []) + rest
      else rest
  }

  /** `cal_trades(target_pos, trade_date)`: first the trades toward each
      target position, then full closes of the positions without a target;
      zero-quantity trades are dropped. `exePrice(contract)` is the day's
      execution price. */
  function CalTrades(target: Book, book: Book, exePrice: string -> real): (ts: seq<Trade>)
    ensures forall i :: 0 <= i < |ts| ==> ts[i].qty > 0
  {
    TargetTrades(target, book, exePrice) + CloseTrades(book, target, exePrice)
  }

  lemma HasCons<V>(d: Dict<PosKey, V>, k: PosKey)
    requires |d| > 0
    ensures Has(d, k) <==> d[0].0 == k || Has(d[1..], k)
  {
    assert Keys(d) == [d[0].0] + Keys(d[1..]);
  }

  lemma ValidTail<V>(d: Dict<PosKey, V>)
    requires Valid(d) && |d| > 0
    ensures Valid(d[1..]) && !Has(d[1..], d[0].0)
  {
    assert Keys(d) == [d[0].0] + Keys(d[1..]);
    assert forall a :: 0 <= a < |d| - 1 ==> Keys(d[1..])[a] == Keys(d)[a + 1];
  }

  lemma KeyedOf(b: Book, k: PosKey)
    requires KeyedBy(b) && Has(b, k)
    ensures Get(b, k).value.key == k
  {
  }

  /** Whether a trade can be applied to a key holding quantity q (`has`
      tells whether the book has a position there at all). */
  predicate Applicable(has: bool, q: int, t: Trade) {
    (t.offset == CLS ==> has && t.qty <= q) && (t.offset == OPN ==> q + t.qty != 0)
  }

  /** The target trades touch each key once, only keys with a target, and
      can all be applied to the book. */
  lemma {:induction false} TargetTradesKeys(target: Book, book: Book, exePrice: string -> real)
    requires Valid(target) && KeyedBy(target) && KeyedBy(book) && NonNegative(target) && NonNegative(book)
    ensures var ts := TargetTrades(target, book, exePrice);
      DistinctKeys(ts) &&
      forall i :: 0 <= i < |ts| ==> (Has(target, ts[i].key) &&
        Applicable(Has(book, ts[i].key), QtyOf(book, ts[i].key), ts[i]))
    decreases |target|
  {
    if |target| > 0 {
      var k := target[0].0;
      TargetTail(target);
      TargetTradesKeys(target[1..], book, exePrice);
      TradeForShift(k, target[0].1, book, exePrice);
      var t := TradeFor(k, target[0].1, book, exePrice);
      var rest := TargetTrades(target[1..], book, exePrice);
      var head := if t.qty > 0 then [t] else [];
      var ts := head + rest;
      assert TargetTrades(target, book, exePrice) == ts;
      forall i | 0 <= i < |rest| ensures rest[i].key != k && Has(target, rest[i].key) {
        HasCons(target, rest[i].key);
      }
      assert Has(target, k) by { HasCons(target, k); }
      PrependKeys(head, rest, k,
        (t: Trade) => Has(target, t.key) && Applicable(Has(book, t.key), QtyOf(book, t.key), t));
    }
  }

  /** At most one trade on key k followed by trades on distinct other keys
      has distinct keys, and a property of every trade survives. */
  lemma PrependKeys(head: seq<Trade>, rest: seq<Trade>, k: PosKey, ok: Trade -> bool)
    requires |head| <= 1 && forall i :: 0 <= i < |head| ==> head[i].key == k && ok(head[i])
    requires DistinctKeys(rest) && forall i :: 0 <= i < |rest| ==> rest[i].key != k && ok(rest[i])
    ensures DistinctKeys(head + rest)
    ensures forall i :: 0 <= i < |head + rest| ==> ok((head + rest)[i])
  {
    var ts := head + rest;
    forall i | 0 <= i < |ts| ensures ok(ts[i]) && (i >= |head| ==> ts[i] == rest[i - |head|]) {
      if i >= |head| {
        assert ts[i] == rest[i - |head|];
      }
    }
    forall i, j | 0 <= i < j < |ts| ensures ts[i].key != ts[j].key {
      assert ts[j] == rest[j - |head|];
    }
  }

  /** The first entry of a consistent book of targets, and its tail. */
  lemma TargetTail(target: Book)
    requires |target| > 0 && Valid(target) && KeyedBy(target) && NonNegative(target)
    ensures Valid(target[1..]) && !Has(target[1..], target[0].0)
    ensures KeyedBy(target[1..]) && NonNegative(target[1..])
    ensures target[0].1.key == target[0].0 && target[0].1.qty >= 0
  {
    ValidTail(target);
    assert forall e :: e in target[1..] ==> e in target;
    assert target[0] in target;
  }

  /** The target trades ask of each key the difference between its target
      and the book's quantity, and nothing of keys without a target. */
  lemma {:induction false} TargetTradesShift(target: Book, book: Book, exePrice: string -> real, k: PosKey)
    requires Valid(target) && KeyedBy(target) && KeyedBy(book) && NonNegative(target) && NonNegative(book)
    ensures Shift(TargetTrades(target, book, exePrice), k) ==
      if Has(target, k) then QtyOf(target, k) - QtyOf(book, k) else 0
    decreases |target|
  {
    if |target| > 0 {
      var k0 := target[0].0;
      TargetTail(target);
      TargetTradesShift(target[1..], book, exePrice, k);
      TradeForShift(k0, target[0].1, book, exePrice);
      var t := TradeFor(k0, target[0].1, book, exePrice);
      var rest := TargetTrades(target[1..], book, exePrice);
      var head := if t.qty > 0 then [t] else [];
      assert TargetTrades(target, book, exePrice) == head + rest;
      ShiftConcat(head, rest, k);
      HasCons(target, k);
      assert Shift(head, k) == if k == k0 then Signed(t) else 0 by {
        if t.qty > 0 {
          assert head[1..] == [];
        }
      }
      if k == k0 {
        assert QtyOf(target, k) == target[0].1.qty;
      } else {
        assert QtyOf(target, k) == QtyOf(target[1..], k);
      }
    }
  }

  /** The close trades touch each key once, only keys the book holds and
      the target lacks, and can all be applied to the book. */
  lemma {:induction false} CloseTradesKeys(book: Book, target: Book, exePrice: string -> real)
    requires Valid(book) && KeyedBy(book) && NonNegative(book)
    ensures var ts := CloseTrades(book, target, exePrice);
      DistinctKeys(ts) &&
      forall i :: 0 <= i < |ts| ==> (Has(book, ts[i].key) && !Has(target, ts[i].key) &&
        Applicable(Has(book, ts[i].key), QtyOf(book, ts[i].key), ts[i]))
    decreases |book|
  {
    if |book| > 0 {
      TargetTail(book);
      CloseTradesKeys(book[1..], target, exePrice);
      CloseTradesKeysStep(book, target, exePrice);
    }
  }

  /** The inductive step of CloseTradesKeys. */
  lemma CloseTradesKeysStep(book: Book, target: Book, exePrice: string -> real)
    requires |book| > 0 && !Has(book[1..], book[0].0) && book[0].1.qty >= 0
    requires var rest := CloseTrades(book[1..], target, exePrice);
      DistinctKeys(rest) &&
      forall i :: 0 <= i < |rest| ==> (Has(book[1..], rest[i].key) && !Has(target, rest[i].key) &&
        Applicable(Has(book[1..], rest[i].key), QtyOf(book[1..], rest[i].key), rest[i]))
    requires book[0].1.key == book[0].0
    ensures var ts := CloseTrades(book, target, exePrice);
      DistinctKeys(ts) &&
      forall i :: 0 <= i < |ts| ==> (Has(book, ts[i].key) && !Has(target, ts[i].key) &&
        Applicable(Has(book, ts[i].key), QtyOf(book, ts[i].key), ts[i]))
  {
    var k := book[0].0;
    var act := book[0].1;
    var rest := CloseTrades(book[1..], target, exePrice);
    forall i | 0 <= i < |rest| ensures rest[i].key != k && Has(book, rest[i].key) &&
        QtyOf(book, rest[i].key) == QtyOf(book[1..], rest[i].key) {
      HasCons(book, rest[i].key);
    }
    assert QtyOf(book, k) == act.qty;
    assert Has(book, k) by { HasCons(book, k); }
    if !Has(target, k) {
      var t := ConvertAsTrade(act, exePrice(k.contract), CLS);
      var head := if t.qty > 0 then [t] else [];
      assert CloseTrades(book, target, exePrice) == head + rest;
      PrependKeys(head, rest, k, (t: Trade) => Has(book, t.key) && !Has(target, t.key) &&
        Applicable(Has(book, t.key), QtyOf(book, t.key), t));
    } else {
      assert CloseTrades(book, target, exePrice) == rest;
    }
  }

  /** The close trades empty every key the book holds and the target lacks,
      and ask nothing of the other keys. */
  lemma {:induction false} CloseTradesShift(book: Book, target: Book, exePrice: string -> real, k: PosKey)
    requires Valid(book) && KeyedBy(book) && NonNegative(book)
    ensures Shift(CloseTrades(book, target, exePrice), k) ==
      if Has(book, k) && !Has(target, k) then -QtyOf(book, k) else 0
    decreases |book|
  {
    if |book| > 0 {
      var (k0, act) := book[0];
      TargetTail(book);
      CloseTradesShift(book[1..], target, exePrice, k);
      var rest := CloseTrades(book[1..], target, exePrice);
      HasCons(book, k);
      if k == k0 {
        assert QtyOf(book, k) == act.qty;
      } else {
        assert QtyOf(book, k) == QtyOf(book[1..], k);
      }
      if !Has(target, k0) {
        var t := ConvertAsTrade(act, exePrice(k0.contract), CLS);
        var head := if t.qty > 0 then [t] else [];
        assert CloseTrades(book, target, exePrice) == head + rest;
        ShiftConcat(head, rest, k);
        assert Shift(head, k) == if k == k0 then Signed(t) else 0 by {
          if t.qty > 0 {
            assert head[1..] == [];
          }
        }
      } else {
        assert CloseTrades(book, target, exePrice) == rest;
      }
    }
  }

  /* ------------------------------------------------------ applying trades */

  /** A book after some trades, with the realized profit and the fees. */
  datatype Applied = Applied(book: Book, realized: real, cost: real)

  /** One step of `update_from_trades`: a closing trade on a key the book
      does not hold raises ValueError; an opening one first files an empty
      position with the trade's multiplier; then the position takes the
      trade. */
  function ApplyTrade(book: Book, t: Trade, rate: real): (r: Result<Applied>)
    ensures r.Ok? <==> Applicable(Has(book, t.key), QtyOf(book, t.key), t)
    ensures r.Err? ==> r.error == (if t.offset == CLS then ValueError else ZeroDivisionError)
    ensures r.Ok? ==> QtyOf(r.value.book, t.key) == QtyOf(book, t.key) + Signed(t)
    ensures r.Ok? ==> forall j :: j != t.key ==> Get(r.value.book, j) == Get(book, j)
    ensures r.Ok? ==> r.value.cost == Cost(t, rate)
    ensures r.Ok? && Valid(book) ==> Valid(r.value.book)
    ensures r.Ok? && KeyedBy(book) ==> KeyedBy(r.value.book)
    ensures r.Ok? && NonNegative(book) && t.qty >= 0 ==> NonNegative(r.value.book)
  {
    if !Has(book, t.key) && t.offset == CLS then Err(ValueError)
    else
      var p := if Has(book, t.key) then Get(book, t.key).value else Position(t.key, 0, t.multiplier, 0.0, 0.0);
      var f :- UpdateFromTrade(p, t, rate);
      ApplyFill(book, t, rate, p, f);
      Ok(Applied(Put(book, t.key, f.pos), f.realized, f.cost))
  }

  /** The book after a trade's fill is filed under the trade's key. */
  lemma ApplyFill(book: Book, t: Trade, rate: real, p: Position, f: Fill)
    requires p == if Has(book, t.key) then Get(book, t.key).value else Position(t.key, 0, t.multiplier, 0.0, 0.0)
    requires UpdateFromTrade(p, t, rate) == Ok(f)
    ensures QtyOf(Put(book, t.key, f.pos), t.key) == QtyOf(book, t.key) + Signed(t)
    ensures forall j :: j != t.key ==> Get(Put(book, t.key, f.pos), j) == Get(book, j)
    ensures Valid(book) ==> Valid(Put(book, t.key, f.pos))
    ensures KeyedBy(book) ==> KeyedBy(Put(book, t.key, f.pos))
    ensures NonNegative(book) && t.qty >= 0 ==> NonNegative(Put(book, t.key, f.pos))
  {
    PutPosition(book, t.key, f.pos);
  }

  /** Filing a position keeps the book's invariants. */
  lemma PutPosition(book: Book, k: PosKey, pos: Position)
    ensures Valid(book) ==> Valid(Put(book, k, pos))
    ensures KeyedBy(book) && pos.key == k ==> KeyedBy(Put(book, k, pos))
    ensures NonNegative(book) && pos.qty >= 0 ==> NonNegative(Put(book, k, pos))
  {
    PutEntries(book, k, pos);
    PutValid(book, k, pos);
  }

  /** The fees of a list of trades. */
  function TotalCost(trades: seq<Trade>, rate: real): real
    decreases |trades|
  {
    if |trades| == 0 then 0.0 else Cost(trades[0], rate) + TotalCost(trades[1..], rate)
  }

  /** `update_from_trades(trades)`: the trades applied in order, summing
      realized profit and fees; the first failing trade aborts. */
  function UpdateFromTrades(book: Book, trades: seq<Trade>, rate: real): (r: Result<Applied>)
    ensures r.Ok? ==> r.value.cost == TotalCost(trades, rate)
    ensures r.Ok? && Valid(book) ==> Valid(r.value.book)
    ensures r.Ok? && KeyedBy(book) ==> KeyedBy(r.value.book)
    ensures r.Ok? && NonNegative(book) && (forall i :: 0 <= i < |trades| ==> trades[i].qty >= 0) ==>
      NonNegative(r.value.book)
    decreases |trades|
  {
    if |trades| == 0 then Ok(Applied(book, 0.0, 0.0))
    else
      var a :- ApplyTrade(book, trades[0], rate);
      var rest :- UpdateFromTrades(a.book, trades[1..], rate);
      Ok(Applied(rest.book, a.realized + rest.realized, a.cost + rest.cost))
  }

  /** Trades on distinct keys, each applicable to the book, all succeed and
      move every key by exactly the shift they ask for. */
  lemma {:induction false} UpdateFromTradesShift(book: Book, trades: seq<Trade>, rate: real)
    requires DistinctKeys(trades)
    requires forall i :: 0 <= i < |trades| ==>
      Applicable(Has(book, trades[i].key), QtyOf(book, trades[i].key), trades[i])
    ensures UpdateFromTrades(book, trades, rate).Ok?
    ensures forall k :: QtyOf(UpdateFromTrades(book, trades, rate).value.book, k) == QtyOf(book, k) + Shift(trades, k)
    decreases |trades|
  {
    if |trades| > 0 {
      var t := trades[0];
      var a := ApplyTrade(book, t, rate).value;
      var rest := trades[1..];
      forall i | 0 <= i < |rest|
        ensures Applicable(Has(a.book, rest[i].key), QtyOf(a.book, rest[i].key), rest[i])
      {
        assert rest[i] == trades[i + 1];
        assert Get(a.book, rest[i].key) == Get(book, rest[i].key);
      }
      UpdateFromTradesShift(a.book, rest, rate);
      forall k ensures QtyOf(UpdateFromTrades(book, trades, rate).value.book, k) == QtyOf(book, k) + Shift(trades, k) {
        if k != t.key {
          assert Get(a.book, k) == Get(book, k);
        }
      }
    }
  }

  /** The trades of `cal_trades`, applied to the book they were computed
      from, succeed and leave every key holding its target quantity. */
  lemma CalTradesReachTarget(target: Book, book: Book, exePrice: string -> real, rate: real)
    requires Valid(target) && KeyedBy(target) && NonNegative(target)
    requires Valid(book) && KeyedBy(book) && NonNegative(book)
    ensures var r := UpdateFromTrades(book, CalTrades(target, book, exePrice), rate);
      r.Ok? && forall k :: QtyOf(r.value.book, k) == QtyOf(target, k)
  {
    var ta := TargetTrades(target, book, exePrice);
    var cl := CloseTrades(book, target, exePrice);
    TargetTradesKeys(target, book, exePrice);
    CloseTradesKeys(book, target, exePrice);
    var ts := ta + cl;
    forall i, j | 0 <= i < j < |ts| ensures ts[i].key != ts[j].key {
      if i < |ta| && j >= |ta| {
        assert Has(target, ts[i].key) && !Has(target, ts[j].key);
      }
    }
    forall k ensures QtyOf(book, k) + Shift(ts, k) == QtyOf(target, k) {
      ShiftConcat(ta, cl, k);
      TargetTradesShift(target, book, exePrice, k);
      CloseTradesShift(book, target, exePrice, k);
    }
    UpdateFromTradesShift(book, ts, rate);
  }

  /* ------------------------------------------------------ marking to market */

  /** The book after the day's close, with its unrealized profit. */
  datatype Marked = Marked(book: Book, unrealized: real)

  /** The unrealized profit of a book, position by position. */
  function Unrealized(b: Book): real
    decreases |b|
  {
    if |b| == 0 then 0.0 else UnrealizedPnl(b[0].1) + Unrealized(b[1..])
  }

  /** `update_from_market(trade_date)`: positions holding a positive
      quantity take the day's close price `close(contract)`; the others are
      removed. The result is the unrealized profit of what remains. */
  function UpdateBookFromMarket(book: Book, close: string -> real): (r: Marked)
    ensures r.unrealized == Unrealized(r.book)
    ensures forall e :: e in r.book ==> e.1.qty > 0 && e.1.lastPrice == close(e.1.key.contract)
    ensures KeyedBy(book) ==> KeyedBy(r.book)
    decreases |book|
  {
    if |book| == 0 then Marked([], 0.0)
    else
      var rest := UpdateBookFromMarket(book[1..], close);
      assert forall e :: e in book[1..] ==> e in book;
      var (k, p) := book[0];
      if p.qty > 0 then
        var q := UpdateFromMarket(p, close(p.key.contract));
        var b := [(k, q)] + rest.book;
        assert b[1..] == rest.book;
        assert book[0] in book;
        Marked(b, UnrealizedPnl(q) + rest.unrealized)
      else rest
  }

  /** Marking to market keeps a key exactly when it holds a positive
      quantity, and keeps that quantity. */
  lemma {:induction false} MarketKeepsPositive(book: Book, close: string -> real, k: PosKey)
    requires Valid(book)
    ensures var b := UpdateBookFromMarket(book, close).book;
      (Has(b, k) <==> QtyOf(book, k) > 0) && QtyOf(b, k) == if QtyOf(book, k) > 0 then QtyOf(book, k) else 0
    decreases |book|
  {
    if |book| > 0 {
      ValidTail(book);
      MarketKeepsPositive(book[1..], close, k);
      var rest := UpdateBookFromMarket(book[1..], close).book;
      var b := UpdateBookFromMarket(book, close).book;
      var (k0, p) := book[0];
      if k == k0 {
        assert QtyOf(book, k) == p.qty;
      } else {
        assert QtyOf(book, k) == QtyOf(book[1..], k);
      }
      if p.qty > 0 {
        assert b == [(k0, UpdateFromMarket(p, close(p.key.contract)))] + rest;
        assert b[1..] == rest;
        HasCons(b, k);
      } else {
        assert b == rest;
      }
    }
  }

  /** Marking to market keeps the book's keys distinct. */
  lemma {:induction false} MarketValid(book: Book, close: string -> real)
    requires Valid(book)
    ensures Valid(UpdateBookFromMarket(book, close).book)
    decreases |book|
  {
    if |book| > 0 {
      ValidTail(book);
      MarketValid(book[1..], close);
      var rest := UpdateBookFromMarket(book[1..], close).book;
      var b := UpdateBookFromMarket(book, close).book;
      var (k0, p) := book[0];
      if p.qty > 0 {
        MarketKeepsPositive(book[1..], close, k0);
        assert b == [(k0, UpdateFromMarket(p, close(p.key.contract)))] + rest;
        assert Keys(b) == [k0] + Keys(rest);
      } else {
        assert b == rest;
      }
    }
  }

  /** After a day's trades and the close, the book holds exactly the
      positions with a positive target quantity, at that quantity. */
  lemma DayReachesTarget(target: Book, book: Book, exePrice: string -> real, close: string -> real, rate: real)
    requires Valid(target) && KeyedBy(target) && NonNegative(target)
    requires Valid(book) && KeyedBy(book) && NonNegative(book)
    ensures var r := UpdateFromTrades(book, CalTrades(target, book, exePrice), rate);
      r.Ok? &&
      var b := UpdateBookFromMarket(r.value.book, close).book;
      forall k :: (Has(b, k) <==> QtyOf(target, k) > 0) && QtyOf(b, k) == QtyOf(target, k)
  {
    CalTradesReachTarget(target, book, exePrice, rate);
    var traded := UpdateFromTrades(book, CalTrades(target, book, exePrice), rate).value.book;
    var b := UpdateBookFromMarket(traded, close).book;
    forall k ensures (Has(b, k) <==> QtyOf(target, k) > 0) && QtyOf(b, k) == QtyOf(target, k) {
      MarketKeepsPositive(traded, close, k);
      QtyNonNegative(target, k);
    }
  }

  lemma QtyNonNegative(b: Book, k: PosKey)
    requires NonNegative(b)
    ensures QtyOf(b, k) >= 0
  {
    if Has(b, k) {
      assert (k, Get(b, k).value) in b;
    }
  }
}
