/**
 * The live PnL viewer of src/husfort/qviewer_pnl.py: contracts and their
 * Tianqin quote id, the valuation of a position at its base and its last
 * price, the ordering used to sort positions, the NaN handling of price
 * updates, the sign colouring and the footer totals. A NaN price is None.
 */
module ViewerPnl {

  import opened Wrappers
  import opened PyStr

  /* ------------------------------------------------------------ contract */

  datatype Contract = Contract(contractId: string, instrumentId: string, exchangeId: string, multiplier: int)

  /** `tianqin_id`: the exchange and the contract joined by ".". */
  function TianqinId(c: Contract): (id: string)
    ensures |id| == |c.exchangeId| + 1 + |c.contractId|
    ensures StartsWith(id, c.exchangeId) && EndsWith(id, c.contractId)
    ensures id[|c.exchangeId|] == '.'
  {
    c.exchangeId + "." + c.contractId
  }

  /** Splitting the id at "." gives back exchange and contract. */
  lemma TianqinIdSplit(c: Contract)
    requires '.' !in c.exchangeId && '.' !in c.contractId
    ensures Split(TianqinId(c), '.') == [c.exchangeId, c.contractId]
  {
    SplitAbsent(c.exchangeId, '.');
    SplitLast(c.exchangeId, '.', c.contractId);
  }

  /** `CContract.__gt__`: compares contract ids as strings. `a < b` has no
      method of its own and falls back to `b > a`. */
  function ContractGt(a: Contract, b: Contract): (r: bool)
    ensures r ==> a.contractId != b.contractId && !Less(a.contractId, b.contractId)
    ensures !r ==> LessEq(a.contractId, b.contractId)
  {
    NotLessIsLessEq(a.contractId, b.contractId);
    NotLessIsLessEq(b.contractId, a.contractId);
    Less(b.contractId, a.contractId)
  }

  /* ------------------------------------------------------------ position */

  /** A position; `last` is NaN (None) until a price arrives. */
  datatype Position = Position(contract: Contract, direction: int, qty: int, base: real, last: Option<real>)

  /** `price * qty * multiplier * direction`. */
  function Value(p: Position, price: real): real {
    price * (p.qty as real) * (p.contract.multiplier as real) * (p.direction as real)
  }

  /** The signed exposure per unit of price. */
  function Exposure(p: Position): real {
    (p.qty as real) * (p.contract.multiplier as real) * (p.direction as real)
  }

  function BaseVal(p: Position): (v: real)
    ensures v == p.base * Exposure(p)
  {
    Value(p, p.base)
  }

  /** `last_val`: NaN while the last price is NaN. */
  function LastVal(p: Position): (v: Option<real>)
    ensures v.Some? <==> p.last.Some?
    ensures v.Some? ==> v.value == p.last.value * Exposure(p)
  {
    if p.last.Some? then Some(Value(p, p.last.value)) else None
  }

  /** `float_pnl = last_val - base_val`. */
  function FloatPnl(p: Position): (f: Option<real>)
    ensures f.Some? <==> p.last.Some?
    ensures f.Some? ==> f.value == (p.last.value - p.base) * Exposure(p)
  {
    var lv := LastVal(p);
    if lv.Some? then Some(lv.value - BaseVal(p)) else None
  }

  /** The tie-break of `__gt__`: the larger contract id, then the larger
      direction. */
  predicate TieBreak(p: Position, q: Position) {
    Less(q.contract.contractId, p.contract.contractId) ||
    (p.contract.contractId == q.contract.contractId && p.direction > q.direction)
  }

  /** `CPosition.__eq__`: equal floating PnL (NaN equals nothing). Equal
      positions are still ordered by `__gt__`, by contract id and then by
      direction. */
  function Eq(p: Position, q: Position): (r: bool)
    ensures p.last.None? || q.last.None? ==> !r
    ensures r ==> (p.last.value - p.base) * Exposure(p) == (q.last.value - q.base) * Exposure(q)
    ensures r ==> (Gt(p, q) <==> TieBreak(p, q))
  {
    FloatPnl(p).Some? && FloatPnl(q).Some? && FloatPnl(p).value == FloatPnl(q).value
  }

  /** `CPosition.__gt__`: floating PnL first; when neither is larger (equal
      or NaN) the contracts decide, and then the direction. No position is
      greater than itself, NaN or not. */
  function Gt(p: Position, q: Position): (r: bool)
    ensures p == q ==> !r
    ensures p.last.None? || q.last.None? ==> (r <==> TieBreak(p, q))
  {
    var a := FloatPnl(p);
    var b := FloatPnl(q);
    if a.Some? && b.Some? && a.value > b.value then true
    else if a.Some? && b.Some? && a.value < b.value then false
    else if ContractGt(p.contract, q.contract) then true
    else if ContractGt(q.contract, p.contract) then false
    else p.direction > q.direction
  }

  /** The lexicographic order on (float_pnl, contractId, direction). */
  predicate LexGt(p: Position, q: Position)
    requires p.last.Some? && q.last.Some?
  {
    var a := FloatPnl(p).value;
    var b := FloatPnl(q).value;
    a > b || (a == b && (Less(q.contract.contractId, p.contract.contractId) ||
                         (p.contract.contractId == q.contract.contractId && p.direction > q.direction)))
  }

  /** With both prices known, `__gt__` is exactly the lexicographic order. */
  lemma GtIsLexicographic(p: Position, q: Position)
    requires p.last.Some? && q.last.Some?
    ensures Gt(p, q) <==> LexGt(p, q)
  {
    LessTotal(p.contract.contractId, q.contract.contractId);
    if p.contract.contractId == q.contract.contractId {
      LessIrreflexive(p.contract.contractId);
    }
  }

  /** Hence it is a strict order: irreflexive, asymmetric and transitive. */
  lemma GtStrictOrder(p: Position, q: Position, r: Position)
    requires p.last.Some? && q.last.Some? && r.last.Some?
    ensures !Gt(p, p)
    ensures Gt(p, q) ==> !Gt(q, p)
    ensures Gt(p, q) && Gt(q, r) ==> Gt(p, r)
  {
    LessIrreflexive(p.contract.contractId);
    GtIsLexicographic(p, q);
    GtIsLexicographic(q, p);
    GtIsLexicographic(q, r);
    GtIsLexicographic(p, r);
    if Less(p.contract.contractId, q.contract.contractId) {
      LessAsymmetric(p.contract.contractId, q.contract.contractId);
    }
    if Gt(p, q) && Gt(q, r) {
      var ip, iq, ir := p.contract.contractId, q.contract.contractId, r.contract.contractId;
      if Less(iq, ip) && Less(ir, iq) {
        LessTransitive(ir, iq, ip);
      }
    }
  }

  /** Any two positions with known prices and different
      (float_pnl, contractId, direction) keys are ordered one way. */
  lemma GtTotal(p: Position, q: Position)
    requires p.last.Some? && q.last.Some?
    requires FloatPnl(p) != FloatPnl(q) || p.contract.contractId != q.contract.contractId
             || p.direction != q.direction
    ensures Gt(p, q) || Gt(q, p)
  {
    GtIsLexicographic(p, q);
    GtIsLexicographic(q, p);
    LessTotal(p.contract.contractId, q.contract.contractId);
  }

  /** `__eq__` looks only at the floating PnL, so a position can be equal to
      another and greater than it at the same time. */
  lemma EqualAndGreater()
    ensures var p := Position(Contract("rb2501", "rb", "SHFE", 10), 1, 1, 100.0, Some(100.0));
            var q := Position(Contract("ag2501", "ag", "SHFE", 15), 1, 1, 100.0, Some(100.0));
            Eq(p, q) && Gt(p, q)
  {
    assert Less("ag2501", "rb2501");
  }

  /** A NaN floating PnL falls through to the contract comparison, which
      breaks transitivity: p > q and q > r but not p > r. */
  lemma GtNotTransitiveWithNaN()
    ensures var p := Position(Contract("b", "b", "DCE", 1), 1, 1, 0.0, None);
            var q := Position(Contract("a", "a", "DCE", 1), 1, 1, 0.0, Some(1.0));
            var r := Position(Contract("c", "c", "DCE", 1), 1, 1, 0.0, Some(0.0));
            Gt(p, q) && Gt(q, r) && !Gt(p, r)
  {
    assert Less("a", "b") && Less("b", "c");
    LessAsymmetric("b", "c");
  }

  /* ------------------------------------------------------------- prices */

  /** `set_last_price`: a NaN price leaves the last price unchanged. */
  function SetLastPrice(p: Position, price: Option<real>): (r: Position)
    ensures r.last == (if price.Some? then price else p.last)
    ensures r == p.(last := r.last)
  {
    if price.Some? then p.(last := price) else p
  }

  /** `update_from_quotes` assigns the quote's last price directly. */
  function QuotePrice(p: Position, quote: Option<real>): (r: Position)
    ensures r.last == quote
    ensures r == p.(last := r.last)
  {
    p.(last := quote)
  }

  /** Once known, a price set through `set_last_price` stays known; the
      direct assignment of `update_from_quotes` can make it NaN again. */
  lemma QuoteCanForgetPrice(p: Position)
    requires p.last.Some?
    ensures forall x :: SetLastPrice(p, x).last.Some?
    ensures SetLastPrice(p, None) == p
    ensures QuotePrice(p, None).last.None? && FloatPnl(QuotePrice(p, None)).None?
  {
  }

  /** The positions after `update_from_quotes`, before sorting: `zip` stops
      at the shorter of the two columns. */
  function UpdateFromQuotes(ps: seq<Position>, quotes: seq<Option<real>>): (r: seq<Position>)
    ensures |r| == |ps|
    ensures forall i :: 0 <= i < |ps| ==> r[i] == (if i < |quotes| then ps[i].(last := quotes[i]) else ps[i])
  {
    seq(|ps|, i requires 0 <= i < |ps| => if i < |quotes| then QuotePrice(ps[i], quotes[i]) else ps[i])
  }

  /** The order `sort_values(by="pos", ascending=False)` aims at: no
      position is greater than one before it. */
  predicate Descending(ps: seq<Position>) {
    forall i, j :: 0 <= i < j < |ps| ==> !Gt(ps[j], ps[i])
  }

  /* -------------------------------------------------------------- colours */

  /** The colour settings of `CCfgColor`; an unset background is None. */
  datatype Colors = Colors(
    otherFontPos: string, otherFontNeg: string, otherFontZero: string,
    otherBgPos: Option<string>, otherBgNeg: Option<string>, otherBgZero: Option<string>,
    pnlFontPos: string, pnlFontNeg: string, pnlFontZero: string,
    pnlBgPos: string, pnlBgNeg: string, pnlBgZero: string)

  /** The defaults of `CCfgColor`: red for gains, green for losses. */
  const DefaultColors := Colors(
    "#DA0B0B", "#008E00", "#A0A0A0",
    None, None, None,
    "#FFFFFF", "#FFFFFF", "#FFFFFF",
    "#8B0000", "#006400", "#606060")

  /** Font and background of the ordinary columns and of the PnL column. */
  datatype Style = Style(otherFont: string, otherBg: Option<string>, pnlFont: string, pnlBg: string)

  function PosStyle(c: Colors): Style { Style(c.otherFontPos, c.otherBgPos, c.pnlFontPos, c.pnlBgPos) }
  function NegStyle(c: Colors): Style { Style(c.otherFontNeg, c.otherBgNeg, c.pnlFontNeg, c.pnlBgNeg) }
  function ZeroStyle(c: Colors): Style { Style(c.otherFontZero, c.otherBgZero, c.pnlFontZero, c.pnlBgZero) }

  /** `set_color(x)`: the positive, negative or zero style by the sign of
      x; NaN compares false both ways and gets the zero style. */
  function SetColor(c: Colors, x: Option<real>): (s: Style)
    ensures x.Some? && x.value > 0.0 ==> s == PosStyle(c)
    ensures x.Some? && x.value < 0.0 ==> s == NegStyle(c)
    ensures x.None? || x.value == 0.0 ==> s == ZeroStyle(c)
  {
    if x.Some? && x.value > 0.0 then PosStyle(c)
    else if x.Some? && x.value < 0.0 then NegStyle(c)
    else ZeroStyle(c)
  }

  /** With the default colours the three styles differ in the PnL
      background, so the colour of a cell tells the sign of its number. */
  lemma DefaultColorsTellSign(x: Option<real>, y: Option<real>)
    requires SetColor(DefaultColors, x) == SetColor(DefaultColors, y)
    ensures (x.Some? && x.value > 0.0) <==> (y.Some? && y.value > 0.0)
    ensures (x.Some? && x.value < 0.0) <==> (y.Some? && y.value < 0.0)
  {
  }

  /* --------------------------------------------------------------- footer */

  /** The totals of the footer row, and the style of its PnL. */
  datatype Footer = Footer(qty: int, baseVal: real, lastVal: Option<real>, floatPnl: Option<real>, style: Style)

  /** Adding to NaN stays NaN. */
  function AddOpt(a: Option<real>, b: Option<real>): (r: Option<real>)
    ensures r.Some? <==> a.Some? && b.Some?
    ensures r.Some? ==> r.value == a.value + b.value
  {
    if a.Some? && b.Some? then Some(a.value + b.value) else None
  }

  function SumQty(ps: seq<Position>): int
    decreases |ps|
  {
    if |ps| == 0 then 0 else SumQty(ps[..|ps| - 1]) + ps[|ps| - 1].qty
  }

  function SumBase(ps: seq<Position>): real
    decreases |ps|
  {
    if |ps| == 0 then 0.0 else SumBase(ps[..|ps| - 1]) + BaseVal(ps[|ps| - 1])
  }

  function SumLast(ps: seq<Position>): Option<real>
    decreases |ps|
  {
    if |ps| == 0 then Some(0.0) else AddOpt(SumLast(ps[..|ps| - 1]), LastVal(ps[|ps| - 1]))
  }

  function SumPnl(ps: seq<Position>): Option<real>
    decreases |ps|
  {
    if |ps| == 0 then Some(0.0) else AddOpt(SumPnl(ps[..|ps| - 1]), FloatPnl(ps[|ps| - 1]))
  }

  /** The footer of `__update_rows_and_footer`: the running totals and the
      PnL style chosen by the sign of the total floating PnL. */
  function FooterOf(c: Colors, ps: seq<Position>): (f: Footer)
    ensures f.style == SetColor(c, f.floatPnl)
    ensures f.qty == SumQty(ps)
  {
    var pnl := SumPnl(ps);
    Footer(SumQty(ps), SumBase(ps), SumLast(ps), pnl, SetColor(c, pnl))
  }

  /** Every price known. */
  predicate AllPriced(ps: seq<Position>) {
    forall i :: 0 <= i < |ps| ==> ps[i].last.Some?
  }

  /** The footer adds up: its PnL is known exactly when every price is, and
      then equals the total last value minus the total base value. */
  lemma {:induction false} FooterAddsUp(ps: seq<Position>)
    ensures SumPnl(ps).Some? <==> AllPriced(ps)
    ensures SumLast(ps).Some? <==> AllPriced(ps)
    ensures SumPnl(ps).Some? ==> SumPnl(ps).value == SumLast(ps).value - SumBase(ps)
    decreases |ps|
  {
    if |ps| > 0 {
      var init := ps[..|ps| - 1];
      FooterAddsUp(init);
      assert forall i :: 0 <= i < |init| ==> init[i] == ps[i];
      assert AllPriced(ps) <==> AllPriced(init) && ps[|ps| - 1].last.Some?;
    }
  }
}
