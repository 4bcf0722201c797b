/**
 * Futures contract codes in src/husfort/qinstruments.py: the instrument
 * prefix of a contract id, the exchange of an instrument in each code
 * format, conversion between the vanilla format ("j2209", "MA105") and the
 * vendor formats ("J2209.DCE" for Wind, "J2209.DCE"/"MA105.ZCE" for
 * Tushare), and the decade fix-up of Zhengzhou contract ids whose year has
 * a single digit. The instrument table is a map from the chosen key to
 * its record.
 */
module Instruments {

  import opened Wrappers
  import PyStr

  /** `parse_instrument_from_contract(contract)`: the contract id with
      every ASCII digit removed. */
  function ParseInstrumentFromContract(contract: string): (r: string)
    ensures forall i :: 0 <= i < |r| ==> !PyStr.IsDigit(r[i])
    ensures |r| <= |contract|
  {
    PyStr.StripDigits(contract)
  }

  /** A letters-then-digits contract id parses to its letters. */
  lemma ParseInstrumentOfCode(prefix: string, digits: string)
    requires forall i :: 0 <= i < |prefix| ==> !PyStr.IsDigit(prefix[i])
    requires PyStr.AllDigits(digits)
    ensures ParseInstrumentFromContract(prefix + digits) == prefix
  {
    PyStr.StripDigitsConcat(prefix, digits);
    PyStr.StripDigitsNone(prefix);
    PyStr.StripDigitsAll(digits);
  }

  /** Parsing drops the digits and keeps the rest: it is idempotent. */
  lemma ParseInstrumentIdempotent(contract: string)
    ensures ParseInstrumentFromContract(ParseInstrumentFromContract(contract)) == ParseInstrumentFromContract(contract)
  {
    PyStr.StripDigitsNone(ParseInstrumentFromContract(contract));
  }

  /** The fields of `CInstrument` the code-format rules read. */
  datatype Instrument = Instrument(instrumentId: string, exchange: string, multiplier: int, windId: string, tushareId: string)

  /** `CInstruMgr.mgr`: instruments by the key chosen at construction. */
  type Mgr = map<string, Instrument>

  /** The three code formats, matched on `cformat.upper()`. */
  const VANILLA := "VANILLA"
  const WIND := "WIND"
  const TUSHARE := "TUSHARE"

  predicate IsFormat(cformat: string, name: string) {
    PyStr.Upper(cformat) == name
  }

  /** `get_exchange(instrumentId, cformat)`: the table's exchange for the
      vanilla format, else the text after the last "." of the vendor id;
      an unknown instrument raises KeyError, an unknown format ValueError. */
  function GetExchange(mgr: Mgr, instrumentId: string, cformat: string): (r: Result<string>)
    ensures !IsFormat(cformat, VANILLA) && !IsFormat(cformat, WIND) && !IsFormat(cformat, TUSHARE) ==> r == Err(ValueError)
    ensures (IsFormat(cformat, VANILLA) || IsFormat(cformat, WIND) || IsFormat(cformat, TUSHARE)) ==>
      (r.Ok? <==> instrumentId in mgr) && (r.Err? ==> r.error == KeyError)
    ensures r.Ok? && IsFormat(cformat, VANILLA) ==> r.value == mgr[instrumentId].exchange
    ensures r.Ok? && !IsFormat(cformat, VANILLA) ==>
      var id := if IsFormat(cformat, WIND) then mgr[instrumentId].windId else mgr[instrumentId].tushareId;
      PyStr.EndsWith(id, r.value) && (forall i :: 0 <= i < |r.value| ==> r.value[i] != '.') &&
      (|r.value| < |id| ==> id[|id| - |r.value| - 1] == '.')
  {
    if IsFormat(cformat, VANILLA) then
      var ins :- Lookup(mgr, instrumentId);
      Ok(ins.exchange)
    else if IsFormat(cformat, WIND) then
      var ins :- Lookup(mgr, instrumentId);
      Ok(VendorSuffix(ins.windId))
    else if IsFormat(cformat, TUSHARE) then
      var ins :- Lookup(mgr, instrumentId);
      Ok(VendorSuffix(ins.tushareId))
    else Err(ValueError)
  }

  /** `id.split(".")[-1]`: the text after the last "." of a vendor id. */
  function VendorSuffix(id: string): (r: string)
    ensures r == PyStr.AfterLast(id, '.')
  {
    PyStr.SplitLastPiece(id, '.');
    var parts := PyStr.Split(id, '.');
    parts[|parts| - 1]
  }

  /** The exchange names of the Chinese futures exchanges. */
  function ExchangeChs(exchange: string): (r: Result<string>)
    ensures r.Ok? <==> exchange in ["DCE", "CZCE", "SHFE", "INE", "GFE", "CFFEX"]
    ensures r.Err? ==> r.error == KeyError
  {
    match exchange
    case "DCE" => Ok("大商所")
    case "CZCE" => Ok("郑商所")
    case "SHFE" => Ok("上期所")
    case "INE" => Ok("上海能源")
    case "GFE" => Ok("广期所")
    case "CFFEX" => Ok("中金所")
    case _ => Err(KeyError)
  }

  /** `get_exchange_chs(instrument_id)`. */
  function GetExchangeChs(mgr: Mgr, instrumentId: string): (r: Result<string>)
    ensures r.Ok? <==> instrumentId in mgr && ExchangeChs(mgr[instrumentId].exchange).Ok?
    ensures r.Err? ==> r.error == KeyError
  {
    var exchange :- GetExchange(mgr, instrumentId, VANILLA);
    ExchangeChs(exchange)
  }

  /** `convert_contract_from_vanilla(contract, cformat)`: the upper-cased
      contract id, a ".", and the instrument's exchange in that format. */
  function ConvertContractFromVanilla(mgr: Mgr, contract: string, cformat: string): (r: Result<string>)
    ensures r.Ok? <==> GetExchange(mgr, ParseInstrumentFromContract(contract), cformat).Ok?
    ensures r.Ok? ==> PyStr.StartsWith(r.value, PyStr.Upper(contract) + ".")
    ensures r.Ok? ==> PyStr.EndsWith(r.value, GetExchange(mgr, ParseInstrumentFromContract(contract), cformat).value)
    ensures r.Ok? ==> |r.value| == |contract| + 1 + |GetExchange(mgr, ParseInstrumentFromContract(contract), cformat).value|
  {
    var exchange :- GetExchange(mgr, ParseInstrumentFromContract(contract), cformat);
    var r := PyStr.Upper(contract) + "." + exchange;
    assert r[..|contract| + 1] == PyStr.Upper(contract) + ".";
    Ok(r)
  }

  /** The vendor exchange codes whose contract ids keep their case. */
  function KeepCase(cformat: string): seq<string> {
    if IsFormat(cformat, WIND) then ["CFE", "CZC"] else ["CFX", "ZCE"]
  }

  /** `convert_contract_to_vanilla(contract_id, cformat)`: the code before
      the only "."; upper case kept for the case-sensitive exchanges, else
      lower-cased. Anything but exactly one "." raises ValueError, as does
      an unknown format. */
  function ConvertContractToVanilla(contractId: string, cformat: string): (r: Result<string>)
    ensures r.Ok? <==> PyStr.Count(contractId, '.') == 1 && (IsFormat(cformat, WIND) || IsFormat(cformat, TUSHARE))
    ensures r.Err? ==> r.error == ValueError
    ensures r.Ok? ==> forall i :: 0 <= i < |r.value| ==> r.value[i] != '.'
    ensures r.Ok? ==> |r.value| < |contractId|
  {
    var parts := PyStr.Split(contractId, '.');
    if |parts| != 2 then Err(ValueError)
    else
      var cid := parts[0];
      var exchange := parts[1];
      PyStr.JoinSplit(contractId, '.');
      assert PyStr.Join(parts, ".") == parts[..1][0] + "." + parts[1];
      if IsFormat(cformat, WIND) || IsFormat(cformat, TUSHARE) then
        Ok(if exchange in KeepCase(cformat) then cid else PyStr.Lower(cid))
      else Err(ValueError)
  }

  /** Converting a vanilla id to a vendor format and back gives it back,
      when the id has no "." and is written in the case its exchange uses
      (upper case for the case-keeping exchanges, lower case otherwise). */
  lemma VanillaRoundTrip(mgr: Mgr, contract: string, cformat: string)
    requires IsFormat(cformat, WIND) || IsFormat(cformat, TUSHARE)
    requires ParseInstrumentFromContract(contract) in mgr
    requires forall i :: 0 <= i < |contract| ==> contract[i] != '.'
    requires var e := GetExchange(mgr, ParseInstrumentFromContract(contract), cformat).value;
      if e in KeepCase(cformat) then PyStr.Upper(contract) == contract else PyStr.Lower(contract) == contract
    ensures ConvertContractToVanilla(ConvertContractFromVanilla(mgr, contract, cformat).value, cformat) == Ok(contract)
  {
    var e := GetExchange(mgr, ParseInstrumentFromContract(contract), cformat).value;
    var u := PyStr.Upper(contract);
    FromVanillaValue(mgr, contract, cformat);
    PyStr.UpperAvoids(contract, '.');
    ToVanillaPair(u, e, cformat);
    if e !in KeepCase(cformat) {
      PyStr.LowerUpper(contract);
    }
  }

  /** The vendor id built from a vanilla one. */
  lemma FromVanillaValue(mgr: Mgr, contract: string, cformat: string)
    requires ConvertContractFromVanilla(mgr, contract, cformat).Ok?
    ensures ConvertContractFromVanilla(mgr, contract, cformat).value ==
      PyStr.Upper(contract) + "." + GetExchange(mgr, ParseInstrumentFromContract(contract), cformat).value
  {
  }

  /** A code and an exchange joined by one "." read back as the code, in
      the exchange's case. */
  lemma ToVanillaPair(cid: string, e: string, cformat: string)
    requires IsFormat(cformat, WIND) || IsFormat(cformat, TUSHARE)
    requires forall i :: 0 <= i < |cid| ==> cid[i] != '.'
    requires forall i :: 0 <= i < |e| ==> e[i] != '.'
    ensures ConvertContractToVanilla(cid + "." + e, cformat) == Ok(if e in KeepCase(cformat) then cid else PyStr.Lower(cid))
  {
    PyStr.SplitAbsent(cid, '.');
    PyStr.SplitLast(cid, '.', e);
    assert cid + "." + e == cid + ['.'] + e;
  }

  /* -------------------------------------------------- Zhengzhou decade fix */

  /** The digit at position i of a string, as `int(s[i])` reads it. */
  function DigitAt(s: string, i: nat): (r: Result<nat>)
    ensures r.Ok? <==> i < |s| && PyStr.IsDigit(s[i])
    ensures r.Err? ==> r.error == (if i < |s| then ValueError else IndexError)
    ensures r.Ok? ==> r.value < 10
  {
    if i >= |s| then Err(IndexError)
    else if !PyStr.IsDigit(s[i]) then Err(ValueError)
    else Ok(PyStr.DigitValue(s[i]))
  }

  /** The decade digit `fix_contract_id` inserts: the decade of the trade
      date ("X" of "20XY...") plus one when the contract's single year
      digit is below the trade year's. */
  function Decade(tradeDecade: nat, tradeYear: nat, contractYear: nat): nat {
    if contractYear < tradeYear then tradeDecade + 1 else tradeDecade
  }

  /** The two-digit year the fix gives a contract lies in the ten years
      starting at the trade year. */
  lemma DecadeWindow(tradeDecade: nat, tradeYear: nat, contractYear: nat)
    requires tradeYear < 10 && contractYear < 10
    ensures var y := 10 * Decade(tradeDecade, tradeYear, contractYear) + contractYear;
      10 * tradeDecade + tradeYear <= y <= 10 * tradeDecade + tradeYear + 9
  {
  }

  /** The insertion step shared by both revisions of `fix_contract_id`:
      read the trade decade, the trade year and the contract year digit
      (in that order, each raising IndexError past the end or ValueError
      on a non-digit), then insert `str(decade)` after the instrument
      prefix of length `lenInstru`. */
  function InsertDecade(contract: string, lenInstru: nat, tradeDate: string): (r: Result<string>)
    ensures r.Ok? <==> DigitAt(tradeDate, 2).Ok? && DigitAt(tradeDate, 3).Ok? && DigitAt(contract, lenInstru).Ok?
    ensures r.Err? ==>
      (r.error == if DigitAt(tradeDate, 2).Err? then DigitAt(tradeDate, 2).error
        else if DigitAt(tradeDate, 3).Err? then DigitAt(tradeDate, 3).error
        else DigitAt(contract, lenInstru).error)
    ensures r.Ok? ==>
      var d := PyStr.NatToDecimal(Decade(DigitAt(tradeDate, 2).value, DigitAt(tradeDate, 3).value, DigitAt(contract, lenInstru).value));
      |r.value| == |contract| + |d| && r.value[..lenInstru] == contract[..lenInstru] &&
      r.value[lenInstru..lenInstru + |d|] == d && r.value[lenInstru + |d|..] == contract[lenInstru..]
  {
    var td :- DigitAt(tradeDate, 2);
    var ty :- DigitAt(tradeDate, 3);
    var cy :- DigitAt(contract, lenInstru);
    var d := PyStr.NatToDecimal(Decade(td, ty, cy));
    var r := PyStr.Slice(contract, 0, lenInstru) + d + contract[lenInstru..];
    assert r[lenInstru..lenInstru + |d|] == d;
    Ok(r)
  }

  /** Removing the inserted digits gives the contract back, and they read
      as the decade. */
  lemma InsertDecadeRemovable(contract: string, lenInstru: nat, tradeDate: string)
    requires InsertDecade(contract, lenInstru, tradeDate).Ok?
    ensures var r := InsertDecade(contract, lenInstru, tradeDate).value;
      var n := |r| - |contract|;
      1 <= n <= 2 && r[..lenInstru] + r[lenInstru + n..] == contract &&
      PyStr.AllDigits(r[lenInstru..lenInstru + n]) &&
      PyStr.DecimalValue(r[lenInstru..lenInstru + n]) ==
        Decade(DigitAt(tradeDate, 2).value, DigitAt(tradeDate, 3).value, DigitAt(contract, lenInstru).value)
  {
    var dec := Decade(DigitAt(tradeDate, 2).value, DigitAt(tradeDate, 3).value, DigitAt(contract, lenInstru).value);
    PyStr.NatToDecimalLength(dec, 2);
    assert contract == contract[..lenInstru] + contract[lenInstru..];
  }

  /** How `fix_contract_id` reads its input: the exchange, the length of
      the code part and of its instrument prefix. */
  datatype CodeInfo = CodeInfo(exchange: string, lenCid: nat, lenInstru: nat)

  /** The first half of `fix_contract_id`: a vanilla id looks its
      exchange up in the table, a vendor id must split into exactly a code
      and an exchange (else ValueError); any other format raises
      ValueError. */
  function ReadCode(mgr: Mgr, contract: string, cformat: string): (r: Result<CodeInfo>)
    ensures IsFormat(cformat, VANILLA) ==>
      var ins := ParseInstrumentFromContract(contract);
      r == (if ins in mgr then Ok(CodeInfo(mgr[ins].exchange, |contract|, |ins|)) else Err(KeyError))
    ensures !IsFormat(cformat, VANILLA) && !IsFormat(cformat, WIND) && !IsFormat(cformat, TUSHARE) ==> r == Err(ValueError)
    ensures !IsFormat(cformat, VANILLA) && (IsFormat(cformat, WIND) || IsFormat(cformat, TUSHARE)) ==>
      (r.Ok? <==> PyStr.Count(contract, '.') == 1) && (r.Err? ==> r.error == ValueError)
    ensures r.Ok? ==> r.value.lenInstru <= r.value.lenCid <= |contract|
  {
    if IsFormat(cformat, VANILLA) then
      var ins := ParseInstrumentFromContract(contract);
      var exchange :- GetExchange(mgr, ins, VANILLA);
      Ok(CodeInfo(exchange, |contract|, |ins|))
    else if IsFormat(cformat, WIND) || IsFormat(cformat, TUSHARE) then
      var parts := PyStr.Split(contract, '.');
      if |parts| != 2 then Err(ValueError)
      else
        PyStr.JoinSplit(contract, '.');
        assert PyStr.Join(parts, ".") == parts[..1][0] + "." + parts[1];
        var ins := ParseInstrumentFromContract(parts[0]);
        Ok(CodeInfo(parts[1], |parts[0]|, |ins|))
    else Err(ValueError)
  }

  /** `re.match(r"^[a-zA-Z]{1,2}[\d]{4}$", contract)`: one or two letters
      then four digits, where `$` also matches before a final newline. */
  predicate OldStyle(contract: string) {
    OldStyleBody(contract) ||
    (|contract| > 0 && contract[|contract| - 1] == '\n' && OldStyleBody(contract[..|contract| - 1]))
  }

  predicate OldStyleBody(s: string) {
    (|s| == 5 || |s| == 6) &&
    (forall i :: 0 <= i < |s| - 4 ==> PyStr.IsAsciiLetter(s[i])) &&
    (forall i :: |s| - 4 <= i < |s| ==> PyStr.IsDigit(s[i]))
  }

  /** `fix_contract_id(contract, trade_date, cformat)` as written: only an
      exchange spelled "CZCE" is fixed, although a vendor id's exchange is
      its vendor code, "CZC" for Wind and "ZCE" for Tushare. */
  function FixContractIdAsWritten(mgr: Mgr, contract: string, tradeDate: string, cformat: string): (r: Result<string>)
    ensures ReadCode(mgr, contract, cformat).Err? ==> r == Err(ReadCode(mgr, contract, cformat).error)
    ensures ReadCode(mgr, contract, cformat).Ok? && ReadCode(mgr, contract, cformat).value.exchange != "CZCE" ==> r == Ok(contract)
  {
    var info :- ReadCode(mgr, contract, cformat);
    if info.exchange != "CZCE" then Ok(contract)
    else if OldStyle(contract) then Ok(contract)
    else InsertDecade(contract, info.lenInstru, tradeDate)
  }

  /** A Wind or Tushare id is never fixed as written: its exchange code
      never reads "CZCE". */
  lemma VendorNeverFixedAsWritten(mgr: Mgr, cid: string, code: string, tradeDate: string, cformat: string)
    requires IsFormat(cformat, WIND) || IsFormat(cformat, TUSHARE)
    requires !IsFormat(cformat, VANILLA)
    requires forall i :: 0 <= i < |cid| ==> cid[i] != '.'
    requires code == (if IsFormat(cformat, WIND) then "CZC" else "ZCE")
    ensures FixContractIdAsWritten(mgr, cid + "." + code, tradeDate, cformat) == Ok(cid + "." + code)
  {
    ReadVendorCode(mgr, cid, code, cformat);
  }

  lemma ReadVendorCode(mgr: Mgr, cid: string, code: string, cformat: string)
    requires IsFormat(cformat, WIND) || IsFormat(cformat, TUSHARE)
    requires !IsFormat(cformat, VANILLA)
    requires forall i :: 0 <= i < |cid| ==> cid[i] != '.'
    requires forall i :: 0 <= i < |code| ==> code[i] != '.'
    ensures ReadCode(mgr, cid + "." + code, cformat) ==
      Ok(CodeInfo(code, |cid|, |ParseInstrumentFromContract(cid)|))
  {
    PyStr.SplitAbsent(cid, '.');
    PyStr.SplitLast(cid, '.', code);
    assert cid + "." + code == cid + ['.'] + code;
  }

  /** The Zhengzhou exchange as each format spells it. */
  function ZhengzhouCode(cformat: string): string {
    if IsFormat(cformat, VANILLA) then "CZCE" else if IsFormat(cformat, WIND) then "CZC" else "ZCE"
  }

  /** `fix_contract_id` as its documentation describes it ("MA105.CZC"
      is a Zhengzhou id): the exchange is compared with the format's own
      spelling of Zhengzhou, and the four-digit test looks at the code
      part, before any vendor suffix. Ids of other exchanges and ids that
      already carry a four-digit year are returned unchanged. */
  function FixContractId(mgr: Mgr, contract: string, tradeDate: string, cformat: string): (r: Result<string>)
    ensures ReadCode(mgr, contract, cformat).Err? ==> r == Err(ReadCode(mgr, contract, cformat).error)
    ensures ReadCode(mgr, contract, cformat).Ok? ==>
      var info := ReadCode(mgr, contract, cformat).value;
      (info.exchange != ZhengzhouCode(cformat) ==> r == Ok(contract)) &&
      (OldStyle(contract[..info.lenCid]) ==> r == Ok(contract)) &&
      (info.exchange == ZhengzhouCode(cformat) && !OldStyle(contract[..info.lenCid]) ==>
        r == InsertDecade(contract, info.lenInstru, tradeDate))
  {
    var info :- ReadCode(mgr, contract, cformat);
    if info.exchange != ZhengzhouCode(cformat) then Ok(contract)
    else if OldStyle(contract[..info.lenCid]) then Ok(contract)
    else InsertDecade(contract, info.lenInstru, tradeDate)
  }

  /** Both readings agree on vanilla ids. */
  lemma FixContractIdVanillaAgrees(mgr: Mgr, contract: string, tradeDate: string)
    ensures FixContractIdAsWritten(mgr, contract, tradeDate, VANILLA) == FixContractId(mgr, contract, tradeDate, VANILLA)
  {
    assert IsFormat(VANILLA, VANILLA);
    assert contract[..|contract|] == contract;
  }

  /** "MA105.CZC" on 2020-12-01 in the Wind format: as written it comes back
      unchanged, where the documented fix gives "MA2105.CZC". */
  lemma WindFixExample(mgr: Mgr)
    ensures FixContractIdAsWritten(mgr, "MA105.CZC", "20201201", "WIND") == Ok("MA105.CZC")
    ensures FixContractId(mgr, "MA105.CZC", "20201201", "WIND") == Ok("MA2105.CZC")
  {
    assert IsFormat("WIND", WIND);
    assert !IsFormat("WIND", VANILLA);
    WindReadExample(mgr);
    assert "MA105.CZC"[..5] == "MA105";
    assert !OldStyleBody("MA105") by {
      assert "MA105"[1] == 'A' && !PyStr.IsDigit('A');
    }
    assert !OldStyle("MA105");
    assert ZhengzhouCode("WIND") == "CZC";
    WindInsertExample();
  }

  /** "MA1105.CZC", an old id that already carries its four-digit year,
      comes back unchanged in the Wind format. */
  lemma WindFourDigitKept(mgr: Mgr)
    ensures FixContractId(mgr, "MA1105.CZC", "20201201", "WIND") == Ok("MA1105.CZC")
  {
    var info := WindReadFourDigit(mgr);
    assert "MA1105.CZC"[..6] == "MA1105";
    assert OldStyleBody("MA1105");
  }

  lemma WindReadFourDigit(mgr: Mgr) returns (info: CodeInfo)
    ensures ReadCode(mgr, "MA1105.CZC", "WIND") == Ok(info) && info.lenCid == 6
  {
    assert IsFormat("WIND", WIND);
    assert !IsFormat("WIND", VANILLA);
    ReadVendorCode(mgr, "MA1105", "CZC", "WIND");
    assert "MA1105.CZC" == "MA1105" + "." + "CZC";
    info := ReadCode(mgr, "MA1105.CZC", "WIND").value;
  }

  lemma WindReadExample(mgr: Mgr)
    ensures ReadCode(mgr, "MA105.CZC", "WIND") == Ok(CodeInfo("CZC", 5, 2))
  {
    assert IsFormat("WIND", WIND);
    assert !IsFormat("WIND", VANILLA);
    ReadVendorCode(mgr, "MA105", "CZC", "WIND");
    assert "MA105.CZC" == "MA105" + "." + "CZC";
    ParseInstrumentOfCode("MA", "105");
    assert "MA105" == "MA" + "105";
  }

  lemma WindInsertExample()
    ensures InsertDecade("MA105.CZC", 2, "20201201") == Ok("MA2105.CZC")
  {
    assert DigitAt("20201201", 2) == Ok(2) && DigitAt("20201201", 3) == Ok(0);
    assert DigitAt("MA105.CZC", 2) == Ok(1);
    assert PyStr.NatToDecimal(2) == "2";
    assert PyStr.Slice("MA105.CZC", 0, 2) == "MA";
    assert "MA105.CZC"[2..] == "105.CZC";
    assert "MA" + "2" + "105.CZC" == "MA2105.CZC";
  }

  /** The decade rule on the sample ids of the module's own usage notes,
      with "ZC" a Zhengzhou instrument: "ZC005" traded in 2019 is the 2020
      contract. */
  lemma VanillaFixAcrossDecade(mgr: Mgr)
    requires "ZC" in mgr && mgr["ZC"].exchange == "CZCE"
    ensures FixContractId(mgr, "ZC005", "20191201", "VANILLA") == Ok("ZC2005")
  {
    assert IsFormat("VANILLA", VANILLA);
    ParseInstrumentOfCode("ZC", "005");
    assert "ZC005" == "ZC" + "005";
    assert ReadCode(mgr, "ZC005", "VANILLA") == Ok(CodeInfo("CZCE", 5, 2));
    assert !PyStr.IsDigit("ZC005"[1]) && "ZC005"[4] != '\n';
    assert !OldStyle("ZC005");
    assert DigitAt("20191201", 2) == Ok(1) && DigitAt("20191201", 3) == Ok(9);
    assert DigitAt("ZC005", 2) == Ok(0);
    assert PyStr.NatToDecimal(2) == "2";
    assert PyStr.Slice("ZC005", 0, 2) == "ZC" && "ZC005"[2..] == "005";
    assert InsertDecade("ZC005", 2, "20191201") == Ok("ZC" + "2" + "005");
    assert "ZC" + "2" + "005" == "ZC2005";
  }

  /** "ZC105" traded in 2020 is the 2021 contract. */
  lemma VanillaFixSameDecade(mgr: Mgr)
    requires "ZC" in mgr && mgr["ZC"].exchange == "CZCE"
    ensures FixContractId(mgr, "ZC105", "20200301", "VANILLA") == Ok("ZC2105")
  {
    assert IsFormat("VANILLA", VANILLA);
    ParseInstrumentOfCode("ZC", "105");
    assert "ZC105" == "ZC" + "105";
    assert ReadCode(mgr, "ZC105", "VANILLA") == Ok(CodeInfo("CZCE", 5, 2));
    assert !PyStr.IsDigit("ZC105"[1]) && "ZC105"[4] != '\n';
    assert !OldStyle("ZC105");
    assert DigitAt("20200301", 2) == Ok(2) && DigitAt("20200301", 3) == Ok(0);
    assert DigitAt("ZC105", 2) == Ok(1);
    assert PyStr.NatToDecimal(2) == "2";
    assert PyStr.Slice("ZC105", 0, 2) == "ZC" && "ZC105"[2..] == "105";
    assert InsertDecade("ZC105", 2, "20200301") == Ok("ZC" + "2" + "105");
    assert "ZC" + "2" + "105" == "ZC2105";
  }

  /** "ZC2005" already carries its year. */
  lemma VanillaFixFourDigits(mgr: Mgr)
    requires "ZC" in mgr && mgr["ZC"].exchange == "CZCE"
    ensures FixContractId(mgr, "ZC2005", "20191201", "VANILLA") == Ok("ZC2005")
  {
    assert IsFormat("VANILLA", VANILLA);
    ParseInstrumentOfCode("ZC", "2005");
    assert "ZC2005" == "ZC" + "2005";
    assert ReadCode(mgr, "ZC2005", "VANILLA") == Ok(CodeInfo("CZCE", 6, 2));
    assert OldStyle("ZC2005");
  }
}
