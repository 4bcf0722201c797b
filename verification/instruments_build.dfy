/**
 * Contract records and contract-code rules of build/lib/husfort/qinstruments.py.
 * `CContract` and `CPosKey` are frozen dataclasses: they compare field by
 * field, so Dafny's structural equality on datatypes is exactly theirs.
 * The instrument information table is a map from instrument id to the
 * columns the rules read.
 */
module InstrumentsBuild {

  import opened Wrappers
  import PyStr
  import Instruments

  /** `CContract`: the contract id, its instrument and exchange, and the
      contract multiplier (read from the instrument table, so kept real). */
  datatype Contract = Contract(contract: string, instrument: string, exchange: string, multiplier: real)

  /** `CPosKey`: a contract and a direction (1 long, -1 short). */
  datatype PosKey = PosKey(contract: Contract, direction: int)

  /** `CONST_DIRECTION_LNG`, `CONST_DIRECTION_SRT`. */
  const LNG: int := 1
  const SRT: int := -1

  /** `CONST_OPERATION_OPN`, `CONST_OPERATION_CLS`. */
  const OPN: int := 1
  const CLS: int := -1

  /** `CContract.gen_from_other(contract, other)`: a new contract id on the
      instrument, exchange and multiplier of `other`. */
  function GenFromOther(contract: string, other: Contract): (c: Contract)
    ensures c.contract == contract
    ensures c.instrument == other.instrument && c.exchange == other.exchange
    ensures c.multiplier == other.multiplier
    ensures c == other <==> contract == other.contract
  {
    other.(contract := contract)
  }

  /* ------------------------------------------------------ the info table */

  /** The columns of `CInstrumentInfoTable` the rules read. */
  datatype Info = Info(exchangeId: string, multiplier: real, windCode: string)

  type Table = map<string, Info>

  /** `get_exchange_id(instrument_id)`: KeyError for an unknown instrument. */
  function GetExchangeId(table: Table, instrumentId: string): (r: Result<string>)
    ensures r.Ok? <==> instrumentId in table
    ensures r.Ok? ==> r.value == table[instrumentId].exchangeId
    ensures r.Err? ==> r.error == KeyError
  {
    var info :- Lookup(table, instrumentId);
    Ok(info.exchangeId)
  }

  /** The short exchange codes of `get_exchange_id_eng`. */
  function ExchangeIdEng(exchange: string): (r: Result<string>)
    ensures r.Ok? <==> exchange in ["DCE", "CZCE", "SHFE", "INE", "GFE", "CFFEX"]
    ensures r.Err? ==> r.error == KeyError
    ensures r.Ok? ==> |r.value| == 3
  {
    match exchange
    case "DCE" => Ok("DCE")
    case "CZCE" => Ok("CZC")
    case "SHFE" => Ok("SHF")
    case "INE" => Ok("INE")
    case "GFE" => Ok("GFE")
    case "CFFEX" => Ok("CFE")
    case _ => Err(KeyError)
  }

  /** The English and Chinese tables know the same exchanges, and no two
      exchanges share a short code. */
  lemma ExchangeTablesAgree(a: string, b: string)
    ensures ExchangeIdEng(a).Ok? <==> Instruments.ExchangeChs(a).Ok?
    ensures ExchangeIdEng(a).Ok? && ExchangeIdEng(b).Ok? && ExchangeIdEng(a).value == ExchangeIdEng(b).value ==> a == b
  {
  }

  /** `get_exchange_id_eng(instrument_id)`. */
  function GetExchangeIdEng(table: Table, instrumentId: string): (r: Result<string>)
    ensures r.Ok? <==> instrumentId in table && ExchangeIdEng(table[instrumentId].exchangeId).Ok?
    ensures r.Err? ==> r.error == KeyError
  {
    var full :- GetExchangeId(table, instrumentId);
    ExchangeIdEng(full)
  }

  /** `get_exchange_id_chs(instrument_id)`. */
  function GetExchangeIdChs(table: Table, instrumentId: string): (r: Result<string>)
    ensures r.Ok? <==> instrumentId in table && Instruments.ExchangeChs(table[instrumentId].exchangeId).Ok?
    ensures r.Err? ==> r.error == KeyError
  {
    var full :- GetExchangeId(table, instrumentId);
    Instruments.ExchangeChs(full)
  }

  /** `CContract.gen_from_contract_id(contract, instru_info_tab)`. */
  function GenFromContractId(table: Table, contract: string): (r: Result<Contract>)
    ensures var ins := Instruments.ParseInstrumentFromContract(contract);
      (r.Ok? <==> ins in table) && (r.Err? ==> r.error == KeyError) &&
      (r.Ok? ==> r.value == Contract(contract, ins, table[ins].exchangeId, table[ins].multiplier))
  {
    var ins := Instruments.ParseInstrumentFromContract(contract);
    var info :- Lookup(table, ins);
    Ok(Contract(contract, ins, info.exchangeId, info.multiplier))
  }

  /* ---------------------------------------------------------- code formats */

  /** `convert_contract_from_vanilla_to_wind(contract_id)`: the upper-cased
      id, a ".", and the first three characters of the exchange part of the
      instrument's Wind code; an unknown instrument raises KeyError and a
      Wind code without "." IndexError. */
  function ConvertVanillaToWind(table: Table, contract: string): (r: Result<string>)
    ensures var ins := Instruments.ParseInstrumentFromContract(contract);
      (r.Ok? <==> ins in table && PyStr.Count(table[ins].windCode, '.') >= 1) &&
      (r.Err? ==> r.error == (if ins in table then IndexError else KeyError))
    ensures r.Ok? ==> PyStr.StartsWith(r.value, PyStr.Upper(contract) + ".")
    ensures r.Ok? ==> |contract| + 1 <= |r.value| <= |contract| + 4
    ensures r.Ok? ==> forall i :: |contract| < i < |r.value| ==> r.value[i] != '.'
  {
    var info :- Lookup(table, Instruments.ParseInstrumentFromContract(contract));
    var parts := PyStr.Split(info.windCode, '.');
    if |parts| < 2 then Err(IndexError)
    else
      var code := PyStr.Take(parts[1], 3);
      var r := PyStr.Upper(contract) + "." + code;
      assert r[..|contract| + 1] == PyStr.Upper(contract) + ".";
      assert forall i :: |contract| < i < |r| ==> r[i] == code[i - |contract| - 1];
      Ok(r)
  }

  /** `convert_contract_from_wind_to_vanilla(contract_id)`: the code before
      the only "."; Wind ids of CFE and CZC keep their case, the others are
      lower-cased; anything but exactly one "." raises ValueError. */
  function ConvertWindToVanilla(contractId: string): (r: Result<string>)
    ensures r.Ok? <==> PyStr.Count(contractId, '.') == 1
    ensures r.Err? ==> r.error == ValueError
  {
    var parts := PyStr.Split(contractId, '.');
    if |parts| != 2 then Err(ValueError)
    else Ok(if parts[1] in ["CFE", "CZC"] then parts[0] else PyStr.Lower(parts[0]))
  }

  /** The Wind rule is the current revision's rule for the Wind format. */
  lemma WindToVanillaAgrees(contractId: string)
    ensures ConvertWindToVanilla(contractId) == Instruments.ConvertContractToVanilla(contractId, Instruments.WIND)
  {
    assert Instruments.IsFormat(Instruments.WIND, Instruments.WIND);
  }

  /** Converting a vanilla id to Wind and back gives it back when the id
      has no "." and is in the case its exchange uses. */
  lemma WindRoundTrip(table: Table, contract: string)
    requires ConvertVanillaToWind(table, contract).Ok?
    requires forall i :: 0 <= i < |contract| ==> contract[i] != '.'
    requires var w := ConvertVanillaToWind(table, contract).value;
      var code := w[|contract| + 1..];
      if code in ["CFE", "CZC"] then PyStr.Upper(contract) == contract else PyStr.Lower(contract) == contract
    ensures ConvertWindToVanilla(ConvertVanillaToWind(table, contract).value) == Ok(contract)
  {
    var w := ConvertVanillaToWind(table, contract).value;
    var u := PyStr.Upper(contract);
    var code := w[|contract| + 1..];
    assert w == u + "." + code;
    PyStr.UpperAvoids(contract, '.');
    WindPair(u, code);
    if code !in ["CFE", "CZC"] {
      PyStr.LowerUpper(contract);
    }
  }

  /** A code and an exchange joined by one "." split into the two. */
  lemma WindPair(cid: string, code: string)
    requires forall i :: 0 <= i < |cid| ==> cid[i] != '.'
    requires forall i :: 0 <= i < |code| ==> code[i] != '.'
    ensures PyStr.Split(cid + "." + code, '.') == [cid, code]
  {
    PyStr.SplitAbsent(cid, '.');
    PyStr.SplitLast(cid, '.', code);
    assert cid + "." + code == cid + ['.'] + code;
  }

  /* -------------------------------------------------- Zhengzhou decade fix */

  /** The first half of `fix_contract_id`: the exchange and the lengths
      of the code and its instrument prefix. */
  function ReadCode(table: Table, contract: string, contractType: string): (r: Result<Instruments.CodeInfo>)
    ensures Instruments.IsFormat(contractType, Instruments.VANILLA) ==>
      var ins := Instruments.ParseInstrumentFromContract(contract);
      r == (if ins in table then Ok(Instruments.CodeInfo(table[ins].exchangeId, |contract|, |ins|)) else Err(KeyError))
    ensures !Instruments.IsFormat(contractType, Instruments.VANILLA) ==>
      (r.Ok? <==> Instruments.IsFormat(contractType, Instruments.WIND) && PyStr.Count(contract, '.') == 1) &&
      (r.Err? ==> r.error == ValueError)
    ensures r.Ok? ==> r.value.lenInstru <= r.value.lenCid <= |contract|
  {
    if Instruments.IsFormat(contractType, Instruments.VANILLA) then
      var ins := Instruments.ParseInstrumentFromContract(contract);
      var exchange :- GetExchangeId(table, ins);
      Ok(Instruments.CodeInfo(exchange, |contract|, |ins|))
    else if Instruments.IsFormat(contractType, Instruments.WIND) then
      var parts := PyStr.Split(contract, '.');
      if |parts| != 2 then Err(ValueError)
      else
        PyStr.JoinSplit(contract, '.');
        assert PyStr.Join(parts, ".") == parts[..1][0] + "." + parts[1];
        var ins := Instruments.ParseInstrumentFromContract(parts[0]);
        Ok(Instruments.CodeInfo(parts[1], |parts[0]|, |ins|))
    else Err(ValueError)
  }

  /** `fix_contract_id(contract, contract_type, trade_date)` as written:
      only an exchange reading "CZC" is fixed, and only when at most three
      characters follow the instrument prefix. A vanilla id's exchange is
      the table's full exchange id, which `get_exchange_id_eng` spells
      "CZCE", so vanilla ids are never fixed. */
  function FixContractIdAsWritten(table: Table, contract: string, contractType: string, tradeDate: string): (r: Result<string>)
    ensures ReadCode(table, contract, contractType).Err? ==> r == Err(ReadCode(table, contract, contractType).error)
    ensures ReadCode(table, contract, contractType).Ok? && ReadCode(table, contract, contractType).value.exchange != "CZC" ==> r == Ok(contract)
  {
    var info :- ReadCode(table, contract, contractType);
    if info.exchange != "CZC" then Ok(contract)
    else if info.lenCid - info.lenInstru > 3 then Ok(contract)
    else Instruments.InsertDecade(contract, info.lenInstru, tradeDate)
  }

  /** The Zhengzhou exchange as each format spells it: the table's full
      id for vanilla ids, the Wind code otherwise. */
  function ZhengzhouCode(contractType: string): string {
    if Instruments.IsFormat(contractType, Instruments.VANILLA) then "CZCE" else "CZC"
  }

  /** `fix_contract_id` as intended: the exchange is compared with the
      format's own spelling of Zhengzhou. Other exchanges, and ids with
      more than three characters after the prefix, are returned
      unchanged; the others get the decade digit inserted. */
  function FixContractId(table: Table, contract: string, contractType: string, tradeDate: string): (r: Result<string>)
    ensures ReadCode(table, contract, contractType).Err? ==> r == Err(ReadCode(table, contract, contractType).error)
    ensures ReadCode(table, contract, contractType).Ok? ==>
      var info := ReadCode(table, contract, contractType).value;
      (info.exchange != ZhengzhouCode(contractType) || info.lenCid - info.lenInstru > 3 ==> r == Ok(contract)) &&
      (info.exchange == ZhengzhouCode(contractType) && info.lenCid - info.lenInstru <= 3 ==>
        r == Instruments.InsertDecade(contract, info.lenInstru, tradeDate))
  {
    var info :- ReadCode(table, contract, contractType);
    if info.exchange != ZhengzhouCode(contractType) then Ok(contract)
    else if info.lenCid - info.lenInstru > 3 then Ok(contract)
    else Instruments.InsertDecade(contract, info.lenInstru, tradeDate)
  }

  /** Both readings agree on Wind ids. */
  lemma FixContractIdWindAgrees(table: Table, contract: string, tradeDate: string)
    ensures FixContractIdAsWritten(table, contract, "WIND", tradeDate) == FixContractId(table, contract, "WIND", tradeDate)
  {
    assert !Instruments.IsFormat("WIND", Instruments.VANILLA);
  }

  /** "MA105" of a Zhengzhou instrument, traded on 2020-12-01: as written
      it comes back unchanged, where the intended fix gives "MA2105". */
  lemma VanillaFixExample(table: Table)
    requires "MA" in table && table["MA"].exchangeId == "CZCE"
    ensures FixContractIdAsWritten(table, "MA105", "VANILLA", "20201201") == Ok("MA105")
    ensures FixContractId(table, "MA105", "VANILLA", "20201201") == Ok("MA2105")
  {
    assert Instruments.IsFormat("VANILLA", Instruments.VANILLA);
    Instruments.ParseInstrumentOfCode("MA", "105");
    assert "MA105" == "MA" + "105";
    assert ReadCode(table, "MA105", "VANILLA") == Ok(Instruments.CodeInfo("CZCE", 5, 2));
    assert Instruments.DigitAt("20201201", 2) == Ok(2) && Instruments.DigitAt("20201201", 3) == Ok(0);
    assert Instruments.DigitAt("MA105", 2) == Ok(1);
    assert PyStr.NatToDecimal(2) == "2";
    assert PyStr.Slice("MA105", 0, 2) == "MA" && "MA105"[2..] == "105";
    assert Instruments.InsertDecade("MA105", 2, "20201201") == Ok("MA" + "2" + "105");
    assert "MA" + "2" + "105" == "MA2105";
  }

  /** A Wind id with a four-digit year is kept: "MA1105.CZC". */
  lemma WindFourDigitKept(table: Table, tradeDate: string)
    ensures FixContractId(table, "MA1105.CZC", "WIND", tradeDate) == Ok("MA1105.CZC")
  {
    assert !Instruments.IsFormat("WIND", Instruments.VANILLA);
    Instruments.ParseInstrumentOfCode("MA", "1105");
    assert "MA1105" == "MA" + "1105";
    assert "MA1105.CZC" == "MA1105" + "." + "CZC";
    ReadWindCode(table, "MA1105", "CZC");
    assert ZhengzhouCode("WIND") == "CZC";
  }

  /** How the fix reads a Wind id: its code, the code part's length and
      that of its instrument prefix. */
  lemma ReadWindCode(table: Table, cid: string, code: string)
    requires forall i :: 0 <= i < |cid| ==> cid[i] != '.'
    requires forall i :: 0 <= i < |code| ==> code[i] != '.'
    ensures ReadCode(table, cid + "." + code, "WIND") ==
      Ok(Instruments.CodeInfo(code, |cid|, |Instruments.ParseInstrumentFromContract(cid)|))
  {
    assert !Instruments.IsFormat("WIND", Instruments.VANILLA);
    assert Instruments.IsFormat("WIND", Instruments.WIND);
    WindPair(cid, code);
  }
}
