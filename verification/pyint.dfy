/**
 * Python's `int(s, base)` on text, for base 10 and base 16: surrounding
 * whitespace is ignored, one sign is allowed, digits may be separated by
 * single underscores, and base 16 accepts a "0x" prefix. Anything else
 * raises ValueError.
 */
module PyInt {

  import opened Wrappers
  import opened PyStr

  /** The ASCII whitespace characters `int()` strips. */
  predicate IsSpace(c: char) {
    c == ' ' || c == '\t' || c == '\n' || c == '\r' || c == '\U{0B}' || c == '\U{0C}'
  }

  /** `s.strip()` for ASCII whitespace. */
  function StripSpaces(s: string): (r: string)
    ensures |r| <= |s|
    ensures |r| > 0 ==> !IsSpace(r[0]) && !IsSpace(r[|r| - 1])
    ensures |s| > 0 && !IsSpace(s[0]) && !IsSpace(s[|s| - 1]) ==> r == s
    decreases |s|
  {
    if |s| == 0 then s
    else if IsSpace(s[0]) then StripSpaces(s[1..])
    else if IsSpace(s[|s| - 1]) then StripSpaces(s[..|s| - 1])
    else s
  }

  /** The value of a digit in the given base, None when it is no digit. */
  function DigitOf(c: char, base: nat): (d: Option<nat>)
    ensures d.Some? ==> d.value < base
  {
    var v := if '0' <= c <= '9' then c as int - '0' as int
             else if 'a' <= c <= 'z' then c as int - 'a' as int + 10
             else if 'A' <= c <= 'Z' then c as int - 'A' as int + 10
             else base;
    if 0 <= v < base then Some(v as nat) else None
  }

  /** Digits of `base`, where an underscore may stand only between two
      digits. */
  predicate Run(d: string, base: nat) {
    |d| > 0 && forall i :: 0 <= i < |d| ==> RunChar(d, i, base)
  }

  /** Character i of a run: a digit, or an underscore between two digits. */
  predicate RunChar(d: string, i: nat, base: nat)
    requires i < |d|
  {
    DigitOf(d[i], base).Some? || (d[i] == '_' && 0 < i < |d| - 1 && DigitOf(d[i + 1], base).Some?)
  }

  /** A run opens with a digit. */
  lemma RunStartsWithDigit(d: string, base: nat)
    ensures Run(d, base) ==> DigitOf(d[0], base).Some?
  {
    if Run(d, base) {
      assert RunChar(d, 0, base);
    }
  }

  /** The value of a run, underscores skipped. */
  function RunValue(d: string, base: nat): nat
    decreases |d|
  {
    if |d| == 0 then 0
    else
      var v := DigitOf(d[|d| - 1], base);
      if v.None? then RunValue(d[..|d| - 1], base)
      else RunValue(d[..|d| - 1], base) * base + v.value
  }

  /** After the sign: the digits, with a base 16 "0x" prefix removed (an
      underscore may follow the prefix). */
  function Digits(u: string, base: nat): string {
    if base == 16 && |u| >= 2 && u[0] == '0' && (u[1] == 'x' || u[1] == 'X') then
      var d := u[2..];
      if |d| > 0 && d[0] == '_' then d[1..] else d
    else u
  }

  /** `int(s, base)`. */
  function ParseInt(s: string, base: nat): (r: Result<int>)
    requires base == 10 || base == 16
    ensures r.Err? ==> r.error == ValueError
  {
    var t := StripSpaces(s);
    var signed := |t| > 0 && (t[0] == '-' || t[0] == '+');
    var u := if signed then t[1..] else t;
    var d := Digits(u, base);
    if !Run(d, base) then Err(ValueError)
    else if signed && t[0] == '-' then Ok(-(RunValue(d, base) as int))
    else Ok(RunValue(d, base))
  }

  /** For ASCII digits the run value is the decimal value. */
  lemma {:induction false} RunValueDecimal(s: string)
    requires AllDigits(s)
    ensures RunValue(s, 10) == DecimalValue(s)
    decreases |s|
  {
    if |s| > 0 {
      RunValueDecimal(s[..|s| - 1]);
    }
  }

  /** `int(s)` of plain ASCII digits is their decimal value. */
  lemma ParseIntDigits(s: string)
    requires |s| > 0 && AllDigits(s)
    ensures ParseInt(s, 10) == Ok(DecimalValue(s) as int)
  {
    DigitsRun(s);
    assert StripSpaces(s) == s by {
      assert IsDigit(s[0]) && IsDigit(s[|s| - 1]);
    }
  }

  /** `int("-" + s)` of plain ASCII digits is their negated value. */
  lemma ParseIntNegated(s: string)
    requires |s| > 0 && AllDigits(s)
    ensures ParseInt("-" + s, 10) == Ok(-(DecimalValue(s) as int))
  {
    DigitsRun(s);
    var t := "-" + s;
    assert StripSpaces(t) == t by {
      assert IsDigit(s[|s| - 1]) && t[|t| - 1] == s[|s| - 1];
    }
    assert t[1..] == s;
  }

  /** `int(" " + s)`: leading whitespace is ignored. */
  lemma ParseIntPadded(s: string)
    requires |s| > 0 && AllDigits(s)
    ensures ParseInt(" " + s, 10) == Ok(DecimalValue(s) as int)
  {
    ParseIntDigits(s);
    var t := " " + s;
    assert t[1..] == s;
    assert StripSpaces(s) == s by {
      assert IsDigit(s[0]) && IsDigit(s[|s| - 1]);
    }
    assert StripSpaces(t) == StripSpaces(s);
  }

  /** Plain ASCII digits form a run whose value is their decimal value. */
  lemma DigitsRun(s: string)
    requires |s| > 0 && AllDigits(s)
    ensures Run(s, 10) && RunValue(s, 10) == DecimalValue(s)
  {
    forall i | 0 <= i < |s| ensures RunChar(s, i, 10) {
      assert IsDigit(s[i]);
    }
    RunValueDecimal(s);
  }

  /** `int(str(n)) == n` for every integer n. */
  lemma ParseIntDecimal(n: int)
    ensures ParseInt(IntToDecimal(n), 10) == Ok(n)
  {
    var digits := NatToDecimal(if n >= 0 then n else -n);
    var s := IntToDecimal(n);
    assert !IsSpace(s[0]) && !IsSpace(s[|s| - 1]);
    var u := if n < 0 then s[1..] else s;
    assert u == digits;
    assert Run(digits, 10) by {
      forall i | 0 <= i < |digits| ensures RunChar(digits, i, 10) {
        assert IsDigit(digits[i]);
      }
    }
    RunValueDecimal(digits);
  }

  /** The lower-case hex digit of a value below 16. */
  function HexChar(v: nat): (c: char)
    requires v < 16
    ensures DigitOf(c, 16) == Some(v)
  {
    if v < 10 then (v + '0' as int) as char else (v - 10 + 'a' as int) as char
  }

  /** Two lower-case hex digits, as in "#5d432c". */
  function Hex2(v: nat): (s: string)
    requires v < 256
    ensures |s| == 2
  {
    [HexChar(v / 16), HexChar(v % 16)]
  }

  /** Two digits of a base read as one number: the first counts `base`
      times. */
  lemma RunValueTwo(s: string, base: nat)
    requires |s| == 2 && DigitOf(s[0], base).Some? && DigitOf(s[1], base).Some?
    ensures Run(s, base)
    ensures RunValue(s, base) == DigitOf(s[0], base).value * base + DigitOf(s[1], base).value
  {
    assert RunChar(s, 0, base) && RunChar(s, 1, base);
    var init := s[..1];
    assert init[0] == s[0];
    assert init[..0] == [];
    assert RunValue(init, base) == DigitOf(s[0], base).value;
  }

  /** `int(f"{v:02x}", 16) == v`. */
  lemma ParseHex2(v: nat)
    requires v < 256
    ensures ParseInt(Hex2(v), 16) == Ok(v)
  {
    var s := Hex2(v);
    assert !IsSpace(s[0]) && !IsSpace(s[1]);
    assert StripSpaces(s) == s;
    assert Digits(s, 16) == s by {
      assert DigitOf(s[1], 16).Some?;
    }
    RunValueTwo(s, 16);
  }
}
