/**
 * The slice of Python's `str` behaviour the modelled code relies on:
 * ordering (`<` compares code points lexicographically), `split`/`join`,
 * ASCII case mapping, digit handling, and `str(n)` / `f"{n:0Wd}"` formatting.
 */
module PyStr {

  import opened Wrappers

  /* ---------------------------------------------------------------- order */

  /** Python's `a < b` on strings. */
  predicate Less(a: string, b: string)
    decreases |a|
  {
    if |a| == 0 then |b| > 0
    else if |b| == 0 then false
    else if a[0] != b[0] then a[0] < b[0]
    else Less(a[1..], b[1..])
  }

  /** Python's `a <= b` on strings. */
  predicate LessEq(a: string, b: string) {
    a == b || Less(a, b)
  }

  lemma {:induction false} LessIrreflexive(a: string)
    ensures !Less(a, a)
    decreases |a|
  {
    if |a| > 0 {
      LessIrreflexive(a[1..]);
    }
  }

  lemma {:induction false} LessTransitive(a: string, b: string, c: string)
    requires Less(a, b) && Less(b, c)
    ensures Less(a, c)
    decreases |a|
  {
    if |a| > 0 && a[0] == b[0] && b[0] == c[0] {
      LessTransitive(a[1..], b[1..], c[1..]);
    }
  }

  /** The order is total: two different strings are ordered one way. */
  lemma {:induction false} LessTotal(a: string, b: string)
    ensures a == b || Less(a, b) || Less(b, a)
    decreases |a|
  {
    if |a| > 0 && |b| > 0 && a[0] == b[0] {
      LessTotal(a[1..], b[1..]);
      if a[1..] == b[1..] {
        assert a == [a[0]] + a[1..] && b == [b[0]] + b[1..];
      }
    }
  }

  lemma {:induction false} LessAsymmetric(a: string, b: string)
    requires Less(a, b)
    ensures !Less(b, a)
  {
    if Less(b, a) {
      LessTransitive(a, b, a);
      LessIrreflexive(a);
    }
  }

  /** The order is total: `y <= x` exactly when not `x < y`. */
  lemma NotLessIsLessEq(x: string, y: string)
    ensures LessEq(y, x) <==> !Less(x, y)
  {
    LessTotal(x, y);
    LessIrreflexive(x);
    if Less(x, y) {
      LessAsymmetric(x, y);
    }
  }

  lemma LessEqTransitive(a: string, b: string, c: string)
    requires LessEq(a, b) && LessEq(b, c)
    ensures LessEq(a, c)
  {
    if Less(a, b) && Less(b, c) {
      LessTransitive(a, b, c);
    }
  }

  /** Comparing two strings that start with prefixes of equal length: the
      prefixes decide unless they are equal, then the rests decide. This is
      why "date-tag" identifiers sort by date first. */
  lemma {:induction false} LessConcat(a: string, x: string, b: string, y: string)
    requires |a| == |b|
    ensures Less(a + x, b + y) <==> Less(a, b) || (a == b && Less(x, y))
    decreases |a|
  {
    if |a| == 0 {
      assert a + x == x && b + y == y;
    } else {
      assert (a + x)[0] == a[0] && (b + y)[0] == b[0];
      assert (a + x)[1..] == a[1..] + x;
      assert (b + y)[1..] == b[1..] + y;
      LessConcat(a[1..], x, b[1..], y);
      if a[0] == b[0] && a[1..] == b[1..] {
        assert a == [a[0]] + a[1..] && b == [b[0]] + b[1..];
      }
    }
  }

  /** A strictly increasing sequence of strings. */
  predicate StrictlySorted(s: seq<string>) {
    forall i, j {:trigger Less(s[i], s[j])} :: 0 <= i < j < |s| ==> Less(s[i], s[j])
  }

  /** A slice of a strictly increasing sequence is strictly increasing. */
  lemma StrictlySortedSlice(s: seq<string>, a: nat, b: nat)
    requires StrictlySorted(s) && a <= b <= |s|
    ensures StrictlySorted(s[a..b])
  {
    var t := s[a..b];
    forall i, j | 0 <= i < j < |t| ensures Less(t[i], t[j]) {
      assert t[i] == s[a + i] && t[j] == s[a + j];
    }
  }

  lemma StrictlySortedDistinct(s: seq<string>, i: int, j: int)
    requires StrictlySorted(s)
    requires 0 <= i < |s| && 0 <= j < |s| && i != j
    ensures s[i] != s[j]
  {
    if i < j {
      LessIrreflexive(s[i]);
    } else {
      LessIrreflexive(s[j]);
    }
  }

  lemma SortedTail(s: seq<string>)
    requires StrictlySorted(s) && |s| > 0
    ensures StrictlySorted(s[1..])
  {
    forall i, j | 0 <= i < j < |s| - 1 ensures Less(s[1..][i], s[1..][j]) {
      assert Less(s[i + 1], s[j + 1]);
    }
  }

  /** Putting a string below every element in front keeps the order strict. */
  lemma SortedCons(x: string, s: seq<string>)
    requires StrictlySorted(s) && forall y :: y in s ==> Less(x, y)
    ensures StrictlySorted([x] + s)
  {
    forall i, j | 0 <= i < j < |s| + 1 ensures Less(([x] + s)[i], ([x] + s)[j]) {
      if i > 0 {
        assert Less(s[i - 1], s[j - 1]);
      } else {
        assert s[j - 1] in s;
      }
    }
  }

  /** Increasing between neighbours is increasing throughout. */
  lemma {:induction false} ChainSorted(s: seq<string>)
    requires forall i :: 0 < i < |s| ==> Less(s[i - 1], s[i])
    ensures StrictlySorted(s)
    decreases |s|
  {
    if |s| > 1 {
      var t := s[..|s| - 1];
      assert forall i :: 0 < i < |t| ==> Less(t[i - 1], t[i]);
      ChainSorted(t);
      forall i, j | 0 <= i < j < |s| ensures Less(s[i], s[j]) {
        if j < |s| - 1 {
          assert Less(t[i], t[j]);
        } else if i < j - 1 {
          assert Less(t[i], t[j - 1]);
          LessTransitive(s[i], s[j - 1], s[j]);
        }
      }
    }
  }

  /** Prefix and suffix tests of `str.startswith` / `str.endswith`. */
  predicate StartsWith(s: string, p: string) {
    |p| <= |s| && s[..|p|] == p
  }

  predicate EndsWith(s: string, p: string) {
    |p| <= |s| && s[|s| - |p|..] == p
  }

  /** `s[:n]` for n >= 0: Python clamps a slice at the end of the string. */
  function Take(s: string, n: nat): (r: string)
    ensures |r| == if n <= |s| then n else |s|
    ensures r == s[..|r|]
  {
    if n <= |s| then s[..n] else s
  }

  /** `s[a:b]` for 0 <= a, b: both bounds clamp, an inverted range is empty. */
  function Slice(s: string, a: nat, b: nat): (r: string)
    ensures a <= b <= |s| ==> r == s[a..b]
    ensures b <= a || |s| <= a ==> r == []
  {
    var hi := if b <= |s| then b else |s|;
    if a < hi then s[a..hi] else []
  }

  /* --------------------------------------------------------------- digits */

  predicate IsDigit(c: char) {
    '0' <= c <= '9'
  }

  predicate IsAsciiLetter(c: char) {
    ('a' <= c <= 'z') || ('A' <= c <= 'Z')
  }

  predicate AllDigits(s: string) {
    forall i :: 0 <= i < |s| ==> IsDigit(s[i])
  }

  function DigitValue(c: char): (d: nat)
    requires IsDigit(c)
    ensures d < 10
  {
    (c as int - '0' as int) as nat
  }

  function DigitChar(d: nat): (c: char)
    requires d < 10
    ensures IsDigit(c) && DigitValue(c) == d
  {
    (d + '0' as int) as char
  }

  /** The value of a string of decimal digits, most significant first. */
  function DecimalValue(s: string): (n: nat)
    requires AllDigits(s)
    decreases |s|
  {
    if |s| == 0 then 0 else DecimalValue(s[..|s| - 1]) * 10 + DigitValue(s[|s| - 1])
  }

  /** `str(n)` for a natural number: no leading zero except "0" itself. */
  function NatToDecimal(n: nat): (s: string)
    ensures |s| > 0 && AllDigits(s)
    ensures |s| > 1 ==> s[0] != '0'
    ensures DecimalValue(s) == n
    decreases n
  {
    if n < 10 then [DigitChar(n)]
    else
      var p := NatToDecimal(n / 10);
      var s := p + [DigitChar(n % 10)];
      assert s[..|s| - 1] == p;
      s
  }

  /** `str(n)` for any integer. */
  function IntToDecimal(n: int): (s: string)
    ensures n >= 0 ==> s == NatToDecimal(n)
    ensures n < 0 ==> s == "-" + NatToDecimal(-n)
  {
    if n >= 0 then NatToDecimal(n) else "-" + NatToDecimal(-n)
  }

  /** `f"{n:0{w}d}"`: decimal digits left-padded with zeros to width `w`,
      the sign counting towards the width. */
  function ZeroPadded(n: int, w: nat): (s: string)
    ensures |s| >= w
    ensures |IntToDecimal(n)| >= w ==> s == IntToDecimal(n)
  {
    var digits := NatToDecimal(if n >= 0 then n else -n);
    var sign := if n >= 0 then "" else "-";
    var pad := if |sign| + |digits| < w then w - |sign| - |digits| else 0;
    sign + Zeros(pad) + digits
  }

  function Zeros(k: nat): (s: string)
    ensures |s| == k && AllDigits(s)
    ensures forall i :: 0 <= i < k ==> s[i] == '0'
  {
    if k == 0 then [] else Zeros(k - 1) + ['0']
  }

  /** Leading zeros do not change a decimal value. */
  lemma {:induction false} DecimalValueZerosPrefix(k: nat, s: string)
    requires AllDigits(s)
    ensures AllDigits(Zeros(k) + s)
    ensures DecimalValue(Zeros(k) + s) == DecimalValue(s)
    decreases |s|
  {
    var z := Zeros(k);
    assert AllDigits(z + s) by {
      forall i | 0 <= i < |z + s| ensures IsDigit((z + s)[i]) {
        if i < |z| { assert (z + s)[i] == z[i]; } else { assert (z + s)[i] == s[i - |z|]; }
      }
    }
    if |s| == 0 {
      assert z + s == z;
      ZerosValue(k);
    } else {
      var t := s[..|s| - 1];
      assert (z + s)[..|z + s| - 1] == z + t;
      DecimalValueZerosPrefix(k, t);
    }
  }

  lemma {:induction false} ZerosValue(k: nat)
    ensures DecimalValue(Zeros(k)) == 0
    decreases k
  {
    if k > 0 {
      var z := Zeros(k);
      assert z[..k - 1] == Zeros(k - 1) && DigitValue(z[k - 1]) == 0;
      ZerosValue(k - 1);
      assert DecimalValue(z) == DecimalValue(z[..k - 1]) * 10 + DigitValue(z[k - 1]);
    }
  }

  function Pow10(k: nat): (p: nat)
    ensures p >= 1
  {
    if k == 0 then 1 else 10 * Pow10(k - 1)
  }

  /** `str(n)` has at most k digits when n < 10^k. */
  lemma {:induction false} NatToDecimalLength(n: nat, k: nat)
    requires 0 < k && n < Pow10(k)
    ensures |NatToDecimal(n)| <= k
    decreases k
  {
    if n >= 10 {
      NatToDecimalLength(n / 10, k - 1);
    }
  }

  /** A string of k digits has a value below 10^k. */
  lemma {:induction false} DecimalValueBound(s: string)
    requires AllDigits(s)
    ensures DecimalValue(s) < Pow10(|s|)
    decreases |s|
  {
    if |s| > 0 {
      DecimalValueBound(s[..|s| - 1]);
    }
  }

  /** A number below 10^w padded to width w is w digits carrying its value. */
  lemma ZeroPaddedFits(n: nat, w: nat)
    requires 0 < w && n < Pow10(w)
    ensures |ZeroPadded(n, w)| == w && AllDigits(ZeroPadded(n, w))
    ensures DecimalValue(ZeroPadded(n, w)) == n
  {
    var digits := NatToDecimal(n);
    NatToDecimalLength(n, w);
    DecimalValueZerosPrefix(w - |digits|, digits);
    assert ZeroPadded(n, w) == Zeros(w - |digits|) + digits;
  }

  /** The unsigned part of `f"{n:0{w}d}"`: digits carrying |n|. */
  lemma ZeroPaddedMagnitude(n: int, w: nat)
    ensures var digits := NatToDecimal(if n >= 0 then n else -n);
      var pad := ZeroPadded(n, w)[if n >= 0 then 0 else 1..];
      && ZeroPadded(n, w) == (if n >= 0 then "" else "-") + pad
      && |pad| > 0 && AllDigits(pad) && DecimalValue(pad) == (if n >= 0 then n else -n)
    ensures |ZeroPadded(n, w)| > 0 && (ZeroPadded(n, w)[0] == '-' <==> n < 0)
  {
    var digits := NatToDecimal(if n >= 0 then n else -n);
    var sign := if n >= 0 then "" else "-";
    var pad := if |sign| + |digits| < w then w - |sign| - |digits| else 0;
    var body := Zeros(pad) + digits;
    assert ZeroPadded(n, w) == sign + body;
    assert AllDigits(body) && DecimalValue(body) == (if n >= 0 then n else -n) by {
      DecimalValueZerosPrefix(pad, digits);
    }
    SignedDigits(sign, body);
  }

  /** A sign of "" or "-" in front of a digit run is told apart by its
      first character and cut off again by its length. */
  lemma SignedDigits(sign: string, d: string)
    requires sign == "" || sign == "-"
    requires |d| > 0 && AllDigits(d)
    ensures (sign + d)[|sign|..] == d
    ensures |sign + d| > 0 && ((sign + d)[0] == '-' <==> sign == "-")
  {
    assert IsDigit(d[0]);
  }

  /** Zero-padded decimal text names one integer. */
  lemma ZeroPaddedInjective(a: int, b: int, w: nat)
    requires ZeroPadded(a, w) == ZeroPadded(b, w)
    ensures a == b
  {
    ZeroPaddedMagnitude(a, w);
    ZeroPaddedMagnitude(b, w);
    assert (a < 0) == (b < 0);
  }

  lemma DecimalValueLast(s: string)
    requires AllDigits(s) && |s| > 0
    ensures DecimalValue(s) / 10 == DecimalValue(s[..|s| - 1])
    ensures DecimalValue(s) % 10 == DigitValue(s[|s| - 1])
  {
  }

  /** Two digit strings of one length with one value are the same string:
      fixed-width decimal text is unambiguous. */
  lemma {:induction false} DecimalValueInjective(a: string, b: string)
    requires AllDigits(a) && AllDigits(b) && |a| == |b|
    requires DecimalValue(a) == DecimalValue(b)
    ensures a == b
    decreases |a|
  {
    if |a| > 0 {
      var n := |a| - 1;
      DecimalValueSplit(a, b);
      DecimalValueInjective(a[..n], b[..n]);
      assert a == a[..n] + [a[n]];
      assert b == b[..n] + [b[n]];
    }
  }

  /** The one step of the injectivity proof: equal values agree on the
      last digit and on the value of everything before it. */
  lemma DecimalValueSplit(a: string, b: string)
    requires AllDigits(a) && AllDigits(b) && |a| == |b| > 0
    requires DecimalValue(a) == DecimalValue(b)
    ensures DecimalValue(a[..|a| - 1]) == DecimalValue(b[..|b| - 1])
    ensures a[|a| - 1] == b[|b| - 1]
  {
    DecimalValueLast(a);
    DecimalValueLast(b);
    DigitValueInjective(a[|a| - 1], b[|b| - 1]);
  }

  lemma DigitValueInjective(c: char, d: char)
    requires IsDigit(c) && IsDigit(d) && DigitValue(c) == DigitValue(d)
    ensures c == d
  {
  }

  /** Python's `int(s)` restricted to an unsigned run of ASCII digits; any
      other text is rejected with ValueError. */
  function ParseNat(s: string): (r: Result<nat>)
    ensures r.Ok? <==> |s| > 0 && AllDigits(s)
    ensures r.Ok? ==> r.value == DecimalValue(s)
    ensures r.Err? ==> r.error == ValueError
  {
    if |s| > 0 && AllDigits(s) then Ok(DecimalValue(s)) else Err(ValueError)
  }

  /** `int(str(n)) == n`. */
  lemma ParseNatToDecimal(n: nat)
    ensures ParseNat(NatToDecimal(n)) == Ok(n)
  {
  }

  /* ------------------------------------------------------------- case */

  function UpperChar(c: char): char {
    if 'a' <= c <= 'z' then (c as int - 32) as char else c
  }

  function LowerChar(c: char): char {
    if 'A' <= c <= 'Z' then (c as int + 32) as char else c
  }

  /** `s.upper()` on ASCII letters; other characters are kept. */
  function Upper(s: string): (r: string)
    ensures |r| == |s|
    ensures forall i :: 0 <= i < |s| ==> r[i] == UpperChar(s[i])
  {
    seq(|s|, i requires 0 <= i < |s| => UpperChar(s[i]))
  }

  /** `s.lower()` on ASCII letters; other characters are kept. */
  function Lower(s: string): (r: string)
    ensures |r| == |s|
    ensures forall i :: 0 <= i < |s| ==> r[i] == LowerChar(s[i])
  {
    seq(|s|, i requires 0 <= i < |s| => LowerChar(s[i]))
  }

  /* --------------------------------------------------------- characters */

  /** Number of occurrences of `c` in `s`. */
  function Count(s: string, c: char): (n: nat)
    ensures n <= |s|
  {
    if |s| == 0 then 0 else Count(s[..|s| - 1], c) + (if s[|s| - 1] == c then 1 else 0)
  }

  lemma {:induction false} CountConcat(a: string, b: string, c: char)
    ensures Count(a + b, c) == Count(a, c) + Count(b, c)
    decreases |b|
  {
    if |b| == 0 {
      assert a + b == a;
    } else {
      assert (a + b)[..|a + b| - 1] == a + b[..|b| - 1];
      CountConcat(a, b[..|b| - 1], c);
    }
  }

  lemma {:induction false} CountAbsent(s: string, c: char)
    requires forall i :: 0 <= i < |s| ==> s[i] != c
    ensures Count(s, c) == 0
    decreases |s|
  {
    if |s| > 0 {
      CountAbsent(s[..|s| - 1], c);
    }
  }

  /** The characters of `s` that are not `c`, in order (`s.replace(c, "")`). */
  function Without(s: string, c: char): (r: string)
    ensures |r| + Count(s, c) == |s|
    ensures forall i :: 0 <= i < |r| ==> r[i] != c
  {
    if |s| == 0 then []
    else
      var p := Without(s[..|s| - 1], c);
      if s[|s| - 1] == c then p else p + [s[|s| - 1]]
  }

  lemma {:induction false} WithoutConcat(a: string, b: string, c: char)
    ensures Without(a + b, c) == Without(a, c) + Without(b, c)
    decreases |b|
  {
    if |b| == 0 {
      assert a + b == a;
    } else {
      assert (a + b)[..|a + b| - 1] == a + b[..|b| - 1];
      WithoutConcat(a, b[..|b| - 1], c);
    }
  }

  lemma {:induction false} WithoutAbsent(s: string, c: char)
    requires forall i :: 0 <= i < |s| ==> s[i] != c
    ensures Without(s, c) == s
    decreases |s|
  {
    if |s| > 0 {
      WithoutAbsent(s[..|s| - 1], c);
    }
  }

  /* --------------------------------------------------------- split/join */

  /** `sep.join(parts)`. */
  function Join(parts: seq<string>, sep: string): (r: string)
    decreases |parts|
  {
    if |parts| == 0 then []
    else if |parts| == 1 then parts[0]
    else Join(parts[..|parts| - 1], sep) + sep + parts[|parts| - 1]
  }

  /** `s.split(c)` for a one-character separator: the pieces between the
      occurrences of `c`, so there is one more piece than separators. */
  function Split(s: string, c: char): (parts: seq<string>)
    ensures |parts| == Count(s, c) + 1
    ensures forall k, i :: 0 <= k < |parts| && 0 <= i < |parts[k]| ==> parts[k][i] != c
    decreases |s|
  {
    if |s| == 0 then [[]]
    else
      var p := Split(s[..|s| - 1], c);
      if s[|s| - 1] == c then p + [[]]
      else p[..|p| - 1] + [p[|p| - 1] + [s[|s| - 1]]]
  }

  /** Appending a character to the last piece appends it to the join. */
  lemma JoinExtendLast(p: seq<string>, sep: string, ch: char)
    requires |p| > 0
    ensures Join(p[..|p| - 1] + [p[|p| - 1] + [ch]], sep) == Join(p, sep) + [ch]
  {
    var q := p[..|p| - 1] + [p[|p| - 1] + [ch]];
    if |p| > 1 {
      assert q[..|q| - 1] == p[..|p| - 1];
    }
  }

  /** Splitting and joining on the same separator gives the string back. */
  lemma {:induction false} JoinSplit(s: string, c: char)
    ensures Join(Split(s, c), [c]) == s
    decreases |s|
  {
    if |s| > 0 {
      var t := s[..|s| - 1];
      var p := Split(t, c);
      JoinSplit(t, c);
      assert s == t + [s[|s| - 1]];
      if s[|s| - 1] == c {
        assert (p + [[]])[..|p|] == p;
      } else {
        JoinExtendLast(p, [c], s[|s| - 1]);
      }
    }
  }

  /** A string without the separator splits into itself alone. */
  lemma {:induction false} SplitAbsent(s: string, c: char)
    requires forall i :: 0 <= i < |s| ==> s[i] != c
    ensures Split(s, c) == [s]
    decreases |s|
  {
    if |s| > 0 {
      SplitAbsent(s[..|s| - 1], c);
      assert s[..|s| - 1] + [s[|s| - 1]] == s;
    }
  }

  /** `a + [c] + b` splits at that `c` when `b` holds no `c`. */
  lemma {:induction false} SplitLast(a: string, c: char, b: string)
    requires forall i :: 0 <= i < |b| ==> b[i] != c
    ensures Split(a + [c] + b, c) == Split(a, c) + [b]
    decreases |b|
  {
    if |b| == 0 {
      assert (a + [c] + b)[..|a + [c] + b| - 1] == a;
      assert a + [c] + b == a + [c];
    } else {
      var b' := b[..|b| - 1];
      var s := a + [c] + b;
      assert s[..|s| - 1] == a + [c] + b';
      assert s[|s| - 1] == b[|b| - 1] != c;
      SplitLast(a, c, b');
      var p := Split(a + [c] + b', c);
      assert p[..|p| - 1] == Split(a, c);
      assert p[|p| - 1] + [b[|b| - 1]] == b;
      assert Split(s, c) == p[..|p| - 1] + [p[|p| - 1] + [s[|s| - 1]]];
    }
  }

  /** The text after the last `c` in `s` (all of `s` when there is none):
      the longest suffix of `s` without `c`. */
  /** A suffix of all but the last character, with that character added,
      is a suffix. */
  lemma AppendLast(s: string, p: string)
    requires |s| > 0 && EndsWith(s[..|s| - 1], p)
    ensures EndsWith(s, p + [s[|s| - 1]])
  {
    var t := s[..|s| - 1];
    assert s[|s| - |p| - 1..] == t[|t| - |p|..] + [s[|s| - 1]];
  }

  function AfterLast(s: string, c: char): (r: string)
    ensures EndsWith(s, r)
    ensures forall i :: 0 <= i < |r| ==> r[i] != c
    ensures |r| < |s| ==> s[|s| - |r| - 1] == c
    decreases |s|
  {
    if |s| == 0 then []
    else if s[|s| - 1] == c then []
    else
      var t := s[..|s| - 1];
      var p := AfterLast(t, c);
      var r := p + [s[|s| - 1]];
      AppendLast(s, p);
      r
  }

  /** `s.split(c)[-1]` is the text after the last `c`. */
  lemma {:induction false} SplitLastPiece(s: string, c: char)
    ensures Split(s, c)[|Split(s, c)| - 1] == AfterLast(s, c)
    decreases |s|
  {
    if |s| > 0 && s[|s| - 1] != c {
      SplitLastPiece(s[..|s| - 1], c);
    }
  }

  /* --------------------------------------------------------------- digits */

  /** `re.sub("[0-9]", "", s)`: the characters of `s` other than ASCII
      digits, in order. */
  function StripDigits(s: string): (r: string)
    ensures |r| <= |s|
    ensures forall i :: 0 <= i < |r| ==> !IsDigit(r[i])
    decreases |s|
  {
    if |s| == 0 then []
    else
      var p := StripDigits(s[..|s| - 1]);
      if IsDigit(s[|s| - 1]) then p else p + [s[|s| - 1]]
  }

  /** Stripping works piece by piece. */
  lemma {:induction false} StripDigitsConcat(a: string, b: string)
    ensures StripDigits(a + b) == StripDigits(a) + StripDigits(b)
    decreases |b|
  {
    if |b| == 0 {
      assert a + b == a;
    } else {
      assert (a + b)[..|a + b| - 1] == a + b[..|b| - 1];
      StripDigitsConcat(a, b[..|b| - 1]);
    }
  }

  /** A string without digits is kept whole. */
  lemma {:induction false} StripDigitsNone(s: string)
    requires forall i :: 0 <= i < |s| ==> !IsDigit(s[i])
    ensures StripDigits(s) == s
    decreases |s|
  {
    if |s| > 0 {
      StripDigitsNone(s[..|s| - 1]);
    }
  }

  /** A string of digits vanishes. */
  lemma {:induction false} StripDigitsAll(s: string)
    requires AllDigits(s)
    ensures StripDigits(s) == []
    decreases |s|
  {
    if |s| > 0 {
      StripDigitsAll(s[..|s| - 1]);
    }
  }

  /** Upper-casing keeps every character that is not a letter out of a
      string that did not hold it. */
  lemma UpperAvoids(s: string, c: char)
    requires !('a' <= c <= 'z') && !('A' <= c <= 'Z') && forall i :: 0 <= i < |s| ==> s[i] != c
    ensures forall i :: 0 <= i < |Upper(s)| ==> Upper(s)[i] != c
  {
  }

  /** Lower-casing an upper-cased string with no upper-case letters gives
      it back. */
  lemma LowerUpper(s: string)
    requires Lower(s) == s
    ensures Lower(Upper(s)) == s
  {
    var u := Upper(s);
    forall i | 0 <= i < |s| ensures Lower(u)[i] == s[i] {
      assert LowerChar(s[i]) == Lower(s)[i];
      assert u[i] == UpperChar(s[i]);
    }
  }

  /** Occurrences of `c` over all the parts. */
  function CountAll(parts: seq<string>, c: char): nat
    decreases |parts|
  {
    if |parts| == 0 then 0 else CountAll(parts[..|parts| - 1], c) + Count(parts[|parts| - 1], c)
  }

  /** Joining adds one copy of the separator between neighbouring parts. */
  lemma {:induction false} CountJoin(parts: seq<string>, sep: string, c: char)
    requires |parts| > 0
    ensures Count(Join(parts, sep), c) == CountAll(parts, c) + (|parts| - 1) * Count(sep, c)
    decreases |parts|
  {
    if |parts| > 1 {
      var init := parts[..|parts| - 1];
      CountJoin(init, sep, c);
      CountConcat(Join(init, sep), sep, c);
      CountConcat(Join(init, sep) + sep, parts[|parts| - 1], c);
    }
  }
}
