/**
 * Small helpers of src/husfort/qutility.py: the print width of a string
 * mixing Chinese and ASCII text, the ANSI colour wrapper, and `batched`.
 */
module Utility {

  import opened Wrappers
  import opened PyStr
  import PySeq

  /* ------------------------------------------------------- mixed width */

  /** `[\da-zA-Z]`: the characters `get_mix_string_len` keeps as narrow.
      Only ASCII digits are modelled. */
  predicate Alnum(c: char) {
    IsDigit(c) || IsAsciiLetter(c)
  }

  /** `re.sub("[\da-zA-Z]", "", s)`. */
  function Rest(s: string): (r: string)
    ensures |r| <= |s|
    ensures forall i :: 0 <= i < |r| ==> !Alnum(r[i])
  {
    if |s| == 0 then []
    else if Alnum(s[|s| - 1]) then Rest(s[..|s| - 1])
    else Rest(s[..|s| - 1]) + [s[|s| - 1]]
  }

  /** `get_mix_string_len(s, expected)`: the format width that makes `s`
      occupy `expected` columns once printed. */
  function MixStringLen(s: string, expected: int): (k: int)
    ensures k >= |s| + |Rest(s)|
    ensures k >= expected - |Rest(s)|
    ensures k == expected - |Rest(s)| || k == |s| + |Rest(s)|
  {
    var n := |Rest(s)|;
    if expected - n >= |s| + n then expected - n else |s| + n
  }

  /** A wide (two-column) character: anything outside ASCII. */
  predicate Wide(c: char) {
    c as int > 0x7F
  }

  /** The columns a string occupies on a terminal. */
  function Columns(s: string): (w: nat)
    ensures w >= |s|
  {
    if |s| == 0 then 0
    else Columns(s[..|s| - 1]) + (if Wide(s[|s| - 1]) then 2 else 1)
  }

  /** `f"{s:k}"`: s padded with spaces on the right to k characters. */
  function PadRight(s: string, k: int): (r: string)
    ensures |r| == if k > |s| then k else |s|
    ensures r[..|s|] == s
    ensures forall i :: |s| <= i < |r| ==> r[i] == ' '
  {
    if k > |s| then s + seq(k - |s|, i => ' ') else s
  }

  lemma {:induction false} ColumnsAppend(a: string, b: string)
    ensures Columns(a + b) == Columns(a) + Columns(b)
    decreases |b|
  {
    if |b| == 0 {
      assert a + b == a;
    } else {
      assert (a + b)[..|a + b| - 1] == a + b[..|b| - 1];
      ColumnsAppend(a, b[..|b| - 1]);
    }
  }

  lemma {:induction false} ColumnsSpaces(n: nat)
    ensures Columns(seq(n, i => ' ')) == n
  {
    if n > 0 {
      assert seq(n, i => ' ')[..n - 1] == seq(n - 1, i => ' ');
      ColumnsSpaces(n - 1);
    }
  }

  /** In a string of ASCII alphanumerics and wide characters, every
      character `get_mix_string_len` removes occupies two columns. */
  lemma {:induction false} ColumnsMixed(s: string)
    requires forall i :: 0 <= i < |s| ==> Alnum(s[i]) || Wide(s[i])
    ensures Columns(s) == |s| + |Rest(s)|
    decreases |s|
  {
    if |s| > 0 {
      ColumnsMixed(s[..|s| - 1]);
    }
  }

  /** The promise of `get_mix_string_len`: padded to the width it returns,
      a mixed string occupies `expected` columns, or, when it is too long
      for that, its own columns plus one space per wide character. */
  lemma MixStringAligns(s: string, expected: int)
    requires forall i :: 0 <= i < |s| ==> Alnum(s[i]) || Wide(s[i])
    ensures var n := |Rest(s)|;
            Columns(PadRight(s, MixStringLen(s, expected))) ==
              if expected >= |s| + 2 * n then expected else |s| + 2 * n
  {
    var k := MixStringLen(s, expected);
    ColumnsMixed(s);
    if k > |s| {
      ColumnsAppend(s, seq(k - |s|, i => ' '));
      ColumnsSpaces(k - |s|);
    }
  }

  /* ----------------------------------------------------------- colours */

  const Esc: char := '\U{1B}'

  /** `SetFontColor(c)(s)`: s between the ANSI select-colour sequence and
      the reset sequence. */
  function SetFontColor(c: string, s: string): (r: string)
    ensures |r| == |c| + |s| + 7
    ensures StartsWith(r, [Esc, '['] + c + "m")
    ensures EndsWith(r, [Esc] + "[0m")
    ensures r[|c| + 3..|r| - 4] == s
  {
    [Esc, '['] + c + "m" + s + [Esc] + "[0m"
  }

  /** The colour code and the text can be read back from the wrapped
      string when the code holds no 'm'. */
  lemma SetFontColorUnwrap(c: string, s: string, c': string, s': string)
    requires 'm' !in c && 'm' !in c'
    requires SetFontColor(c, s) == SetFontColor(c', s')
    ensures c == c' && s == s'
  {
    var r := SetFontColor(c, s);
    CodeEndsAtM(c, s);
    CodeEndsAtM(c', s');
    assert c == r[2..|c| + 2] == c';
  }

  /** The first 'm' after the escape opens the text. */
  lemma CodeEndsAtM(c: string, s: string)
    requires 'm' !in c
    ensures PySeq.IndexOf(SetFontColor(c, s)[2..], 'm') == Ok(|c|)
  {
    var t := SetFontColor(c, s)[2..];
    assert t[..|c|] == c;
    assert t[|c|] == 'm';
  }

  const Red := "0;31;40"
  const Green := "0;32;40"
  const Yellow := "0;33;40"
  const Blue := "0;34;40"
  const Magenta := "0;35;40"
  const Cyan := "0;36;40"
  const White := "0;37;40"

  /* ----------------------------------------------------------- batched */

  /** Concatenation of a list of pieces. */
  function Flatten<T>(pieces: seq<seq<T>>): seq<T> {
    if |pieces| == 0 then [] else Flatten(pieces[..|pieces| - 1]) + pieces[|pieces| - 1]
  }

  lemma {:induction false} FlattenCons<T>(p: seq<T>, rest: seq<seq<T>>)
    ensures Flatten([p] + rest) == p + Flatten(rest)
    decreases |rest|
  {
    if |rest| > 0 {
      assert ([p] + rest)[..|rest|] == [p] + rest[..|rest| - 1];
      FlattenCons(p, rest[..|rest| - 1]);
    }
  }

  /** The pieces of at most n items that `batched` yields for n > 0. */
  function Chunks<T>(xs: seq<T>, n: nat): (r: seq<seq<T>>)
    requires n > 0
    ensures |r| == (|xs| + n - 1) / n
    ensures forall j :: 0 <= j < |r| ==> 0 < |r[j]| <= n
    ensures forall j :: 0 <= j < |r| - 1 ==> |r[j]| == n
    decreases |xs|
  {
    if |xs| == 0 then []
    else if |xs| <= n then
      DivUnique(|xs| + n - 1, n, 1, |xs| - 1);
      [xs]
    else
      CeilStep(|xs| - n, n);
      [xs[..n]] + Chunks(xs[n..], n)
  }

  /** One more piece of n items adds one to the piece count. */
  lemma CeilStep(m: nat, n: nat)
    requires n > 0
    ensures (m + n + n - 1) / n == (m + n - 1) / n + 1
  {
    var a := m + n - 1;
    DivUnique(a + n, n, a / n + 1, a % n);
  }

  /** Euclidean division is determined by quotient and remainder. */
  lemma DivUnique(a: int, n: int, q: int, rem: int)
    requires n > 0 && 0 <= rem < n && a == n * q + rem
    ensures a / n == q
  {
    var k := a / n - q;
    assert n * k == rem - a % n by {
      assert a == n * (a / n) + a % n;
      assert n * (a / n) - n * q == n * k;
    }
  }

  /** The pieces put back together are the input, in order. */
  lemma {:induction false} ChunksFlatten<T>(xs: seq<T>, n: nat)
    requires n > 0
    ensures Flatten(Chunks(xs, n)) == xs
    decreases |xs|
  {
    if |xs| == 0 {
    } else if |xs| <= n {
      assert Flatten([xs]) == Flatten([xs][..0]) + xs;
    } else {
      ChunksFlatten(xs[n..], n);
      FlattenCons(xs[..n], Chunks(xs[n..], n));
      assert xs == xs[..n] + xs[n..];
    }
  }

  /** `list(batched(xs, n))`: islice refuses a negative size, and a size
      of zero yields nothing. */
  function Batched<T>(xs: seq<T>, n: int): (r: Result<seq<seq<T>>>)
    ensures n < 0 <==> r == Err(ValueError)
    ensures n == 0 ==> r == Ok([])
    ensures n > 0 ==> r.Ok? && |r.value| == (|xs| + n - 1) / n
    ensures r.Ok? ==> forall j :: 0 <= j < |r.value| ==> 0 < |r.value[j]| <= n
  {
    if n < 0 then Err(ValueError)
    else if n == 0 then Ok([])
    else Ok(Chunks(xs, n))
  }

  /** For a positive size the batches give back the input. */
  lemma BatchedFlatten<T>(xs: seq<T>, n: int)
    requires n > 0
    ensures Batched(xs, n).Ok? && Flatten(Batched(xs, n).value) == xs
  {
    ChunksFlatten(xs, n);
  }
}
