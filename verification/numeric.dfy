/**
 * Arithmetic whose Python/numpy meaning differs from Dafny's defaults:
 * `int(np.round(x))` rounds half to even, `//` and `%` floor towards minus
 * infinity, and running sums/products over series.
 */
module Numeric {

  function Abs(x: real): (r: real)
    ensures r >= 0.0 && (r == x || r == -x)
  {
    if x >= 0.0 then x else -x
  }

  function AbsInt(x: int): (r: nat)
    ensures r == x || r == -x
  {
    if x >= 0 then x else -x
  }

  /** `int(np.round(x))`: the nearest integer, ties going to the even one. */
  function RoundHalfEven(x: real): (r: int)
    ensures -0.5 <= x - r as real <= 0.5
    ensures (x - r as real == 0.5 || r as real - x == 0.5) ==> r % 2 == 0
  {
    var f := x.Floor;
    var d := x - f as real;
    if d < 0.5 then f
    else if d > 0.5 then f + 1
    else if f % 2 == 0 then f
    else f + 1
  }

  /** The two properties of RoundHalfEven determine it. */
  lemma RoundHalfEvenUnique(x: real, n: int)
    requires -0.5 <= x - n as real <= 0.5
    requires (x - n as real == 0.5 || n as real - x == 0.5) ==> n % 2 == 0
    ensures n == RoundHalfEven(x)
  {
    var r := RoundHalfEven(x);
    assert r - 1 <= n <= r + 1;
  }

  lemma RoundHalfEvenNonNegative(x: real)
    requires x >= 0.0
    ensures RoundHalfEven(x) >= 0
  {
  }

  /** Python's `a // b` (floor division), for a non-zero divisor. */
  function FloorDiv(a: int, b: int): (q: int)
    requires b != 0
    ensures b > 0 ==> q * b <= a < q * b + b
    ensures b < 0 ==> q * b >= a > q * b + b
  {
    if b > 0 then a / b else (-a) / (-b)
  }

  /** Python's `a % b`: the remainder takes the sign of the divisor. */
  function FloorMod(a: int, b: int): (m: int)
    requires b != 0
    ensures a == FloorDiv(a, b) * b + m
    ensures b > 0 ==> 0 <= m < b
    ensures b < 0 ==> b < m <= 0
  {
    a - FloorDiv(a, b) * b
  }

  /** For a positive divisor Python's operators agree with Dafny's. */
  lemma FloorDivPositive(a: int, b: int)
    requires b > 0
    ensures FloorDiv(a, b) == a / b && FloorMod(a, b) == a % b
  {
  }

  lemma MulAtLeast(d: int, b: int)
    requires d >= 1 && b >= 1
    ensures d * b >= b
  {
  }

  /** Dafny's remainder by a positive divisor is the unique one in [0, b). */
  lemma ModUnique(a: int, b: int, e: int, m: int)
    requires b > 0 && a == e * b + m && 0 <= m < b
    ensures a % b == m
  {
    var e' := a / b;
    var m' := a % b;
    var d := e - e';
    assert d * b == e * b - e' * b;
    assert d * b == m' - m;
    if d >= 1 {
      MulAtLeast(d, b);
    } else if d <= -1 {
      MulAtLeast(-d, b);
    }
  }

  lemma ModShift(a: int, b: int)
    requires b > 0
    ensures (a + b) % b == a % b
  {
    var e := a / b;
    var m := a % b;
    assert a + b == (e + 1) * b + m;
    ModUnique(a + b, b, e + 1, m);
  }

  lemma NegMod(a: int, c: int)
    requires c > 0
    ensures (-a) % c == 0 <==> a % c == 0
  {
    if a % c == 0 {
      var e := a / c;
      assert -a == (-e) * c + 0;
      ModUnique(-a, c, -e, 0);
    }
    if (-a) % c == 0 {
      var e := (-a) / c;
      assert a == (-e) * c + 0;
      ModUnique(a, c, -e, 0);
    }
  }

  /** Dafny's remainder ignores the divisor's sign. */
  lemma ModNegDivisor(a: int, b: int)
    requires b < 0
    ensures a % b == a % (-b)
  {
    var q := a / b;
    var m := a % b;
    assert a == q * b + m;
    assert q * b == (-q) * (-b);
    ModUnique(a, -b, -q, m);
  }

  /** Python's remainder is zero exactly when Dafny's is: both say that the
      divisor divides the number, whatever their signs. */
  lemma FloorModZero(a: int, b: int)
    requires b != 0
    ensures FloorMod(a, b) == 0 <==> a % b == 0
  {
    if b < 0 {
      var c := -b;
      var q := (-a) / c;
      assert -a == q * c + (-a) % c;
      assert q * b == -(q * c);
      assert FloorMod(a, b) == -((-a) % c);
      NegMod(a, c);
      ModNegDivisor(a, b);
    } else {
      FloorDivPositive(a, b);
    }
  }

  /** Adding the divisor keeps the remainder. */
  lemma ModPeriodic(a: int, b: int)
    requires b != 0
    ensures (a + b) % b == a % b
  {
    if b > 0 {
      ModShift(a, b);
    } else {
      ModNegDivisor(a, b);
      ModNegDivisor(a + b, b);
      ModShift(a + b, -b);
    }
  }

  function Sum(xs: seq<real>): real
  {
    if |xs| == 0 then 0.0 else Sum(xs[..|xs| - 1]) + xs[|xs| - 1]
  }

  lemma {:induction false} SumConcat(a: seq<real>, b: seq<real>)
    ensures Sum(a + b) == Sum(a) + Sum(b)
    decreases |b|
  {
    if |b| == 0 {
      assert a + b == a;
    } else {
      assert (a + b)[..|a + b| - 1] == a + b[..|b| - 1];
      SumConcat(a, b[..|b| - 1]);
    }
  }

  lemma {:induction false} SumNonNegative(xs: seq<real>)
    requires forall i :: 0 <= i < |xs| ==> xs[i] >= 0.0
    ensures Sum(xs) >= 0.0
    decreases |xs|
  {
    if |xs| > 0 {
      SumNonNegative(xs[..|xs| - 1]);
    }
  }

  /** Running product `x0 * x1 * ... * x(i)` for every i (`cumprod`). */
  function CumProd(xs: seq<real>): (p: seq<real>)
    ensures |p| == |xs|
    ensures |xs| > 0 ==> p[0] == xs[0]
    ensures forall i :: 0 < i < |xs| ==> p[i] == p[i - 1] * xs[i]
  {
    if |xs| == 0 then []
    else
      var q := CumProd(xs[..|xs| - 1]);
      q + [(if |q| == 0 then 1.0 else q[|q| - 1]) * xs[|xs| - 1]]
  }

  /** The largest element of a non-empty series. */
  function Max(xs: seq<real>): (m: real)
    requires |xs| > 0
    ensures forall j :: 0 <= j < |xs| ==> xs[j] <= m
    ensures exists j :: 0 <= j < |xs| && m == xs[j]
  {
    if |xs| == 1 then xs[0]
    else
      var q := Max(xs[..|xs| - 1]);
      assert forall j :: 0 <= j < |xs| - 1 ==> xs[..|xs| - 1][j] == xs[j];
      if xs[|xs| - 1] > q then xs[|xs| - 1] else q
  }

  /** Running maximum (`cummax`): entry i is the largest of the first i+1. */
  function CumMax(xs: seq<real>): (m: seq<real>)
    ensures |m| == |xs|
    ensures forall i :: 0 <= i < |xs| ==> m[i] == Max(xs[..i + 1])
  {
    seq(|xs|, i requires 0 <= i < |xs| => Max(xs[..i + 1]))
  }
}
