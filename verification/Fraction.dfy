/** `get_fraction`: a fraction with enough digits on both sides that is close to a price. */
module Fraction {

  function Pow10(k: nat): (r: nat)
    ensures r >= 1
  {
    if k == 0 then 1 else 10 * Pow10(k - 1)
  }

  /** The same power as a real number. */
  function TenTo(k: nat): (r: real)
    ensures r >= 1.0 && r == Pow10(k) as real
  {
    if k == 0 then 1.0 else 10.0 * TenTo(k - 1)
  }

  /** Number of decimal digits, `len(str(n))`. */
  function DigitCount(n: nat): (r: nat)
    ensures r >= 1
  {
    if n < 10 then 1 else 1 + DigitCount(n / 10)
  }

  /** Python's `round`: the nearest integer, the even one of two. */
  function Round(x: real): int {
    var f := x.Floor;
    var d := x - f as real;
    if d < 0.5 || (d == 0.5 && f % 2 == 0) then f else f + 1
  }

  /** No integer is nearer, and of two equally near ones it is the even one. */
  lemma RoundIsNearest(x: real, n: int)
    ensures var e, d := Round(x) as real - x, n as real - x;
            && -0.5 <= e <= 0.5
            && (if d < 0.0 then -d else d) >= (if e < 0.0 then -e else e)
            && (n != Round(x) && (-0.5 <= d <= 0.5) ==> Round(x) % 2 == 0)
  {
    var f := x.Floor;
    assert n <= f || n >= f + 1;
  }

  /** price·10^k */
  function Scaled(price: real, k: nat): real {
    if k == 0 then price else 10.0 * Scaled(price, k - 1)
  }

  /** The first try truncates, the later ones round. */
  function Numerator(price: real, assetPrecision: nat, m: nat): int {
    if m == 0 then Scaled(price, assetPrecision).Floor else Round(Scaled(price, assetPrecision + m))
  }

  predicate Enough(price: real, assetPrecision: nat, basePrecision: nat, m: nat, N: nat)
    requires price > 0.0
  {
    NumeratorNonNegative(price, assetPrecision, m);
    DigitCount(Numerator(price, assetPrecision, m)) >= N && DigitCount(Pow10(basePrecision + m)) >= N
  }

  lemma {:induction false} ScaledPositive(price: real, k: nat)
    requires price > 0.0
    ensures Scaled(price, k) > 0.0
  {
    if k > 0 { ScaledPositive(price, k - 1); }
  }

  lemma NumeratorNonNegative(price: real, assetPrecision: nat, m: nat)
    requires price > 0.0
    ensures Numerator(price, assetPrecision, m) >= 0
  {
    ScaledPositive(price, assetPrecision + m);
  }

  lemma {:induction false} EnoughDigits(n: nat, k: nat)
    requires k >= 1
    ensures DigitCount(n) >= k <==> k == 1 || n >= Pow10(k - 1)
  {
    if n >= 10 && k > 1 {
      EnoughDigits(n / 10, k - 1);
    }
  }

  lemma {:induction false} Pow10Add(a: nat, b: nat)
    ensures Pow10(a + b) == Pow10(a) * Pow10(b)
  {
    if a > 0 { Pow10Add(a - 1, b); }
  }

  lemma {:induction false} Pow10Exceeds(k: nat)
    ensures Pow10(k) > k
  {
    if k > 0 { Pow10Exceeds(k - 1); }
  }

  /** From this multiplier on there are enough digits: the loop ends. */
  ghost function Bound(price: real, N: nat): nat
    requires price > 0.0
  {
    (1.0 / price).Floor + 1 + N
  }

  lemma {:induction false} ScaledIsProduct(price: real, k: nat)
    ensures Scaled(price, k) == price * TenTo(k)
  {
    if k > 0 {
      ScaledIsProduct(price, k - 1);
      Exchange(price, TenTo(k - 1));
    }
  }

  lemma Exchange(a: real, c: real)
    ensures a * (10.0 * c) == 10.0 * (a * c)
  { }

  /** The first try is the greatest integer not above price·10^precision, every later one a nearest
      integer to it at its own power. */
  lemma TriesAreNear(price: real, assetPrecision: nat, m: nat)
    ensures var n, x := Numerator(price, assetPrecision, m) as real, price * TenTo(assetPrecision + m);
            if m == 0 then n <= x < n + 1.0 else x - 0.5 <= n <= x + 0.5
  {
    ScaledIsProduct(price, assetPrecision + m);
    var x := Scaled(price, assetPrecision + m);
    if m > 0 { RoundIsNearest(x, x.Floor); }
  }

  lemma ReachesOne(price: real, k: nat)
    requires price > 0.0 && k == (1.0 / price).Floor + 1
    ensures Scaled(price, k) >= 1.0
  {
    Pow10Exceeds(k);
    assert price * (1.0 / price) == 1.0;
    MulMonotoneReal(1.0 / price, TenTo(k), price);
    ScaledIsProduct(price, k);
  }

  lemma {:induction false} GrowsBeyond(price: real, k: nat, j: nat)
    requires Scaled(price, k) >= 1.0
    ensures Scaled(price, k + j) >= TenTo(j)
  {
    if j > 0 { GrowsBeyond(price, k, j - 1); }
  }

  lemma ScaledAtBound(price: real, assetPrecision: nat, m: nat, N: nat)
    requires price > 0.0 && m >= Bound(price, N)
    ensures Scaled(price, assetPrecision + m) >= TenTo(N)
  {
    var k := (1.0 / price).Floor + 1;
    ReachesOne(price, k);
    GrowsBeyond(price, k, assetPrecision + m - k);
    Pow10Monotone(N, assetPrecision + m - k);
  }

  lemma EnoughAtBound(price: real, assetPrecision: nat, basePrecision: nat, m: nat, N: nat)
    requires price > 0.0 && m >= Bound(price, N)
    ensures Enough(price, assetPrecision, basePrecision, m, N)
  {
    ScaledAtBound(price, assetPrecision, m, N);
    NumeratorNonNegative(price, assetPrecision, m);
    var num := Numerator(price, assetPrecision, m);
    assert num >= Pow10(N);
    Pow10Monotone(N, basePrecision + m);
    EnoughDigits(num, N + 1);
    EnoughDigits(Pow10(basePrecision + m), N + 1);
  }

  lemma MulMonotoneReal(x: real, y: real, z: real)
    requires x <= y && 0.0 <= z
    ensures z * x <= z * y && x * z <= y * z
  { }

  lemma {:induction false} Pow10Monotone(a: nat, b: nat)
    requires a <= b
    ensures Pow10(a) <= Pow10(b)
  {
    Pow10Add(a, b - a);
    assert Pow10(a) * Pow10(b - a) >= Pow10(a) * 1;
  }

  /** The multiplier that `get_fraction` stops at is the least one that gives enough digits. */
  method GetFraction(price: real, assetPrecision: nat, basePrecision: nat, N: nat)
    returns (numerator: nat, denominator: nat, multiplier: nat)
    requires price > 0.0
    ensures numerator == Numerator(price, assetPrecision, multiplier)
    ensures denominator == Pow10(basePrecision + multiplier)
    ensures DigitCount(numerator) >= N && DigitCount(denominator) >= N
    ensures forall k: nat :: k < multiplier ==> !Enough(price, assetPrecision, basePrecision, k, N)
  {
    NumeratorNonNegative(price, assetPrecision, 0);
    numerator := Scaled(price, assetPrecision).Floor;
    denominator := Pow10(basePrecision);
    multiplier := 0;
    while DigitCount(numerator) < N || DigitCount(denominator) < N
      invariant numerator == Numerator(price, assetPrecision, multiplier)
      invariant denominator == Pow10(basePrecision + multiplier)
      invariant forall k: nat :: k < multiplier ==> !Enough(price, assetPrecision, basePrecision, k, N)
      invariant multiplier <= Bound(price, N)
      decreases Bound(price, N) - multiplier
    {
      if multiplier >= Bound(price, N) {
        EnoughAtBound(price, assetPrecision, basePrecision, multiplier, N);
      }
      multiplier := multiplier + 1;
      NumeratorNonNegative(price, assetPrecision, multiplier);
      numerator := Round(Scaled(price, assetPrecision + multiplier));
      denominator := Pow10(basePrecision + multiplier);
    }
  }

  ghost predicate Close(num: real, x: real, t: real) {
    t >= 10.0 && ((-1.0 < num - x <= 0.0 && x >= t) || (-0.5 <= num - x <= 0.5 && x >= t - 0.5))
  }

  /** The numerator is within one below, or within a half, of a number that it is large against. */
  lemma NumeratorError(price: real, assetPrecision: nat, basePrecision: nat, m: nat, N: nat)
    requires price > 0.0 && N >= 2
    requires Enough(price, assetPrecision, basePrecision, m, N)
    ensures Close(Numerator(price, assetPrecision, m) as real, Scaled(price, assetPrecision + m), TenTo(N - 1))
  {
    var num := Numerator(price, assetPrecision, m);
    NumeratorNonNegative(price, assetPrecision, m);
    EnoughDigits(num, N);
    Pow10Monotone(1, N - 1);
    assert num as real >= TenTo(N - 1);
  }

  /** f is off from y by less than y / t. */
  ghost predicate WithinRelative(f: real, y: real, t: real) {
    -y < (f - y) * t < y
  }

  /** With at least two digits, the fraction is off from price·10^(assetPrecision - basePrecision) by
      a relative error below 10^-(N-1): the bound, cleared of denominators. */
  lemma RelativeError(price: real, assetPrecision: nat, basePrecision: nat, m: nat, N: nat)
    requires price > 0.0 && N >= 2
    requires Enough(price, assetPrecision, basePrecision, m, N)
    ensures var fraction := Numerator(price, assetPrecision, m) as real / TenTo(basePrecision + m);
            var exact := Scaled(price, assetPrecision) / TenTo(basePrecision);
            WithinRelative(fraction, exact, TenTo(N - 1))
  {
    NumeratorError(price, assetPrecision, basePrecision, m, N);
    SameScale(price, assetPrecision, basePrecision, m);
    var num, x := Numerator(price, assetPrecision, m) as real, Scaled(price, assetPrecision + m);
    RelativeOf(num, x, TenTo(N - 1), TenTo(basePrecision + m));
  }

  lemma RelativeOf(num: real, x: real, t: real, den: real)
    requires Close(num, x, t) && den > 0.0
    ensures WithinRelative(num / den, x / den, t)
  {
    SmallError(x, num - x, t);
    DivideThrough(num, x, t, den, num / den, x / den, num / den - x / den);
  }

  /** An error of less than one below x, or of at most a half either way, is small against x. */
  lemma SmallError(x: real, e: real, t: real)
    requires t >= 10.0
    requires (-1.0 < e <= 0.0 && x >= t) || (-0.5 <= e <= 0.5 && x >= t - 0.5)
    ensures -x < e * t < x
  {
    if e < -0.5 {
      MulStrict(-1.0, e, t);
      MulStrict(e, 0.0, t);
    } else {
      MulMonotoneReal(e, 0.5, t);
      assert e * t <= 0.5 * t < x;
      MulMonotoneReal(-0.5, e, t);
      assert -x < -0.5 * t <= e * t;
    }
  }

  lemma MulStrict(x: real, y: real, z: real)
    requires x < y && 0.0 < z
    ensures x * z < y * z
  { }

  lemma DivideThrough(num: real, x: real, t: real, den: real, f: real, y: real, e: real)
    requires den > 0.0 && -x < (num - x) * t < x
    requires f == num / den && y == x / den && e == f - y
    ensures -y < e * t < y
  {
    var i := 1.0 / den;
    DivIsMul(num, den);
    DivIsMul(x, den);
    MulStrict(-x, (num - x) * t, i);
    MulStrict((num - x) * t, x, i);
    Pull(num, x, t, i, e);
  }

  lemma DivIsMul(a: real, den: real)
    requires den > 0.0
    ensures a / den == a * (1.0 / den) && 1.0 / den > 0.0
  { }

  lemma Pull(num: real, x: real, t: real, i: real, e: real)
    requires e == num * i - x * i
    ensures ((num - x) * t) * i == e * t
  {
    assert e == (num - x) * i;
  }

  /** Both sides of the fraction carry the same power of the multiplier. */
  lemma {:induction false} SameScale(price: real, assetPrecision: nat, basePrecision: nat, m: nat)
    ensures Scaled(price, assetPrecision + m) / TenTo(basePrecision + m)
            == Scaled(price, assetPrecision) / TenTo(basePrecision)
  {
    if m > 0 {
      SameScale(price, assetPrecision, basePrecision, m - 1);
      CancelTen(Scaled(price, assetPrecision + m - 1), TenTo(basePrecision + m - 1));
    }
  }

  lemma CancelTen(a: real, b: real)
    requires b > 0.0
    ensures (10.0 * a) / (10.0 * b) == a / b
  {
    var q := a / b;
    assert q * b == a;
    assert q * (10.0 * b) == 10.0 * a;
  }
}
