/** Positional numerals, most significant digit first, and conversion between two bases that keeps
    the number of leading zero digits. Both loops of the Base58 codec are instances of `Recode`. */
module Numerals {

  function Pow(b: nat, e: nat): nat {
    if e == 0 then 1 else b * Pow(b, e - 1)
  }

  /** Value of a digit sequence. Digits may be -1: that is how an unknown character is read. */
  function Value(ds: seq<int>, b: nat): int {
    if ds == [] then 0 else Value(ds[..|ds| - 1], b) * b + ds[|ds| - 1]
  }

  /** The digits of n, at least one of them. */
  function Expand(n: nat, b: nat): (ds: seq<nat>)
    requires 2 <= b
    ensures 0 < |ds| && forall i :: 0 <= i < |ds| ==> 0 <= ds[i] < b
  {
    if n < b then [n] else
      DivShrinks(n, b);
      Expand(n / b, b) + [n % b]
  }

  function LeadingZeros(ds: seq<int>): (z: nat)
    ensures z <= |ds| && (forall i :: 0 <= i < z ==> ds[i] == 0)
    ensures z < |ds| ==> ds[z] != 0
  {
    if ds == [] || ds[0] != 0 then 0 else 1 + LeadingZeros(ds[1..])
  }

  function Zeros(k: nat): seq<nat> {
    seq(k, _ => 0)
  }

  /** Rewrite base-b digits as base-c digits, keeping the leading zeros apart. */
  function Recode(ds: seq<int>, b: nat, c: nat): seq<nat>
    requires 2 <= c && 0 <= Value(ds, b)
  {
    Zeros(LeadingZeros(ds)) + Expand(Value(ds, b), c)
  }

  predicate IsNumeral(ds: seq<int>, b: nat) {
    forall i :: 0 <= i < |ds| ==> 0 <= ds[i] < b
  }

  ghost predicate HasNonzero(ds: seq<int>) {
    exists i :: 0 <= i < |ds| && ds[i] != 0
  }

  // ---------------------------------------------------------------- value and expansion

  lemma {:induction false} ValueOfExpand(n: nat, b: nat)
    requires 2 <= b
    ensures Value(Expand(n, b), b) == n
    ensures 0 < n ==> Expand(n, b)[0] != 0
    decreases n
  {
    if n >= b {
      DivShrinks(n, b);
      ValueOfExpand(n / b, b);
      var ds := Expand(n, b);
      assert ds[..|ds| - 1] == Expand(n / b, b);
    } else {
      assert Value([n][..0], b) == 0;
    }
  }

  lemma MulMonotone(a: int, b: int, c: nat)
    requires a <= b
    ensures a * c <= b * c
  { }

  lemma DivShrinks(n: nat, b: nat)
    requires 2 <= b <= n
    ensures 0 < n / b < n && n == (n / b) * b + n % b
  {
    MulMonotone(2, b, n / b);
  }

  lemma {:induction false} ValueNonNegative(ds: seq<int>, b: nat)
    requires IsNumeral(ds, b)
    ensures 0 <= Value(ds, b)
  {
    if ds != [] {
      ValueNonNegative(ds[..|ds| - 1], b);
    }
  }

  /** Minimal numerals are unique: re-expanding the value of one gives it back. */
  lemma {:induction false} ExpandOfValue(ds: seq<int>, b: nat)
    requires 2 <= b && IsNumeral(ds, b) && ds != [] && ds[0] != 0
    ensures 0 < Value(ds, b) && Expand(Value(ds, b), b) == ds
  {
    var init, d := ds[..|ds| - 1], ds[|ds| - 1];
    assert ds == init + [d];
    if |ds| == 1 {
      assert Value(init, b) == 0;
    } else {
      ExpandOfValue(init, b);
      ExpandStep(Value(init, b), d, b);
    }
  }

  lemma ExpandStep(v: nat, d: nat, b: nat)
    requires 2 <= b && 0 < v && d < b
    ensures 0 < v * b + d && Expand(v * b + d, b) == Expand(v, b) + [d]
  {
    MulMonotone(1, v, b);
    DivModUnique(v, d, b);
  }

  lemma DivModUnique(q: nat, r: nat, b: nat)
    requires r < b
    ensures (q * b + r) / b == q && (q * b + r) % b == r
  {
    var n := q * b + r;
    assert n == (n / b) * b + n % b;
    if q != n / b {
      MulMonotone(if q < n / b then q + 1 else n / b + 1, if q < n / b then n / b else q, b);
    }
  }

  lemma {:induction false} ValueSkipsZeros(k: nat, ds: seq<int>, b: nat)
    ensures Value(Zeros(k) + ds, b) == Value(ds, b)
    decreases |ds|, k
  {
    var all := Zeros(k) + ds;
    if ds != [] {
      ValueSkipsZeros(k, ds[..|ds| - 1], b);
      assert all[..|all| - 1] == Zeros(k) + ds[..|ds| - 1];
    } else if k > 0 {
      ValueSkipsZeros(k - 1, [], b);
      assert all[..|all| - 1] == Zeros(k - 1) + [];
    }
  }

  lemma {:induction false} LeadingZerosOfPadded(k: nat, ds: seq<int>)
    requires ds == [] || ds[0] != 0
    ensures LeadingZeros(Zeros(k) + ds) == k
  {
    var all := Zeros(k) + ds;
    if k > 0 {
      LeadingZerosOfPadded(k - 1, ds);
      assert all[1..] == Zeros(k - 1) + ds;
    } else {
      assert all == ds;
    }
  }

  /** A numeral with a nonzero digit is its zeros followed by a minimal numeral. */
  lemma SplitZeros(ds: seq<int>) returns (core: seq<int>)
    requires HasNonzero(ds)
    ensures ds == Zeros(LeadingZeros(ds)) + core && core != [] && core[0] != 0
  {
    var z := LeadingZeros(ds);
    var i :| 0 <= i < |ds| && ds[i] != 0;
    core := ds[z..];
  }

  // ---------------------------------------------------------------- the conversion

  /** What the output of a conversion looks like to the conversion back. */
  lemma RecodeKeeps(ds: seq<int>, b: nat, c: nat)
    requires 2 <= c && 0 < Value(ds, b)
    ensures var out := Recode(ds, b, c);
            && IsNumeral(out, c) && HasNonzero(out)
            && Value(out, c) == Value(ds, b) && LeadingZeros(out) == LeadingZeros(ds)
  {
    var z, v := LeadingZeros(ds), Value(ds, b);
    var tail := Expand(v, c);
    ValueOfExpand(v, c);
    ValueSkipsZeros(z, tail, c);
    LeadingZerosOfPadded(z, tail);
    assert Recode(ds, b, c)[z] == tail[0] != 0;
  }

  /** Converting to another base and back is the identity as soon as one digit is nonzero. */
  lemma RecodeInverts(ds: seq<int>, b: nat, c: nat)
    requires 2 <= b && 2 <= c && IsNumeral(ds, b) && HasNonzero(ds)
    ensures 0 <= Value(ds, b)
    ensures IsNumeral(Recode(ds, b, c), c) && HasNonzero(Recode(ds, b, c))
    ensures 0 <= Value(Recode(ds, b, c), c)
    ensures Recode(Recode(ds, b, c), c, b) == ds
  {
    var z := LeadingZeros(ds);
    var core := SplitZeros(ds);
    assert forall i :: 0 <= i < |core| ==> core[i] == ds[z + i];
    ExpandOfValue(core, b);
    ValueSkipsZeros(z, core, b);
    RecodeKeeps(ds, b, c);
  }

  /** A numeral of zeros only gains one digit instead. */
  lemma RecodeOfZeros(k: nat, b: nat, c: nat)
    requires 2 <= c
    ensures Value(Zeros(k), b) == 0
    ensures Recode(Zeros(k), b, c) == Zeros(k + 1)
  {
    ValueSkipsZeros(k, [], b);
    LeadingZerosOfPadded(k, []);
    assert Zeros(k) + [] == Zeros(k);
    assert Expand(0, c) == [0];
  }

  lemma AllZero(ds: seq<int>)
    requires !HasNonzero(ds)
    ensures ds == Zeros(|ds|)
  {
    forall i | 0 <= i < |ds| ensures ds[i] == 0 { }
  }

  // ---------------------------------------------------------------- digits that may be -1

  /** With digits from -1 up to b-1 the first nonzero digit decides the sign of every longer prefix,
      so a running value that has left zero never comes back to it. */
  lemma {:induction false} SignOfValue(ds: seq<int>, b: nat)
    requires 2 <= b && forall i :: 0 <= i < |ds| ==> -1 <= ds[i] < b
    ensures var z := LeadingZeros(ds);
            if z == |ds| then Value(ds, b) == 0
            else if ds[z] == -1 then Value(ds, b) < 0 else 0 < Value(ds, b)
  {
    if ds != [] {
      var init := ds[..|ds| - 1];
      SignOfValue(init, b);
      LeadingZerosOfPrefix(ds);
      SignOfStep(Value(init, b), ds[|ds| - 1], b);
    }
  }

  lemma SignOfStep(v: int, d: int, b: nat)
    requires 2 <= b && -1 <= d < b
    ensures v < 0 ==> v * b + d < 0
    ensures 0 < v ==> 0 < v * b + d
  {
    if v < 0 { MulMonotone(v, -1, b); } else { MulMonotone(if v == 0 then 0 else 1, v, b); }
  }

  /** The running count of the codec loops: one more digit adds a leading zero exactly when the
      digits so far are all zero. */
  lemma {:induction false} LeadingZerosOfPrefix(ds: seq<int>)
    requires ds != []
    ensures var init := ds[..|ds| - 1];
            LeadingZeros(ds) ==
              if LeadingZeros(init) == |init| && ds[|ds| - 1] == 0 then |ds| else LeadingZeros(init)
  {
    var init := ds[..|ds| - 1];
    if ds[0] == 0 && |ds| > 1 {
      LeadingZerosOfPrefix(ds[1..]);
      assert ds[1..][..|ds| - 2] == init[1..];
    }
  }

  // ---------------------------------------------------------------- sizes

  lemma {:induction false} PowAdd(b: nat, e: nat, f: nat)
    ensures Pow(b, e + f) == Pow(b, e) * Pow(b, f)
  {
    if e > 0 {
      PowAdd(b, e - 1, f);
      Associate(b, Pow(b, e - 1), Pow(b, f));
    }
  }

  lemma Associate(x: nat, y: nat, z: nat)
    ensures x * (y * z) == (x * y) * z
  { }

  lemma {:induction false} PowPositive(b: nat, e: nat)
    requires 0 < b
    ensures 0 < Pow(b, e)
  {
    if e > 0 { PowPositive(b, e - 1); }
  }

  /** n lies between d·b^k and (d+1)·b^k exactly when its numeral has k+1 digits and leads with d. */
  lemma {:induction false} LeadingDigit(n: nat, b: nat, d: nat, k: nat)
    requires 2 <= b && 0 < d < b
    ensures d * Pow(b, k) <= n < (d + 1) * Pow(b, k) <==> |Expand(n, b)| == k + 1 && Expand(n, b)[0] == d
    decreases k
  {
    if k == 0 {
      ShortNumeral(n, b);
    } else if n < b {
      BelowPower(n, b, d, k);
    } else {
      LeadingDigit(n / b, b, d, k - 1);
      LongNumeral(n, b);
      ScalePower(n, b, d, k);
      ScalePower(n, b, d + 1, k);
    }
  }

  /** A number between v·b^k and (v+1)·b^k begins with the digits of v and has k more. */
  lemma {:induction false} LeadingDigits(n: nat, b: nat, v: nat, k: nat)
    requires 2 <= b && 0 < v && v * Pow(b, k) <= n < (v + 1) * Pow(b, k)
    ensures Expand(v, b) <= Expand(n, b) && |Expand(n, b)| == |Expand(v, b)| + k
    decreases k
  {
    if k > 0 {
      AtLeastBase(n, b, v, k);
      ScalePower(n, b, v, k);
      ScalePower(n, b, v + 1, k);
      LeadingDigits(n / b, b, v, k - 1);
      LastDigit(n, b);
    } else {
      assert n == v;
    }
  }

  lemma LastDigit(n: nat, b: nat)
    requires 2 <= b <= n
    ensures Expand(n / b, b) <= Expand(n, b) && |Expand(n, b)| == |Expand(n / b, b)| + 1
  {
    DivShrinks(n, b);
    assert Expand(n, b) == Expand(n / b, b) + [n % b];
  }

  lemma AtLeastBase(n: nat, b: nat, v: nat, k: nat)
    requires 2 <= b && 0 < v && 0 < k && v * Pow(b, k) <= n
    ensures b <= n
  {
    PowPositive(b, k - 1);
    MulMonotone(1, Pow(b, k - 1), b);
    MulMonotone(1, v, Pow(b, k));
  }

  lemma ShortNumeral(n: nat, b: nat)
    requires 2 <= b
    ensures |Expand(n, b)| == 1 <==> n < b
    ensures n < b ==> Expand(n, b) == [n]
  {
    if n >= b { DivShrinks(n, b); }
  }

  lemma LongNumeral(n: nat, b: nat)
    requires 2 <= b <= n
    ensures |Expand(n, b)| == |Expand(n / b, b)| + 1 && Expand(n, b)[0] == Expand(n / b, b)[0]
  {
    DivShrinks(n, b);
    assert Expand(n, b) == Expand(n / b, b) + [n % b];
  }

  /** A one-digit number is below every multiple of a positive power. */
  lemma BelowPower(n: nat, b: nat, d: nat, k: nat)
    requires 2 <= b && n < b && 0 < d && 0 < k
    ensures n < d * Pow(b, k) && |Expand(n, b)| == 1
  {
    PowPositive(b, k - 1);
    MulMonotone(1, Pow(b, k - 1), b);
    assert b <= Pow(b, k);
    MulMonotone(1, d, Pow(b, k));
  }

  lemma ScalePower(n: nat, b: nat, d: nat, k: nat)
    requires 0 < b && 0 < k
    ensures d * Pow(b, k) <= n <==> d * Pow(b, k - 1) <= n / b
  {
    ScaleBounds(n, b, d * Pow(b, k - 1));
    Reassociate(d, b, Pow(b, k - 1));
  }

  lemma Reassociate(d: nat, b: nat, p: nat)
    ensures d * (b * p) == b * (d * p)
  { }

  lemma ScaleBounds(n: nat, b: nat, m: nat)
    requires 0 < b
    ensures b * m <= n <==> m <= n / b
  {
    var q := n / b;
    assert n == q * b + n % b;
    if m <= q { assert b * m <= b * q; } else { assert b * m >= b * (q + 1); }
  }

  /** n has at most k digits exactly when n < b^k. */
  lemma {:induction false} NumeralLength(n: nat, b: nat, k: nat)
    requires 2 <= b && 0 < k
    ensures |Expand(n, b)| <= k <==> n < Pow(b, k)
    decreases k
  {
    assert Pow(b, k) == b * Pow(b, k - 1);
    PowPositive(b, k - 1);
    if n < b {
      assert b * Pow(b, k - 1) >= b;
    } else {
      DivShrinks(n, b);
      if k == 1 {
      } else {
        NumeralLength(n / b, b, k - 1);
        ScaleBounds(n, b, Pow(b, k - 1));
      }
    }
  }

  /** A minimal numeral of m digits is worth at least b^(m-1) and less than b^m. */
  lemma {:induction false} ValueBounds(ds: seq<int>, b: nat)
    requires 2 <= b && IsNumeral(ds, b) && ds != [] && ds[0] != 0
    ensures Pow(b, |ds| - 1) <= Value(ds, b) < Pow(b, |ds|)
  {
    ExpandOfValue(ds, b);
    NumeralLength(Value(ds, b), b, |ds|);
    if |ds| > 1 {
      NumeralLength(Value(ds, b), b, |ds| - 1);
    }
  }

  lemma {:induction false} PowMonotone(a: nat, b: nat, e: nat)
    requires a <= b
    ensures Pow(a, e) <= Pow(b, e)
  {
    if e > 0 {
      PowMonotone(a, b, e - 1);
      MulMonotone(a, b, Pow(a, e - 1));
      MulMonotone(Pow(a, e - 1), Pow(b, e - 1), b);
    }
  }
}
