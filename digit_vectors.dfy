/**
 * Digit vectors: little-endian sequences of `u64` digits, the value they denote in a base,
 * the unique canonical representation of a number, and the one contract every conversion
 * path of the library ends in.
 */
module DigitVectors {
  import opened Wrappers

  /** Rust's `u64` and `u128`. Storing a computed value in one of these obliges the model to
      show that the source's arithmetic stays in range there. */
  type U64 = x: int | 0 <= x < 0x1_0000_0000_0000_0000
  type U128 = x: int | 0 <= x < 0x1_0000_0000_0000_0000_0000_0000_0000_0000

  const U64_LIMIT: nat := 0x1_0000_0000_0000_0000
  const U128_LIMIT: nat := 0x1_0000_0000_0000_0000_0000_0000_0000_0000

  /** Bases accepted by both `convert_base` entry points. */
  const MIN_BASE: nat := 2
  const MAX_BASE: nat := 65536

  predicate ValidBase(b: int) {
    MIN_BASE <= b <= MAX_BASE
  }

  function Pow(b: nat, e: nat): (r: nat)
    ensures b >= 1 ==> r >= 1
  {
    if e == 0 then 1 else b * Pow(b, e - 1)
  }

  /** The number a little-endian digit vector denotes: the sum of d[i] * base^i. */
  function Value(d: seq<nat>, base: nat): nat {
    if d == [] then 0 else d[0] + base * Value(d[1..], base)
  }

  predicate DigitsBelow(d: seq<nat>, base: nat) {
    forall i :: 0 <= i < |d| ==> d[i] < base
  }

  /** Canonical form: at least one digit, and no most-significant zero unless the vector is
      a single digit (so zero is exactly [0]). */
  predicate Canonical(d: seq<nat>) {
    |d| >= 1 && (|d| == 1 || d[|d| - 1] != 0)
  }

  /** The canonical little-endian representation of n in base `base`. */
  function ToDigits(n: nat, base: U64): (r: seq<U64>)
    requires base >= 2
    ensures Value(r, base) == n
    ensures Canonical(r) && DigitsBelow(r, base)
    decreases n
  {
    if n < base then
      ValueSingle(n, base);
      [n]
    else
      QuotientShrinks(n, base);
      var rest := ToDigits(n / base, base);
      ConsDigit(n, base, rest);
      [n % base as U64] + rest
  }

  lemma QuotientShrinks(n: nat, b: nat)
    requires b >= 2 && n >= b
    ensures 1 <= n / b < n && n % b < b
  {
    DivMod(n, b);
  }

  /** Putting the low digit n % b in front of the digits of n / b gives the digits of n. */
  lemma ConsDigit(n: nat, b: nat, rest: seq<nat>)
    requires b >= 2 && n >= b
    requires Value(rest, b) == n / b && Canonical(rest) && DigitsBelow(rest, b)
    ensures Value([n % b] + rest, b) == n
    ensures Canonical([n % b] + rest) && DigitsBelow([n % b] + rest, b)
  {
    ValueCons(n % b, rest, b);
    DivMod(n, b);
    var r := [n % b] + rest;
    assert rest[|rest| - 1] == r[|r| - 1];
    assert forall i :: 1 <= i < |r| ==> r[i] == rest[i - 1];
  }

  lemma DivMod(n: nat, b: nat)
    requires b >= 1
    ensures n == b * (n / b) + n % b && n % b < b
  {
  }

  lemma DivModUnique(x: nat, b: nat, q: nat, r: nat)
    requires b >= 1 && x == b * q + r && r < b
    ensures q == x / b && r == x % b
  {
    DivMod(x, b);
    var q0 := x / b;
    if q > q0 {
      MulMonotone(b, q0 + 1, q);
      assert false;
    } else if q < q0 {
      MulMonotone(b, q + 1, q0);
      assert false;
    }
  }

  lemma Distribute(p: nat, x: nat, y: nat)
    ensures p * (x + y) == p * x + p * y
  {
  }

  lemma MulAssociative(a: nat, b: nat, c: nat)
    ensures a * (b * c) == (a * b) * c
  {
  }

  lemma MulMonotone(a: nat, x: nat, y: nat)
    requires x <= y
    ensures a * x <= a * y
  {
  }

  /** A digit below q, placed above a lower part below q, stays below q * m. */
  lemma PlaceBound(low: nat, d: nat, q: nat, m: nat)
    requires low < q && d < m
    ensures low + d * q < q * m
  {
    MulMonotone(q, d + 1, m);
    assert q * (d + 1) == q * d + q;
  }

  // ---------------------------------------------------------------------------------------
  // Powers

  lemma {:induction false} PowAdd(b: nat, m: nat, n: nat)
    ensures Pow(b, m + n) == Pow(b, m) * Pow(b, n)
    decreases m
  {
    if m > 0 {
      PowAdd(b, m - 1, n);
      MulAssociative(b, Pow(b, m - 1), Pow(b, n));
    }
  }

  lemma {:induction false} PowMul(b: nat, m: nat, n: nat)
    ensures Pow(b, m * n) == Pow(Pow(b, m), n)
    decreases n
  {
    if n > 0 {
      PowMul(b, m, n - 1);
      assert m * n == m + m * (n - 1);
      PowAdd(b, m, m * (n - 1));
    }
  }

  lemma {:induction false} PowMonotone(b: nat, m: nat, n: nat)
    requires b >= 1 && m <= n
    ensures Pow(b, m) <= Pow(b, n)
    decreases n - m
  {
    if m < n {
      PowMonotone(b, m, n - 1);
      assert Pow(b, n) == b * Pow(b, n - 1) >= Pow(b, n - 1);
    }
  }

  /** The widths the source's integer types stand for. */
  lemma PowersOfTwo()
    ensures Pow(2, 16) == 65536 && Pow(2, 32) == 0x1_0000_0000
    ensures Pow(2, 64) == U64_LIMIT && Pow(2, 128) == U128_LIMIT
  {
    assert Pow(2, 8) == 256;
    PowAdd(2, 8, 8);
    PowAdd(2, 16, 16);
    PowAdd(2, 32, 32);
    PowAdd(2, 64, 64);
  }

  lemma {:induction false} PowStrictlyMonotone(b: nat, m: nat, n: nat)
    requires b >= 2 && m < n
    ensures Pow(b, m) < Pow(b, n)
  {
    PowMonotone(b, m, n - 1);
    assert Pow(b, n) == b * Pow(b, n - 1);
  }

  // ---------------------------------------------------------------------------------------
  // Value

  lemma {:induction false} ValueAppend(s: seq<nat>, t: seq<nat>, b: nat)
    ensures Value(s + t, b) == Value(s, b) + Pow(b, |s|) * Value(t, b)
    decreases |s|
  {
    if s == [] {
      assert s + t == t;
    } else {
      var v, w, p := Value(s[1..], b), Value(t, b), Pow(b, |s| - 1);
      assert Value(s + t, b) == s[0] + b * (v + p * w) by {
        assert (s + t)[1..] == s[1..] + t;
        ValueAppend(s[1..], t, b);
      }
      assert b * (v + p * w) == b * v + (b * p) * w by {
        Distribute(b, v, p * w);
        MulAssociative(b, p, w);
      }
    }
  }

  lemma ValueCons(x: nat, rest: seq<nat>, b: nat)
    ensures Value([x] + rest, b) == x + b * Value(rest, b)
  {
    assert ([x] + rest)[1..] == rest;
  }

  lemma ValueSingle(x: nat, b: nat)
    ensures Value([x], b) == x
  {
    assert [x][1..] == [];
    assert Value([x][1..], b) == 0;
  }

  /** Pushing a digit x adds x * base^len. */
  lemma {:induction false} ValueSnoc(s: seq<nat>, x: nat, b: nat)
    ensures Value(s + [x], b) == Value(s, b) + x * Pow(b, |s|)
  {
    ValueAppend(s, [x], b);
    ValueSingle(x, b);
  }

  /** A digit vector whose digits are all below the base denotes less than base^len. */
  lemma {:induction false} ValueBelowPow(d: seq<nat>, b: nat)
    requires DigitsBelow(d, b)
    ensures Value(d, b) < Pow(b, |d|)
    decreases |d|
  {
    if d != [] {
      var p, x := Pow(b, |d| - 1), Value(d[1..], b);
      assert x < p by {
        ValueBelowPow(d[1..], b);
      }
      assert d[0] + x * b < b * p by {
        PlaceBound(d[0], x, b, p);
      }
    }
  }

  /** A vector whose most significant digit is non-zero denotes at least base^(len-1). */
  lemma ValueAtLeastTopPow(d: seq<nat>, b: nat)
    requires |d| >= 1 && d[|d| - 1] != 0 && b >= 1
    ensures Value(d, b) >= Pow(b, |d| - 1)
  {
    var n := |d| - 1;
    assert d == d[..n] + [d[n]];
    ValueSnoc(d[..n], d[n], b);
  }

  lemma {:induction false} ValueOfZeros(z: seq<nat>, b: nat)
    requires forall i :: 0 <= i < |z| ==> z[i] == 0
    ensures Value(z, b) == 0
    decreases |z|
  {
    if z != [] {
      ValueOfZeros(z[1..], b);
    }
  }

  /** The canonical representation is unique: a canonical vector of digits below the base is
      the one ToDigits produces for its value. */
  lemma {:induction false} CanonicalUnique(d: seq<U64>, b: U64)
    requires b >= 2 && Canonical(d) && DigitsBelow(d, b)
    ensures d == ToDigits(Value(d, b), b)
    decreases |d|
  {
    var v := Value(d, b);
    if |d| == 1 {
      assert d == [d[0]];
      ValueSingle(d[0], b);
    } else {
      var rest := d[1..];
      assert Canonical(rest) && DigitsBelow(rest, b);
      var vr := Value(rest, b);
      assert v >= b && v / b == vr && v % b == d[0] by {
        assert v == b * vr + d[0];
        ValueAtLeastTopPow(rest, b);
        MulMonotone(b, 1, vr);
        DivModUnique(v, b, vr, d[0]);
      }
      CanonicalUnique(rest, b);
      assert ToDigits(v, b) == [v % b as U64] + ToDigits(v / b, b);
      assert d == [d[0]] + rest;
    }
  }

  // ---------------------------------------------------------------------------------------
  // Trailing (most-significant) zeros

  /** `d` with its most-significant zeros removed, keeping at least one digit. Both the
      `while len > 1 && last == 0 { pop }` loops and utils' `trim_leading_zeros` compute it. */
  function Trimmed(d: seq<nat>): (r: seq<nat>)
    ensures |r| <= |d| && r == d[..|r|]
    ensures forall i :: |r| <= i < |d| ==> d[i] == 0
    ensures |r| == 0 <==> |d| == 0
    ensures |d| != 0 ==> Canonical(r)
    decreases |d|
  {
    if |d| <= 1 || d[|d| - 1] != 0 then d else Trimmed(d[..|d| - 1])
  }

  lemma TrimmedValue(d: seq<nat>, b: nat)
    ensures Value(Trimmed(d), b) == Value(d, b)
  {
    var r := Trimmed(d);
    assert d == r + d[|r|..];
    ValueAppend(r, d[|r|..], b);
    ValueOfZeros(d[|r|..], b);
  }

  lemma TrimmedIdempotent(d: seq<nat>)
    ensures Trimmed(Trimmed(d)) == Trimmed(d)
  {
  }

  /** Trimming a non-empty vector of digits below the base gives the canonical form of the
      number it denotes. */
  lemma TrimmedIsToDigits(u: seq<U64>, n: nat, b: U64)
    requires b >= 2 && |u| >= 1 && DigitsBelow(u, b) && Value(u, b) == n
    ensures Trimmed(u) == ToDigits(n, b)
  {
    var t := Trimmed(u);
    assert forall i :: 0 <= i < |t| ==> t[i] == u[i];
    var r: seq<U64> := t;
    TrimmedValue(u, b);
    CanonicalUnique(r, b);
  }

  /** The loop `while result.len() > 1 && result.last() == Some(&0) { result.pop(); }` that ends
      every conversion strategy (and utils' `string_to_digits`). */
  method PopTrailingZeros(digits: seq<U64>) returns (r: seq<U64>)
    ensures r == Trimmed(digits)
  {
    r := digits;
    while |r| > 1 && r[|r| - 1] == 0
      invariant Trimmed(r) == Trimmed(digits)
      decreases |r|
    {
      r := r[..|r| - 1];
    }
  }

  // ---------------------------------------------------------------------------------------
  // The conversion contract

  /** Why a conversion panics in the source. */
  datatype ConvertError =
    | InvalidBase(fromBase: U64, toBase: U64)
    | InvalidDigit(digit: U64, base: U64)
    /** A debug build's panic on a multiplication that overflows; the conversion contract
        never yields it, only the optimized dispatcher on a debug build. */
    | ArithmeticOverflow

  /** The first digit, in storage order, that is not below `base`. */
  function FirstInvalidDigit(d: seq<U64>, base: nat): (r: Option<U64>)
    ensures r.None? <==> DigitsBelow(d, base)
    ensures r.Some? ==> exists i :: 0 <= i < |d| && d[i] == r.value >= base && DigitsBelow(d[..i], base)
    decreases |d|
  {
    if d == [] then None
    else if d[0] >= base then (assert d[..0] == []; Some(d[0]))
    else
      var r := FirstInvalidDigit(d[1..], base);
      if r.Some? then
        var i :| 0 <= i < |d[1..]| && d[1..][i] == r.value >= base && DigitsBelow(d[1..][..i], base);
        assert d[1 + i] == r.value && d[..1 + i] == [d[0]] + d[1..][..i];
        r
      else r
  }

  /** What both `convert_base` functions return for every input: the pre-checks in their order
      (bases first, then equal bases, then zero, then the digits), and otherwise the canonical
      representation in `toBase` of the value the digits denote in `fromBase`. */
  function ConversionSpec(digits: seq<U64>, fromBase: U64, toBase: U64): Result<seq<U64>, ConvertError> {
    if !ValidBase(fromBase) || !ValidBase(toBase) then Failure(InvalidBase(fromBase, toBase))
    else if fromBase == toBase then Success(digits)
    else if digits == [] || digits == [0] then Success([0])
    else match FirstInvalidDigit(digits, fromBase)
      case Some(d) => Failure(InvalidDigit(d, fromBase))
      case None => Success(ToDigits(Value(digits, fromBase), toBase))
  }
}
