/**
 * The bit operations the source applies to unsigned integers (`&`, `|`, `<<`, `>>`,
 * `trailing_zeros`), defined on their numeric values one bit at a time, with the facts about
 * them that the power-of-two test and the bit-buffer converter rely on.
 */
module Bits {
  import opened DigitVectors

  /** `a & b`. */
  function BitAnd(a: nat, b: nat): nat
    decreases a
  {
    if a == 0 || b == 0 then 0 else 2 * BitAnd(a / 2, b / 2) + (a % 2) * (b % 2)
  }

  /** `a | b`. */
  function BitOr(a: nat, b: nat): nat
    decreases a + b
  {
    if a == 0 then b
    else if b == 0 then a
    else 2 * BitOr(a / 2, b / 2) + (if a % 2 == 1 || b % 2 == 1 then 1 else 0)
  }

  /** `x << s` on `u64` with `s < 64`: bits pushed past bit 63 are lost. */
  function ShiftLeft(x: U64, s: nat): U64
    requires s < 64
  {
    (x * Pow(2, s)) % U64_LIMIT
  }

  /** `x >> s` on `u64` with `s < 64`. */
  function ShiftRight(x: U64, s: nat): U64
    requires s < 64
  {
    x / Pow(2, s)
  }

  /** `n.trailing_zeros()` on `u64`: the number of low zero bits, 64 for zero. */
  function TrailingZeros(n: nat): nat
    decreases n
  {
    if n == 0 then 64 else if n % 2 == 1 then 0 else 1 + TrailingZeros(n / 2)
  }

  /** `64 - leading_zeros()`: the number of significant bits, 0 for 0. */
  function BitLength(n: nat): (r: nat)
    ensures n < Pow(2, r)
    ensures n > 0 ==> r >= 1 && Pow(2, r - 1) <= n
    decreases n
  {
    if n == 0 then 0 else 1 + BitLength(n / 2)
  }

  /** A `u64` has at most 64 significant bits. */
  lemma BitLengthAtMost64(n: U64)
    ensures BitLength(n) <= 64
  {
    var r := BitLength(n);
    if r > 64 {
      PowMonotone(2, 64, r - 1);
      PowersOfTwo();
    }
  }

  lemma {:induction false} BitAndSelf(m: nat)
    ensures BitAnd(m, m) == m
    decreases m
  {
    if m > 0 {
      BitAndSelf(m / 2);
    }
  }

  /** `n & (n - 1) == 0` holds of a positive n exactly when n is 2 to the power of its
      trailing-zero count. */
  lemma {:induction false} PowerOfTwoBitTrick(n: nat)
    requires n > 0
    ensures BitAnd(n, n - 1) == 0 <==> n == Pow(2, TrailingZeros(n))
    decreases n
  {
    var m := n / 2;
    if n == 1 {
    } else if n % 2 == 1 {
      BitAndSelf(m);
      assert BitAnd(n, n - 1) == 2 * BitAnd(m, m);
      assert TrailingZeros(n) == 0;
    } else {
      assert (n - 1) / 2 == m - 1 && (n - 1) % 2 == 1;
      assert BitAnd(n, n - 1) == 2 * BitAnd(m, m - 1);
      PowerOfTwoBitTrick(m);
      assert TrailingZeros(n) == 1 + TrailingZeros(m);
      assert Pow(2, TrailingZeros(n)) == 2 * Pow(2, TrailingZeros(m));
    }
  }

  lemma {:induction false} TrailingZerosOfPow(k: nat)
    ensures Pow(2, k) > 0 && TrailingZeros(Pow(2, k)) == k
    decreases k
  {
    if k > 0 {
      TrailingZerosOfPow(k - 1);
      assert Pow(2, k) == 2 * Pow(2, k - 1);
      assert Pow(2, k) / 2 == Pow(2, k - 1);
    }
  }

  /** Halving splits a remainder by an even modulus into its low bit and the rest. */
  lemma ModDouble(a: nat, p: nat)
    requires p >= 1
    ensures a % (2 * p) == 2 * ((a / 2) % p) + a % 2
  {
    var h := a / 2;
    DivMod(a, 2);
    DivMod(h, p);
    var low := 2 * (h % p) + a % 2;
    assert a == (2 * p) * (h / p) + low;
    DivModUnique(a, 2 * p, h / p, low);
  }

  /** Masking with `(1 << k) - 1` keeps the k low bits. */
  lemma {:induction false} BitAndLowMask(a: nat, k: nat)
    ensures BitAnd(a, Pow(2, k) - 1) == a % Pow(2, k)
    decreases k
  {
    if k > 0 && a > 0 {
      var p := Pow(2, k - 1);
      var q := Pow(2, k);
      assert q == 2 * p;
      var m := q - 1;
      assert m >= 1 && m / 2 == p - 1 && m % 2 == 1;
      assert BitAnd(a, m) == 2 * BitAnd(a / 2, p - 1) + a % 2 by {
        var low := a % 2;
        assert low * (m % 2) == low;
      }
      BitAndLowMask(a / 2, k - 1);
      ModDouble(a, p);
    } else if k == 0 {
      assert Pow(2, k) - 1 == 0;
    } else {
      assert a % Pow(2, k) == 0;
    }
  }

  /** Or-ing a value shifted past every bit of `a` adds the two. */
  lemma BitOrShifted(a: nat, b: nat, k: nat)
    requires a < Pow(2, k)
    ensures BitOr(a, b * Pow(2, k)) == a + b * Pow(2, k)
  {
    BitOrAbove(a, b * Pow(2, k), b, k);
  }

  lemma {:induction false} BitOrAbove(a: nat, c: nat, b: nat, k: nat)
    requires a < Pow(2, k) && c == b * Pow(2, k)
    ensures BitOr(a, c) == a + c
    decreases k
  {
    if k > 0 && a > 0 && c > 0 {
      var p := Pow(2, k - 1);
      var h, bp := a / 2, b * p;
      assert c == 2 * bp && h < p && a == 2 * h + a % 2 by {
        assert Pow(2, k) == 2 * p;
      }
      assert BitOr(a, c) == 2 * BitOr(h, bp) + a % 2 by {
        BitOrEven(a, bp);
      }
      assert BitOr(h, bp) == h + bp by {
        BitOrAbove(h, bp, b, k - 1);
      }
    }
  }

  /** Or-ing with an even number: the low bit comes from `a` alone. */
  lemma BitOrEven(a: nat, x: nat)
    requires a > 0 && x > 0
    ensures BitOr(a, 2 * x) == 2 * BitOr(a / 2, x) + a % 2
  {
    assert (2 * x) / 2 == x && (2 * x) % 2 == 0;
  }
}
