/**
 * `prime_factorization` and the memo table `get_factorization` keeps in front of it: trial
 * division by 2 (through the trailing-zero count) and then by 3, 5, 7, ... while p * p <= n,
 * with whatever is left over above 1 as the last prime.
 */
module Factorization {
  import opened DigitVectors
  import opened Bits
  import opened Wrappers

  /** A prime with its exponent, the source's `(u64, u32)` pairs. */
  type Factor = (nat, nat)

  predicate IsPrime(q: nat) {
    q >= 2 && forall d :: 2 <= d < q ==> q % d != 0
  }

  /** No divisor in [2, p). */
  predicate NoFactorBelow(n: nat, p: nat) {
    forall d :: 2 <= d < p ==> n % d != 0
  }

  /** How often p divides n. */
  function Multiplicity(n: nat, p: nat): nat
    requires n >= 1 && p >= 2
    decreases n
  {
    if n % p == 0 then
      DivideOut(n, p);
      1 + Multiplicity(n / p, p)
    else 0
  }

  /** n with every factor p divided out: n = p^Multiplicity(n, p) * Strip(n, p). */
  function Strip(n: nat, p: nat): (r: nat)
    requires n >= 1 && p >= 2
    ensures 1 <= r <= n && r % p != 0 && n == Pow(p, Multiplicity(n, p)) * r
    decreases n
  {
    if n % p == 0 then
      var q := n / p;
      DivideOut(n, p);
      var r := Strip(q, p);
      var k := Multiplicity(q, p);
      MulAssociative(p, Pow(p, k), r);
      r
    else n
  }

  /** A multiple n >= 1 of p >= 2 is p times a smaller positive number. */
  lemma DivideOut(n: nat, p: nat)
    requires n >= 1 && p >= 2 && n % p == 0
    ensures 1 <= n / p < n && n == p * (n / p)
  {
    DivMod(n, p);
    MulMonotone(n / p, 2, p);
  }

  /** Dividing out one factor p. */
  lemma StripStep(n: nat, p: nat)
    requires n >= 1 && p >= 2 && n % p == 0
    ensures 1 <= n / p < n
    ensures Multiplicity(n, p) == 1 + Multiplicity(n / p, p) && Strip(n, p) == Strip(n / p, p)
  {
    DivideOut(n, p);
  }

  /** The factors the odd trial divisors p, p + 2, ... find in n. */
  function OddFactors(n: nat, p: nat): seq<Factor>
    requires n >= 1 && p >= 3
    decreases n - p + 2
  {
    if p * p > n then (if n > 1 then [(n, 1)] else [])
    else
      MulMonotone(p, 1, p);
      if n % p == 0 then [(p, Multiplicity(n, p))] + OddFactors(Strip(n, p), p + 2)
      else OddFactors(n, p + 2)
  }

  /** What `prime_factorization(n)` returns for n >= 1: the power of 2 first, then the odd
      primes in the order trial division meets them. */
  function Factorization(n: nat): seq<Factor>
    requires n >= 1
  {
    if n % 2 == 0 then [(2, Multiplicity(n, 2))] + OddFactors(Strip(n, 2), 3)
    else OddFactors(n, 3)
  }

  /** The number a factor list stands for. */
  function Product(fs: seq<Factor>): nat {
    if fs == [] then 1 else Pow(fs[0].0, fs[0].1) * Product(fs[1..])
  }

  /** Primes strictly ascending, each with a positive exponent: the form `factors.sort()`
      leaves unchanged. */
  predicate WellFormed(fs: seq<Factor>) {
    (forall i :: 0 <= i < |fs| ==> IsPrime(fs[i].0) && fs[i].1 >= 1) &&
    (forall i, j :: 0 <= i < j < |fs| ==> fs[i].0 < fs[j].0)
  }

  // ---------------------------------------------------------------------------------------
  // The product is n

  lemma {:induction false} OddFactorsProduct(n: nat, p: nat)
    requires n >= 1 && p >= 3
    ensures Product(OddFactors(n, p)) == n
    decreases n - p + 2
  {
    if p * p > n {
      if n > 1 {
        assert Product([(n, 1)]) == n by {
          assert [(n, 1)][1..] == [];
          assert Pow(n, 1) == n * Pow(n, 0);
        }
      }
    } else {
      MulMonotone(p, 1, p);
      if n % p == 0 {
        var rest := OddFactors(Strip(n, p), p + 2);
        OddFactorsProduct(Strip(n, p), p + 2);
        assert ([(p, Multiplicity(n, p))] + rest)[1..] == rest;
      } else {
        OddFactorsProduct(n, p + 2);
      }
    }
  }

  /** Multiplying out the factorization gives n back. */
  lemma FactorizationProduct(n: nat)
    requires n >= 1
    ensures Product(Factorization(n)) == n
  {
    if n % 2 == 0 {
      var rest := OddFactors(Strip(n, 2), 3);
      OddFactorsProduct(Strip(n, 2), 3);
      assert ([(2, Multiplicity(n, 2))] + rest)[1..] == rest;
    } else {
      OddFactorsProduct(n, 3);
    }
  }

  /** Distinct numbers have distinct factorizations, so comparing factor lists compares the
      numbers themselves. */
  lemma FactorizationInjective(m: nat, n: nat)
    requires m >= 1 && n >= 1 && Factorization(m) == Factorization(n)
    ensures m == n
  {
    FactorizationProduct(m);
    FactorizationProduct(n);
  }

  // ---------------------------------------------------------------------------------------
  // The primes are primes, ascending

  lemma DividesTransitive(a: nat, b: nat, c: nat)
    requires a >= 1 && b >= 1 && b % a == 0 && c % b == 0
    ensures c % a == 0
  {
    DivMod(b, a);
    DivMod(c, b);
    var k, m := c / b, b / a;
    assert c == a * (m * k);
    DivModUnique(c, a, m * k, 0);
  }

  lemma StripDivides(n: nat, p: nat)
    requires n >= 1 && p >= 2
    ensures n % Strip(n, p) == 0
  {
    DivModUnique(n, Strip(n, p), Pow(p, Multiplicity(n, p)), 0);
  }

  /** A divisor p of n with no smaller divisor of n above 1 is prime. */
  lemma SmallestDivisorIsPrime(n: nat, p: nat)
    requires n >= 1 && p >= 2 && n % p == 0 && NoFactorBelow(n, p)
    ensures IsPrime(p)
  {
    forall d | 2 <= d < p
      ensures p % d != 0
    {
      if p % d == 0 {
        DividesTransitive(d, p, n);
      }
    }
  }

  /** What is left once p * p > n, with no divisor below p, is 1 or a prime at least p. */
  lemma LeftoverIsPrime(n: nat, p: nat)
    requires n > 1 && p >= 2 && p * p > n && NoFactorBelow(n, p)
    ensures IsPrime(n) && n >= p
  {
    assert n % n == 0;
    forall d | 2 <= d < n
      ensures n % d != 0
    {
      if n % d == 0 {
        DivMod(n, d);
        var e := n / d;
        assert n == d * e;
        assert e >= 2 by {
          if e <= 1 {
            MulMonotone(d, e, 1);
          }
        }
        assert e < p by {
          if e >= p {
            MulMonotone(d, p, e);
            MulMonotone(p, p, d);
          }
        }
        DivModUnique(n, e, d, 0);
      }
    }
  }

  /** After p, the next odd trial divisor p + 2 is safe: p + 1 is even and 2 is ruled out. */
  lemma NoFactorBelowNextOdd(m: nat, p: nat)
    requires m >= 1 && p >= 3 && p % 2 == 1 && NoFactorBelow(m, p) && m % p != 0
    ensures NoFactorBelow(m, p + 2)
  {
    if m % (p + 1) == 0 {
      DividesTransitive(2, p + 1, m);
    }
  }

  lemma NoFactorBelowStrip(n: nat, p: nat)
    requires n >= 1 && p >= 3 && p % 2 == 1 && NoFactorBelow(n, p)
    ensures NoFactorBelow(Strip(n, p), p)
  {
    var s := Strip(n, p);
    StripDivides(n, p);
    forall d | 2 <= d < p
      ensures s % d != 0
    {
      if s % d == 0 {
        DividesTransitive(d, s, n);
      }
    }
  }

  lemma {:induction false} OddFactorsWellFormed(n: nat, p: nat)
    requires n >= 1 && p >= 3 && p % 2 == 1 && NoFactorBelow(n, p)
    ensures WellFormed(OddFactors(n, p))
    ensures forall i :: 0 <= i < |OddFactors(n, p)| ==> OddFactors(n, p)[i].0 >= p
    decreases n - p + 2
  {
    if p * p > n {
      if n > 1 {
        LeftoverIsPrime(n, p);
      }
    } else {
      MulMonotone(p, 1, p);
      if n % p == 0 {
        var s := Strip(n, p);
        SmallestDivisorIsPrime(n, p);
        NoFactorBelowStrip(n, p);
        NoFactorBelowNextOdd(s, p);
        OddFactorsWellFormed(s, p + 2);
        var rest := OddFactors(s, p + 2);
        var fs := [(p, Multiplicity(n, p))] + rest;
        assert forall i :: 1 <= i < |fs| ==> fs[i] == rest[i - 1];
      } else {
        NoFactorBelowNextOdd(n, p);
        OddFactorsWellFormed(n, p + 2);
      }
    }
  }

  /** Every entry is a prime with a positive exponent and the primes strictly ascend, so the
      source's closing `factors.sort()` leaves the list as it is. */
  lemma FactorizationWellFormed(n: nat)
    requires n >= 1
    ensures WellFormed(Factorization(n))
  {
    if n % 2 == 0 {
      var s := Strip(n, 2);
      assert NoFactorBelow(s, 3);
      OddFactorsWellFormed(s, 3);
      var rest := OddFactors(s, 3);
      var fs := [(2, Multiplicity(n, 2))] + rest;
      assert IsPrime(2);
      assert forall i :: 1 <= i < |fs| ==> fs[i] == rest[i - 1];
    } else {
      assert NoFactorBelow(n, 3);
      OddFactorsWellFormed(n, 3);
    }
  }

  lemma FactorizationExamples()
    ensures Factorization(12) == [(2, 2), (3, 1)]
    ensures Factorization(9) == [(3, 2)] && Factorization(27) == [(3, 3)]
  {
    assert Strip(12, 2) == 3 && Multiplicity(12, 2) == 2;
    assert OddFactors(3, 3) == [(3, 1)];
    assert Multiplicity(9, 3) == 2 && Strip(9, 3) == 1;
    assert Multiplicity(27, 3) == 3 && Strip(27, 3) == 1;
  }

  // ---------------------------------------------------------------------------------------
  // The imperative trial division

  /** The trailing-zero count of a positive `u64` is its multiplicity of 2, and shifting it
      out leaves the odd part. */
  lemma {:induction false} TrailingZerosIsMultiplicity(n: nat)
    requires n >= 1
    ensures TrailingZeros(n) == Multiplicity(n, 2) && n / Pow(2, TrailingZeros(n)) == Strip(n, 2)
    decreases n
  {
    if n % 2 == 0 {
      StripStep(n, 2);
      TrailingZerosIsMultiplicity(n / 2);
      var k := TrailingZeros(n / 2);
      assert TrailingZeros(n) == k + 1 == Multiplicity(n, 2);
      assert n == Pow(2, k + 1) * Strip(n, 2);
      DivModUnique(n, Pow(2, k + 1), Strip(n, 2), 0);
    }
  }

  lemma TrailingZerosBelow64(n: U64)
    requires n >= 1
    ensures TrailingZeros(n) < 64
  {
    TrailingZerosIsMultiplicity(n);
    var k := TrailingZeros(n);
    if k >= 64 {
      PowMonotone(2, 64, k);
      PowersOfTwo();
      MulMonotone(Pow(2, k), 1, Strip(n, 2));
      assert false;
    }
  }

  /** (2^32 - 1)^2, the square of the largest odd `u64` whose square is a `u64`. Below it the
      trial divisor never passes 2^32 - 1, so `p * p` never overflows. */
  const SQUARE_BOUND: nat := 0xFFFF_FFFE_0000_0001

  /** The square of a divisor up to 2^32 - 1 is a `u64`. */
  lemma SquareFits(p: nat)
    requires p <= 0xFFFF_FFFF
    ensures p * p <= SQUARE_BOUND < U64_LIMIT
  {
    MulMonotone(p, p, 0xFFFF_FFFF);
    MulMonotone(0xFFFF_FFFF, p, 0xFFFF_FFFF);
  }

  /** While p * p <= n < (2^32 - 1)^2, the next odd divisor is still at most 2^32 - 1. */
  lemma NextDivisorFits(p: nat, n: nat)
    requires p % 2 == 1 && p <= 0xFFFF_FFFF && p * p <= n < SQUARE_BOUND
    ensures p + 2 <= 0xFFFF_FFFF
  {
  }

  /** `prime_factorization`, for 1 <= n < (2^32 - 1)^2, where `p * p` stays a `u64`. The
      closing `factors.sort()` is not performed: the list is already strictly ascending
      (FactorizationWellFormed). */
  method PrimeFactorization(n0: U64) returns (factors: seq<Factor>)
    requires 1 <= n0 < SQUARE_BOUND
    ensures factors == Factorization(n0)
  {
    var n: U64 := n0;
    factors := [];
    if n % 2 == 0 {
      TrailingZerosBelow64(n0);
      TrailingZerosIsMultiplicity(n0);
      var count := TrailingZeros(n0);
      factors := factors + [(2, count)];
      n := ShiftRight(n0, count);
    }
    var p: U64 := 3;
    SquareFits(p);
    while p * p <= n
      invariant 1 <= n <= n0 && 3 <= p <= 0xFFFF_FFFF && p % 2 == 1
      invariant p * p < U64_LIMIT
      invariant factors + OddFactors(n, p) == Factorization(n0)
      decreases n - p + 2
    {
      OddFactorsStep(n, p);
      NextDivisorFits(p, n);
      if n % p == 0 {
        ghost var before := n;
        var count := 0;
        while n % p == 0
          invariant 1 <= n <= before
          invariant count + Multiplicity(n, p) == Multiplicity(before, p)
          invariant Strip(n, p) == Strip(before, p)
          decreases n
        {
          StripStep(n, p);
          n := n / p;
          count := count + 1;
        }
        AppendAssociative(factors, [(p, count)], OddFactors(n, p + 2));
        factors := factors + [(p, count)];
      }
      p := p + 2;
      SquareFits(p);
    }
    if n > 1 {
      factors := factors + [(n, 1)];
    } else {
      assert factors + [] == factors;
    }
  }

  /** One round of the outer loop of trial division, on the specification side. */
  lemma OddFactorsStep(n: nat, p: nat)
    requires n >= 1 && p >= 3 && p * p <= n
    ensures p <= n
    ensures n % p == 0 ==> OddFactors(n, p) == [(p, Multiplicity(n, p))] + OddFactors(Strip(n, p), p + 2)
    ensures n % p != 0 ==> OddFactors(n, p) == OddFactors(n, p + 2)
  {
    MulMonotone(p, 1, p);
  }

  lemma AppendAssociative(a: seq<Factor>, b: seq<Factor>, c: seq<Factor>)
    ensures a + (b + c) == (a + b) + c
  {
  }

  // ---------------------------------------------------------------------------------------
  // The memo table

  /** `FACTORIZATION_CACHE`: absent until first use, then a map from numbers to their
      factorizations. The mutex around it is not modelled. */
  class FactorizationCache {
    var table: Option<map<U64, seq<Factor>>>

    ghost predicate Valid()
      reads this
    {
      table.Some? ==> forall n :: n in table.value ==> n >= 1 && table.value[n] == Factorization(n)
    }

    constructor()
      ensures Valid() && table.None?
    {
      table := None;
    }

    /** `get_factorization`: creates the map on first use, answers from it when the number is
        there, and otherwise computes the factorization and records it. Either way the answer
        is the factorization, and only the entry for n is added. */
    method GetFactorization(n: U64) returns (r: seq<Factor>)
      requires Valid() && 1 <= n < SQUARE_BOUND
      modifies this
      ensures Valid() && r == Factorization(n)
      ensures table.Some? && n in table.value
      ensures old(table).Some? ==> table.value == old(table).value[n := r]
      ensures old(table).None? ==> table.value == map[n := r]
    {
      if table.None? {
        table := Some(map[]);
      }
      var m := table.value;
      if n in m {
        r := m[n];
        assert m[n := r] == m;
      } else {
        r := PrimeFactorization(n);
        table := Some(m[n := r]);
      }
    }
  }
}
