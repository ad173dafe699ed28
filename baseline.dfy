/**
 * The reference implementation of `src/baseline.rs`: repeated long division of the source
 * digit vector by the target base, one remainder per pass.
 */
module Baseline {
  import opened Wrappers
  import opened DigitVectors

  /** `Vec::reverse`. */
  function Reversed(s: seq<U64>): (r: seq<U64>)
    ensures |r| == |s|
  {
    if s == [] then [] else Reversed(s[1..]) + [s[0]]
  }

  lemma {:induction false} ReversedIndex(s: seq<U64>)
    ensures forall i :: 0 <= i < |s| ==> Reversed(s)[i] == s[|s| - 1 - i]
    decreases |s|
  {
    if s != [] {
      ReversedIndex(s[1..]);
    }
  }

  lemma ReversedPush(s: seq<U64>, x: U64)
    ensures Reversed(s + [x]) == [x] + Reversed(s)
  {
    var l, r := Reversed(s + [x]), [x] + Reversed(s);
    ReversedIndex(s + [x]);
    ReversedIndex(s);
    assert forall i :: 0 <= i < |l| ==> l[i] == r[i];
  }

  lemma DigitsBelowPush(s: seq<U64>, x: U64, base: nat)
    requires DigitsBelow(s, base) && x < base
    ensures DigitsBelow(s + [x], base)
  {
  }

  /** Reversing keeps the digits, and puts the first one pushed at the most-significant end. */
  lemma ReversedKeepsDigits(s: seq<U64>, base: nat)
    requires DigitsBelow(s, base)
    ensures DigitsBelow(Reversed(s), base)
    ensures s != [] ==> Reversed(s)[|s| - 1] == s[0]
  {
    ReversedIndex(s);
  }

  /** One step of the inner loop, `value = carry * from_base + digit`, then the quotient and
      remainder by `to_base`. With a carry below `to_base` and a digit below `from_base`, the
      value stays below `to_base * from_base <= 2^32` (no `u64` overflow), the quotient is a
      digit below `from_base`, and the number the quotients denote grows by one place. */
  lemma DivisionStep(high: nat, q: nat, carry: nat, digit: nat, fromBase: nat, toBase: nat)
    requires carry < toBase <= MAX_BASE && digit < fromBase <= MAX_BASE
    requires high == toBase * q + carry
    ensures carry * fromBase + digit < 0x1_0000_0000
    ensures (carry * fromBase + digit) / toBase < fromBase
    ensures digit + fromBase * high
         == toBase * (fromBase * q + (carry * fromBase + digit) / toBase)
            + (carry * fromBase + digit) % toBase
  {
    var v := carry * fromBase + digit;
    assert v < toBase * fromBase by {
      MulMonotone(fromBase, carry + 1, toBase);
      assert fromBase * (carry + 1) == carry * fromBase + fromBase;
    }
    assert toBase * fromBase <= 0x1_0000_0000 by {
      MulMonotone(toBase, fromBase, MAX_BASE);
      MulMonotone(MAX_BASE, toBase, MAX_BASE);
    }
    DivMod(v, toBase);
    if v / toBase >= fromBase {
      MulMonotone(toBase, fromBase, v / toBase);
    }
    assert fromBase * high == toBase * (fromBase * q) + carry * fromBase;
  }

  lemma StepBounds(carry: nat, digit: nat, fromBase: nat, toBase: nat)
    requires carry < toBase <= MAX_BASE && digit < fromBase <= MAX_BASE
    ensures 0 <= carry * fromBase + digit < 0x1_0000_0000
    ensures (carry * fromBase + digit) / toBase < fromBase
    ensures (carry * fromBase + digit) % toBase < toBase
  {
    DivisionStep(carry, 0, carry, digit, fromBase, toBase);
  }

  /** The inner loop's invariant survives one step, whether or not the quotient is pushed. */
  lemma InnerStep(current: seq<U64>, j: nat, pushed: seq<U64>, carry: nat, value: nat, quotient: U64,
                  fromBase: U64, toBase: U64)
    requires ValidBase(fromBase) && ValidBase(toBase)
    requires j < |current| && current[j] < fromBase && carry < toBase
    requires value == carry * fromBase + current[j] && quotient == value / toBase
    requires Value(current[j + 1..], fromBase) == toBase * Value(Reversed(pushed), fromBase) + carry
    ensures Value(current[j..], fromBase)
         == toBase * Value(Reversed(if pushed != [] || quotient != 0 then pushed + [quotient] else pushed), fromBase)
            + value % toBase
  {
    var digit := current[j];
    var high, q := Value(current[j + 1..], fromBase), Value(Reversed(pushed), fromBase);
    var newQ := fromBase * q + quotient;
    assert Value(current[j..], fromBase) == toBase * newQ + value % toBase by {
      DivisionStep(high, q, carry, digit, fromBase, toBase);
      assert current[j..] == [digit] + current[j + 1..];
      ValueCons(digit, current[j + 1..], fromBase);
    }
    var after := if pushed != [] || quotient != 0 then pushed + [quotient] else pushed;
    assert Value(Reversed(after), fromBase) == newQ by {
      if pushed != [] || quotient != 0 {
        ReversedPush(pushed, quotient);
        ValueCons(quotient, Reversed(pushed), fromBase);
      } else {
        assert q == 0;
      }
    }
    DivisionStep(high, q, carry, digit, fromBase, toBase);
  }

  /** One pass of the outer loop: the inner loop walks `current` from its most-significant
      digit, pushing each quotient once a non-zero one has been seen, and reverses the
      quotients at the end. The pass divides the number by `toBase`. */
  method DivisionPass(current: seq<U64>, fromBase: U64, toBase: U64) returns (next: seq<U64>, carry: U64)
    requires ValidBase(fromBase) && ValidBase(toBase) && DigitsBelow(current, fromBase)
    ensures Value(current, fromBase) == toBase * Value(next, fromBase) + carry && carry < toBase
    ensures DigitsBelow(next, fromBase)
    ensures next == [] || next[|next| - 1] != 0
  {
    carry := 0;
    var pushed: seq<U64> := [];
    var j := |current|;
    assert current[j..] == [];
    while j > 0
      invariant 0 <= j <= |current|
      invariant carry < toBase
      invariant DigitsBelow(pushed, fromBase)
      invariant pushed == [] || pushed[0] != 0
      invariant Value(current[j..], fromBase) == toBase * Value(Reversed(pushed), fromBase) + carry
    {
      j := j - 1;
      var digit := current[j];
      StepBounds(carry, digit, fromBase, toBase);
      var value: U64 := carry * fromBase + digit;
      var quotient: U64 := value / toBase;
      InnerStep(current, j, pushed, carry, value, quotient, fromBase, toBase);
      carry := value % toBase;
      if pushed != [] || quotient != 0 {
        DigitsBelowPush(pushed, quotient, fromBase);
        pushed := pushed + [quotient];
      }
    }
    assert current[0..] == current;
    ReversedKeepsDigits(pushed, fromBase);
    next := Reversed(pushed);
  }

  lemma QuotientSmaller(cur: nat, next: nat, carry: nat, toBase: nat)
    requires toBase >= 2 && next >= 1 && cur == toBase * next + carry
    ensures next < cur
  {
    MulMonotone(next, 2, toBase);
  }

  /** The number `digits` denotes in `fromBase` is what `result` already holds in `toBase` plus
      what is left in `current`, scaled past the remainders emitted so far. */
  lemma PassKeepsValue(total: nat, res: nat, p: nat, cur: nat, next: nat, carry: nat, toBase: nat)
    requires total == res + p * cur && cur == toBase * next + carry
    ensures total == (res + carry * p) + (toBase * p) * next
  {
    assert p * cur == (toBase * p) * next + carry * p;
  }

  /** The outer loop shared by `convert_base` and `convert_general_optimized`, followed by the
      loop that pops most-significant zeros. The loop stops on `[]` and on `[0]` before any pass,
      so those two inputs give `[]`. */
  method RepeatedDivision(digits: seq<U64>, fromBase: U64, toBase: U64) returns (result: seq<U64>)
    requires ValidBase(fromBase) && ValidBase(toBase) && DigitsBelow(digits, fromBase)
    ensures digits == [] || digits == [0] ==> result == []
    ensures digits != [] && digits != [0] ==> result == ToDigits(Value(digits, fromBase), toBase)
  {
    var current := digits;
    result := [];
    while current != [] && !(|current| == 1 && current[0] == 0)
      invariant DigitsBelow(current, fromBase) && DigitsBelow(result, toBase)
      invariant Value(digits, fromBase)
             == Value(result, toBase) + Pow(toBase, |result|) * Value(current, fromBase)
      invariant result == [] ==> current == digits
      invariant digits == [] || digits == [0] ==> result == []
      decreases Value(current, fromBase), |current|
    {
      var next, carry := DivisionPass(current, fromBase, toBase);
      if next != [] {
        ValueAtLeastTopPow(next, fromBase);
        QuotientSmaller(Value(current, fromBase), Value(next, fromBase), carry, toBase);
      } else {
        assert Value(next, fromBase) == 0;
      }
      ValueSnoc(result, carry, toBase);
      PassKeepsValue(Value(digits, fromBase), Value(result, toBase), Pow(toBase, |result|),
                     Value(current, fromBase), Value(next, fromBase), carry, toBase);
      result := result + [carry];
      current := next;
    }
    if current == [0] {
      ValueSingle(0, fromBase);
    }
    if digits != [] && digits != [0] {
      TrimmedIsToDigits(result, Value(digits, fromBase), toBase);
    }
    result := PopTrailingZeros(result);
  }

  /** The first index whose digit is not below the base names the digit the spec reports. */
  lemma FirstInvalidDigitAt(d: seq<U64>, base: nat, i: nat)
    requires i < |d| && d[i] >= base && DigitsBelow(d[..i], base)
    ensures FirstInvalidDigit(d, base) == Some(d[i])
  {
    assert !DigitsBelow(d, base);
  }

  /** `convert_base` of `src/baseline.rs`; its panics are the `Failure` results. */
  method ConvertBase(digits: seq<U64>, fromBase: U64, toBase: U64) returns (r: Result<seq<U64>, ConvertError>)
    ensures r == ConversionSpec(digits, fromBase, toBase)
  {
    if fromBase < 2 || fromBase > 65536 || toBase < 2 || toBase > 65536 {
      return Failure(InvalidBase(fromBase, toBase));
    }
    if fromBase == toBase {
      return Success(digits);
    }
    if |digits| == 0 || (|digits| == 1 && digits[0] == 0) {
      return Success([0]);
    }
    for i := 0 to |digits|
      invariant DigitsBelow(digits[..i], fromBase)
    {
      if digits[i] >= fromBase {
        FirstInvalidDigitAt(digits, fromBase, i);
        return Failure(InvalidDigit(digits[i], fromBase));
      }
      assert digits[..i + 1] == digits[..i] + [digits[i]];
    }
    assert digits[..|digits|] == digits;
    var result := RepeatedDivision(digits, fromBase, toBase);
    return Success(result);
  }

  // ---------------------------------------------------------------------------------------
  // Properties of the conversion contract

  /** A conversion fails exactly on an invalid base, or, between distinct bases, on a digit not
      below the source base in a vector other than [] and [0]. */
  lemma ConversionFailsIff(digits: seq<U64>, fromBase: U64, toBase: U64)
    ensures ConversionSpec(digits, fromBase, toBase).Failure? <==>
              !ValidBase(fromBase) || !ValidBase(toBase) ||
              (fromBase != toBase && digits != [] && digits != [0] && !DigitsBelow(digits, fromBase))
  {
  }

  /** Between distinct bases, a successful conversion keeps the value, is canonical and uses
      only digits below the target base. */
  lemma ConversionPreservesValue(digits: seq<U64>, fromBase: U64, toBase: U64)
    requires fromBase != toBase && ConversionSpec(digits, fromBase, toBase).Success?
    ensures var r := ConversionSpec(digits, fromBase, toBase).value;
            Value(r, toBase) == Value(digits, fromBase) && Canonical(r) && DigitsBelow(r, toBase)
  {
    if digits == [] || digits == [0] {
      ValueSingle(0, toBase);
      if digits == [0] {
        ValueSingle(0, fromBase);
      }
    }
  }

  /** Round trip: converting a non-empty vector of valid digits to another base and back gives
      the vector with its most-significant zeros trimmed. */
  lemma RoundTrip(digits: seq<U64>, fromBase: U64, toBase: U64)
    requires ValidBase(fromBase) && ValidBase(toBase) && fromBase != toBase
    requires |digits| >= 1 && DigitsBelow(digits, fromBase)
    ensures ConversionSpec(digits, fromBase, toBase).Success?
    ensures ConversionSpec(ConversionSpec(digits, fromBase, toBase).value, toBase, fromBase)
         == Success(Trimmed(digits))
  {
    var t := Trimmed(digits);
    TrimmedValue(digits, fromBase);
    assert DigitsBelow(t, fromBase) by {
      assert forall i :: 0 <= i < |t| ==> t[i] == digits[i];
    }
    var v := Value(digits, fromBase);
    if digits == [0] {
    } else {
      var mid := ToDigits(v, toBase);
      CanonicalUnique(t, fromBase);
      if mid == [0] {
        ValueSingle(0, toBase);
        assert v == 0;
        ValueSingle(0, fromBase);
        CanonicalUnique([0], fromBase);
      }
    }
  }

  lemma TrivialCaseExamples()
    ensures ConversionSpec([1, 2, 3], 10, 10) == Success([1, 2, 3])
    ensures ConversionSpec([0], 10, 2) == Success([0]) && ConversionSpec([], 10, 2) == Success([0])
    ensures ConversionSpec([10], 10, 2) == Failure(InvalidDigit(10, 10))
  {
  }

  lemma DecimalToHexExamples()
    ensures ConversionSpec([5, 5, 2], 10, 16) == Success([15, 15])
    ensures ConversionSpec([9, 9, 9, 9, 9], 10, 16) == Success([15, 9, 6, 8, 1])
  {
    assert Value([5, 5, 2], 10) == 255;
    assert ToDigits(255, 16) == [15, 15];
    assert Value([9, 9, 9, 9, 9], 10) == 99999;
    assert ToDigits(99999, 16) == [15, 9, 6, 8, 1];
  }

  lemma BinaryExamples()
    ensures ConversionSpec([3, 1], 10, 2) == Success([1, 0, 1, 1])
    ensures ConversionSpec([1, 0, 1, 1], 2, 10) == Success([3, 1])
  {
    assert Value([3, 1], 10) == 13;
    assert ToDigits(13, 2) == [1, 0, 1, 1];
    assert Value([1, 0, 1, 1], 2) == 13;
    assert ToDigits(13, 10) == [3, 1];
  }
}
