/**
 * `src/optimized.rs`: the same pre-checks as the baseline, then a dispatch to the cheapest
 * strategy that applies (bit re-slicing between powers of two, the Linux wrappers for long
 * inputs, a `u128` fast path, grouped conversion between aligned bases, and long division).
 */
module Optimized {
  import opened Wrappers
  import opened DigitVectors
  import opened Bits
  import opened Utils
  import opened Factorization
  import Baseline

  // ---------------------------------------------------------------------------------------
  // Powers of two: re-slicing a bit stream

  /** A valid power-of-two base is 2^1 .. 2^16. */
  lemma ShiftWidth(base: U64, shift: nat)
    requires ValidBase(base) && Pow(2, shift) == base
    ensures 1 <= shift <= 16
  {
    PowersOfTwo();
    if shift > 16 {
      PowStrictlyMonotone(2, 16, shift);
    }
  }

  /** Arithmetic steps kept apart so that each proof sees only plain numbers. */
  lemma Rearrange(d: nat, p: nat, q: nat)
    ensures d * (p * q) == p * (d * q)
  {
  }

  lemma MulSucc(a: nat, n: nat)
    ensures a * (n + 1) == a * n + a
  {
  }

  lemma SplitByDivisor(p: nat, v: nat, t: nat)
    requires t >= 1
    ensures p * v == (t * p) * (v / t) + (v % t) * p
  {
    var q, r := v / t, v % t;
    DivMod(v, t);
    Distribute(p, t * q, r);
    assert p * (t * q) == (t * p) * q;
  }

  /** 2^31 fits in a `u64`. */
  lemma ThirtyOneBits(k: nat)
    requires k <= 31
    ensures Pow(2, k) < U64_LIMIT
  {
    PowMonotone(2, k, 31);
    PowStrictlyMonotone(2, 31, 64);
    PowersOfTwo();
  }

  /** `buffer |= digit << buffer_bits` with `buffer < 2^buffer_bits`: the shift stays inside
      31 bits, so nothing is lost, and the or is an addition. */
  lemma AbsorbBits(buffer: nat, d: U64, bb: nat, fs: nat)
    requires bb + fs <= 31 && buffer < Pow(2, bb) && d < Pow(2, fs)
    ensures ShiftLeft(d, bb) == d * Pow(2, bb)
    ensures BitOr(buffer, ShiftLeft(d, bb)) == buffer + d * Pow(2, bb) < Pow(2, bb + fs)
    ensures Pow(2, bb + fs) < U64_LIMIT
  {
    var q, m := Pow(2, bb), Pow(2, fs);
    assert Pow(2, bb + fs) == q * m by {
      PowAdd(2, bb, fs);
    }
    assert buffer + d * q < q * m by {
      PlaceBound(buffer, d, q, m);
    }
    assert q * m < U64_LIMIT by {
      ThirtyOneBits(bb + fs);
    }
    assert ShiftLeft(d, bb) == d * q by {
      DivModUnique(d * q, U64_LIMIT, 0, d * q);
    }
    BitOrShifted(buffer, d, bb);
  }

  /** from_base^consumed == to_base^emitted * 2^buffer_bits, both sides being 2 to the number
      of bits read. */
  lemma PowerSplit(fs: nat, ts: nat, n: nat, m: nat, bb: nat)
    requires fs * n == ts * m + bb
    ensures Pow(Pow(2, fs), n) == Pow(Pow(2, ts), m) * Pow(2, bb)
  {
    var e := ts * m;
    PowMul(2, fs, n);
    PowMul(2, ts, m);
    PowAdd(2, e, bb);
  }

  lemma PlaceValue(vp: nat, vr: nat, p: nat, q: nat, d: nat, buffer: nat)
    requires vp == vr + p * buffer
    ensures vp + d * (p * q) == vr + p * (buffer + d * q)
  {
    Rearrange(d, p, q);
    Distribute(p, buffer, d * q);
  }

  /** Appending a digit to the consumed input matches adding its bits above the buffered
      ones, because from_shift * consumed == to_shift * emitted + buffer_bits. */
  lemma AbsorbValue(prefix: seq<U64>, d: nat, result: seq<U64>, buffer: nat, bb: nat,
                    fs: nat, ts: nat, F: nat, T: nat)
    requires F == Pow(2, fs) && T == Pow(2, ts)
    requires fs * |prefix| == ts * |result| + bb
    requires Value(prefix, F) == Value(result, T) + Pow(T, |result|) * buffer
    ensures Value(prefix + [d], F) == Value(result, T) + Pow(T, |result|) * (buffer + d * Pow(2, bb))
  {
    ValueSnoc(prefix, d, F);
    PowerSplit(fs, ts, |prefix|, |result|, bb);
    PlaceValue(Value(prefix, F), Value(result, T), Pow(T, |result|), Pow(2, bb), d, buffer);
  }

  /** Emitting `v % t` and keeping `v / t` keeps the value. */
  lemma EmitDigit(result: seq<U64>, v: nat, t: nat)
    requires t >= 1
    ensures Value(result + [v % t], t) + Pow(t, |result| + 1) * (v / t)
         == Value(result, t) + Pow(t, |result|) * v
  {
    ValueSnoc(result, v % t, t);
    var p := Pow(t, |result|);
    assert Pow(t, |result| + 1) == t * p;
    SplitByDivisor(p, v, t);
  }

  /** `buffer & ((1 << to_shift) - 1)` is the low group and `buffer >> to_shift` the rest. */
  lemma EmitGroupBits(buffer: nat, bb: nat, ts: nat)
    requires 1 <= ts <= 16 && ts <= bb && buffer < Pow(2, bb)
    ensures ShiftLeft(1, ts) == Pow(2, ts)
    ensures BitAnd(buffer, ShiftLeft(1, ts) - 1) == buffer % Pow(2, ts)
    ensures buffer / Pow(2, ts) < Pow(2, bb - ts)
  {
    var t := Pow(2, ts);
    assert ShiftLeft(1, ts) == t by {
      PowMonotone(2, ts, 16);
      PowersOfTwo();
    }
    BitAndLowMask(buffer, ts);
    var q, u := buffer / t, Pow(2, bb - ts);
    assert q < u by {
      PowAdd(2, ts, bb - ts);
      DivMod(buffer, t);
      if q >= u {
        MulMonotone(t, u, q);
      }
    }
  }

  /** The state of the re-slicing loop after consuming `consumed`: `result` holds the emitted
      groups, the `bb` low bits of `buffer` the rest, and together they denote the input. */
  ghost predicate Resliced(consumed: seq<U64>, F: nat, fs: nat, result: seq<U64>, T: nat, ts: nat,
                           buffer: nat, bb: nat)
  {
    buffer < Pow(2, bb) && fs * |consumed| == ts * |result| + bb && DigitsBelow(result, T)
    && Value(consumed, F) == Value(result, T) + Pow(T, |result|) * buffer
  }

  /** One input digit or-ed into the buffer above its `bb` bits. */
  lemma AbsorbStep(consumed: seq<U64>, d: U64, F: nat, fs: nat, result: seq<U64>, T: nat, ts: nat,
                   buffer: nat, bb: nat)
    requires F == Pow(2, fs) && T == Pow(2, ts) && 1 <= fs <= 16 && 1 <= ts <= 16 && bb < ts
    requires d < F && Resliced(consumed, F, fs, result, T, ts, buffer, bb)
    ensures bb + fs <= 31 && BitOr(buffer, ShiftLeft(d, bb)) < U64_LIMIT
    ensures Resliced(consumed + [d], F, fs, result, T, ts, BitOr(buffer, ShiftLeft(d, bb)), bb + fs)
  {
    AbsorbBits(buffer, d, bb, fs);
    AbsorbValue(consumed, d, result, buffer, bb, fs, ts, F, T);
    MulSucc(fs, |consumed|);
  }

  /** The low `ts` bits of the buffer emitted as one output digit. */
  lemma EmitStep(consumed: seq<U64>, F: nat, fs: nat, result: seq<U64>, T: U64, ts: nat,
                 buffer: U64, bb: nat)
    requires T >= 2 && T == Pow(2, ts) && 1 <= ts <= 16 && ts <= bb
    requires Resliced(consumed, F, fs, result, T, ts, buffer, bb)
    ensures Resliced(consumed, F, fs, result + [buffer % T], T, ts, ShiftRight(buffer, ts), bb - ts)
  {
    EmitGroupBits(buffer, bb, ts);
    EmitDigit(result, buffer, T);
    MulSucc(ts, |result|);
  }

  /** After the last digit: a partial group left in the buffer is emitted, and the output is
      non-empty exactly when the input is. */
  lemma FinishStep(digits: seq<U64>, F: nat, fs: nat, result: seq<U64>, T: nat, ts: nat,
                   buffer: nat, bb: nat)
    requires T == Pow(2, ts) && 1 <= fs && 1 <= ts && bb < ts
    requires Resliced(digits, F, fs, result, T, ts, buffer, bb)
    ensures var out := if bb > 0 then result + [buffer] else result;
            DigitsBelow(out, T) && Value(out, T) == Value(digits, F) && (|out| == 0 <==> |digits| == 0)
  {
    var out := if bb > 0 then result + [buffer] else result;
    assert DigitsBelow(out, T) && Value(out, T) == Value(digits, F) by {
      FlushBuffer(result, T, ts, buffer, bb, Value(digits, F));
    }
    assert |out| == 0 <==> |digits| == 0 by {
      BitCount(fs, |digits|, ts, |result|, bb);
    }
  }

  /** The final `if buffer_bits > 0 { result.push(buffer) }`: a partial group is one more
      digit below the output base. */
  lemma FlushBuffer(result: seq<U64>, T: nat, ts: nat, buffer: nat, bb: nat, v: nat)
    requires T == Pow(2, ts) && bb < ts && buffer < Pow(2, bb) && DigitsBelow(result, T)
    requires v == Value(result, T) + Pow(T, |result|) * buffer
    ensures var out := if bb > 0 then result + [buffer] else result;
            DigitsBelow(out, T) && Value(out, T) == v
  {
    var p := Pow(T, |result|);
    if bb > 0 {
      assert buffer < T by {
        PowMonotone(2, bb, ts);
      }
      assert Value(result + [buffer], T) == Value(result, T) + p * buffer by {
        ValueSnoc(result, buffer, T);
      }
    } else {
      assert buffer == 0;
    }
  }

  /** No bits read means none emitted or buffered, and some read means some emitted or
      buffered. */
  lemma BitCount(fs: nat, n: nat, ts: nat, emitted: nat, bb: nat)
    requires 1 <= fs && 1 <= ts && fs * n == ts * emitted + bb
    ensures n == 0 <==> emitted == 0 && bb == 0
  {
    if n > 0 {
      MulMonotone(fs, 1, n);
    } else if emitted > 0 {
      MulMonotone(ts, 1, emitted);
    }
  }


  /** The inner `while buffer_bits >= to_shift` loop of `convert_power_of_two_optimized`:
      every full group of `to_shift` bits is pushed from the bottom of the buffer, keeping the
      digits consumed so far equal in value to the digits emitted plus the buffer above them. */
  method EmitFullGroups(ghost consumed: seq<U64>, fromBase: U64, fromShift: nat, result0: seq<U64>,
                        toBase: U64, toShift: nat, buffer0: U64, bits0: nat)
    returns (result: seq<U64>, buffer: U64, bufferBits: nat)
    requires toBase >= 2 && toBase == Pow(2, toShift) && 1 <= toShift <= 16 && bits0 <= 31
    requires Resliced(consumed, fromBase, fromShift, result0, toBase, toShift, buffer0, bits0)
    ensures bufferBits < toShift && |result| >= |result0| && result[..|result0|] == result0
    ensures Resliced(consumed, fromBase, fromShift, result, toBase, toShift, buffer, bufferBits)
  {
    result, buffer, bufferBits := result0, buffer0, bits0;
    while bufferBits >= toShift
      invariant bufferBits <= 31 && |result| >= |result0| && result[..|result0|] == result0
      invariant Resliced(consumed, fromBase, fromShift, result, toBase, toShift, buffer, bufferBits)
      decreases bufferBits
    {
      assert ShiftLeft(1, toShift) == toBase && BitAnd(buffer, toBase - 1) == buffer % toBase by {
        EmitGroupBits(buffer, bufferBits, toShift);
      }
      assert Resliced(consumed, fromBase, fromShift, result + [buffer % toBase],
                      toBase, toShift, ShiftRight(buffer, toShift), bufferBits - toShift) by {
        EmitStep(consumed, fromBase, fromShift, result, toBase, toShift, buffer, bufferBits);
      }
      result := result + [BitAnd(buffer, ShiftLeft(1, toShift) - 1)];
      buffer := ShiftRight(buffer, toShift);
      bufferBits := bufferBits - toShift;
    }
  }

  const U32_LIMIT: nat := 0x1_0000_0000

  /** Whether the `u32` arithmetic sizing the output overflows:
      `total_bits = ((len - 1) as u32) * from_shift + msb_bits` (the cast truncates, the
      product and the sum are checked in a debug build), then `total_bits + to_shift - 1` when
      `total_bits` is not 0. Nothing else depends on these numbers; a release build wraps
      around and only the capacity hint changes. */
  predicate SizingOverflows(digits: seq<U64>, fromShift: nat, toShift: nat) {
    digits != [] &&
    var product := ((|digits| - 1) % U32_LIMIT) * fromShift;
    var totalBits := product + BitLength(digits[|digits| - 1]);
    product >= U32_LIMIT || totalBits >= U32_LIMIT || (totalBits != 0 && totalBits + toShift >= U32_LIMIT)
  }

  /** The sizing overflows only for inputs of at least 2^28 - 4 digits. */
  lemma SizingOverflowsOnlyWhenHuge(digits: seq<U64>, fromShift: nat, toShift: nat)
    requires fromShift <= 16 && toShift <= 16 && SizingOverflows(digits, fromShift, toShift)
    ensures |digits| >= 0xFFF_FFFC
  {
    if |digits| < 0xFFF_FFFC {
      var c := |digits| - 1;
      assert c % U32_LIMIT == c;
      MulMonotone(c, fromShift, 16);
      BitLengthAtMost64(digits[|digits| - 1]);
      assert false;
    }
  }

  /** 2^28 + 1 digits from base 65536: the product (2^28) * 16 is 2^32. */
  lemma SizingOverflowWitness()
    ensures var w: seq<U64> := seq(0x1000_0001, _ => 1);
            DigitsBelow(w, 65536) && SizingOverflows(w, 16, 1)
  {
  }

  /** `convert_power_of_two_optimized`: each digit's `from_shift` bits are or-ed into a `u64`
      buffer above the bits already there, every full group of `to_shift` bits is emitted from
      the bottom, a final partial group is emitted, and most-significant zeros are popped. The
      buffer never holds more than 31 bits. The `total_bits` / `output_len` computation only
      sizes the output vector; a debug build panics where it overflows `u32`. */
  method ConvertPowerOfTwoOptimized(digits: seq<U64>, fromBase: U64, toBase: U64, debugAssertions: bool)
    returns (r: Result<seq<U64>, ConvertError>)
    requires ValidBase(fromBase) && ValidBase(toBase) && IsPowerOfTwo(fromBase) && IsPowerOfTwo(toBase)
    requires DigitsBelow(digits, fromBase)
    ensures var panics := debugAssertions && SizingOverflows(digits, TrailingZeros(fromBase), TrailingZeros(toBase));
            (panics ==> r == Failure(ArithmeticOverflow)) &&
            (!panics && digits == [] ==> r == Success([])) &&
            (!panics && digits != [] ==> r == Success(ToDigits(Value(digits, fromBase), toBase)))
  {
    var fromShift := Log2OfPowerOfTwo(fromBase);
    var toShift := Log2OfPowerOfTwo(toBase);
    ShiftWidth(fromBase, fromShift);
    ShiftWidth(toBase, toShift);
    if debugAssertions && SizingOverflows(digits, fromShift, toShift) {
      return Failure(ArithmeticOverflow);
    }
    var buffer: U64 := 0;
    var bufferBits: nat := 0;
    var result := [];
    assert digits[..0] == [];
    for i := 0 to |digits|
      invariant bufferBits < toShift
      invariant Resliced(digits[..i], fromBase, fromShift, result, toBase, toShift, buffer, bufferBits)
    {
      assert bufferBits + fromShift <= 31 && BitOr(buffer, ShiftLeft(digits[i], bufferBits)) < U64_LIMIT
        && Resliced(digits[..i + 1], fromBase, fromShift, result, toBase, toShift,
                    BitOr(buffer, ShiftLeft(digits[i], bufferBits)), bufferBits + fromShift) by {
        AbsorbStep(digits[..i], digits[i], fromBase, fromShift, result, toBase, toShift, buffer, bufferBits);
        assert digits[..i + 1] == digits[..i] + [digits[i]];
      }
      buffer := BitOr(buffer, ShiftLeft(digits[i], bufferBits));
      bufferBits := bufferBits + fromShift;
      result, buffer, bufferBits := EmitFullGroups(digits[..i + 1], fromBase, fromShift, result,
                                                   toBase, toShift, buffer, bufferBits);
    }
    ghost var out := if bufferBits > 0 then result + [buffer] else result;
    assert DigitsBelow(out, toBase) && Value(out, toBase) == Value(digits, fromBase)
      && (|out| == 0 <==> |digits| == 0) by {
      assert digits[..|digits|] == digits;
      FinishStep(digits, fromBase, fromShift, result, toBase, toShift, buffer, bufferBits);
    }
    if bufferBits > 0 {
      result := result + [buffer];
    }
    assert digits != [] ==> Trimmed(result) == ToDigits(Value(digits, fromBase), toBase) by {
      if digits != [] {
        TrimmedIsToDigits(result, Value(digits, fromBase), toBase);
      }
    }
    result := PopTrailingZeros(result);
    return Success(result);
  }

  // ---------------------------------------------------------------------------------------
  // The u128 fast path

  /** What the fast path yields: the value, exactly when from_base^len fits in `u128`. */
  function U128FastPath(digits: seq<U64>, base: U64): (r: Option<U128>)
    requires ValidBase(base) && DigitsBelow(digits, base)
    ensures r.Some? ==> r.value == Value(digits, base) && Pow(base, |digits|) < U128_LIMIT
  {
    if Pow(base, |digits|) < U128_LIMIT then
      ValueBelowPow(digits, base);
      Some(Value(digits, base))
    else None
  }

  /** One iteration of the accumulation loop, read on the numbers: the running sum stays
      below the next power, which is at most base^len. */
  lemma AccumulateStep(digits: seq<U64>, base: U64, i: nat, result: nat, power: nat)
    requires ValidBase(base) && DigitsBelow(digits, base) && i < |digits|
    requires result == Value(digits[..i], base) && power == Pow(base, i)
    ensures Value(digits[..i + 1], base) == result + digits[i] * power
    ensures result + digits[i] * power < power * base
    ensures power * base == Pow(base, i + 1) <= Pow(base, |digits|)
  {
    var d := digits[i];
    assert Value(digits[..i + 1], base) == result + d * power by {
      assert digits[..i + 1] == digits[..i] + [d];
      ValueSnoc(digits[..i], d, base);
    }
    assert result < power by {
      assert DigitsBelow(digits[..i], base);
      ValueBelowPow(digits[..i], base);
    }
    PlaceBound(result, d, power, base);
    assert power * base == Pow(base, i + 1);
    PowMonotone(base, i + 1, |digits|);
  }

  /** `try_convert_to_u128` with every `u128` operation checked: the product `digit * power`
      (unchecked in the source, see the findings), the running sum and the next power. */
  method TryConvertToU128(digits: seq<U64>, base: U64) returns (r: Option<U128>)
    requires ValidBase(base) && DigitsBelow(digits, base)
    ensures r == U128FastPath(digits, base)
  {
    var result: U128 := 0;
    var power: U128 := 1;
    assert digits[..0] == [];
    for i := 0 to |digits|
      invariant result == Value(digits[..i], base) && power == Pow(base, i)
    {
      var product := digits[i] * power;
      var nextPower := power * base;
      assert result + product == Value(digits[..i + 1], base) < nextPower == Pow(base, i + 1)
        && nextPower <= Pow(base, |digits|) by {
        AccumulateStep(digits, base, i, result, power);
      }
      if product >= U128_LIMIT || result + product >= U128_LIMIT {
        return None;
      }
      result := result + product;
      if nextPower >= U128_LIMIT {
        return None;
      }
      power := nextPower;
    }
    assert digits[..|digits|] == digits;
    return Some(result);
  }

  /** What the source's loop does when the product `digit_u128 * power` is not checked. */
  datatype U128Attempt =
    | Fits(value: U128)
    | DoesNotFit
    | ProductOverflow

  /** At step i the product digit * base^i leaves `u128` while base^i itself still fits. */
  predicate ProductOverflowAt(digits: seq<U64>, base: nat, i: nat) {
    i < |digits| && Pow(base, i) < U128_LIMIT <= digits[i] * Pow(base, i)
  }

  /** The outcome of the loop as written: an overflowing product, if any step has one, is hit
      first; otherwise the answer is that of the checked fast path. */
  function U128AttemptSpec(digits: seq<U64>, base: U64): U128Attempt
    requires ValidBase(base) && DigitsBelow(digits, base)
  {
    if exists i :: 0 <= i < |digits| && ProductOverflowAt(digits, base, i) then ProductOverflow
    else match U128FastPath(digits, base)
      case Some(v) => Fits(v)
      case None => DoesNotFit
  }

  /** `try_convert_to_u128` as written: `digit_u128 * power` is evaluated before any check, so
      a debug build panics (ProductOverflow) when it leaves `u128`. */
  method TryConvertToU128AsWritten(digits: seq<U64>, base: U64) returns (r: U128Attempt)
    requires ValidBase(base) && DigitsBelow(digits, base)
    ensures r == U128AttemptSpec(digits, base)
  {
    var result: U128 := 0;
    var power: U128 := 1;
    assert digits[..0] == [];
    for i := 0 to |digits|
      invariant result == Value(digits[..i], base) && power == Pow(base, i)
      invariant forall k :: 0 <= k < i ==> !ProductOverflowAt(digits, base, k)
    {
      var product := digits[i] * power;
      var nextPower := power * base;
      assert result + product == Value(digits[..i + 1], base) < nextPower == Pow(base, i + 1)
        && nextPower <= Pow(base, |digits|) by {
        AccumulateStep(digits, base, i, result, power);
      }
      if product >= U128_LIMIT {
        assert ProductOverflowAt(digits, base, i);
        return ProductOverflow;
      }
      if result + product >= U128_LIMIT {
        LaterStepsFit(digits, base, i);
        return DoesNotFit;
      }
      result := result + product;
      if nextPower >= U128_LIMIT {
        LaterStepsFit(digits, base, i);
        return DoesNotFit;
      }
      power := nextPower;
    }
    assert digits[..|digits|] == digits;
    return Fits(result);
  }


  /** Once base^(i+1) leaves `u128`, no later step can have base^k inside it. */
  lemma LaterStepsFit(digits: seq<U64>, base: U64, i: nat)
    requires ValidBase(base) && i < |digits| && Pow(base, i + 1) >= U128_LIMIT
    requires forall k :: 0 <= k <= i ==> !ProductOverflowAt(digits, base, k)
    ensures forall k :: !ProductOverflowAt(digits, base, k)
  {
    forall k | i < k
      ensures Pow(base, k) >= U128_LIMIT
    {
      PowMonotone(base, i + 1, k);
    }
  }

  /** Whenever the fast path succeeds, no product on the way leaves `u128`: the unchecked
      multiplication is safe on every input that yields `Some`. */
  lemma ProductInRangeWhenFits(digits: seq<U64>, base: U64)
    requires ValidBase(base) && DigitsBelow(digits, base) && Pow(base, |digits|) < U128_LIMIT
    ensures forall i :: !ProductOverflowAt(digits, base, i)
    ensures Value(digits, base) < U128_LIMIT
    ensures U128AttemptSpec(digits, base) == Fits(Value(digits, base))
  {
    ValueBelowPow(digits, base);
    forall i | 0 <= i < |digits|
      ensures digits[i] * Pow(base, i) < U128_LIMIT
    {
      var q := Pow(base, i);
      PlaceBound(0, digits[i], q, base);
      assert q * base == Pow(base, i + 1);
      PowMonotone(base, i + 1, |digits|);
    }
  }

  /** The loop as written and the checked loop agree except where the written one overflows;
      the checked one then returns None, as a release build (whose product wraps) also does,
      since the next power leaves `u128` in the same step. */
  lemma AsWrittenAgreesUnlessOverflow(digits: seq<U64>, base: U64)
    requires ValidBase(base) && DigitsBelow(digits, base)
    ensures U128AttemptSpec(digits, base) == ProductOverflow ==> U128FastPath(digits, base) == None
    ensures U128AttemptSpec(digits, base) != ProductOverflow ==>
              (U128AttemptSpec(digits, base).Fits? <==> U128FastPath(digits, base).Some?)
  {
    if U128FastPath(digits, base).Some? {
      ProductInRangeWhenFits(digits, base);
    }
  }

  lemma PowersOfTen()
    ensures Pow(10, 38) == 100_000_000_000_000_000_000_000_000_000_000_000_000
    ensures Pow(10, 39) == 1_000_000_000_000_000_000_000_000_000_000_000_000_000
  {
    assert Pow(10, 2) == 100;
    PowAdd(10, 2, 2);
    PowAdd(10, 4, 4);
    PowAdd(10, 8, 8);
    PowAdd(10, 16, 16);
    PowAdd(10, 4, 2);
    PowAdd(10, 32, 6);
  }

  /** 39 decimal digits whose top digit is 4: 4 * 10^38 >= 2^128 > 10^38, so the last step's
      product overflows. The input is valid and reaches the fast path for the target base 3
      (the bases are not both powers of two and it has fewer than 1001 digits). */
  lemma ProductOverflowWitness()
    ensures var w := seq(38, _ => 0) + [4];
            |w| == 39 && DigitsBelow(w, 10) &&
            U128AttemptSpec(w, 10) == ProductOverflow && U128FastPath(w, 10) == None
  {
    var w: seq<U64> := seq(38, _ => 0) + [4];
    PowersOfTen();
    PowersOfTwo();
    assert ProductOverflowAt(w, 10, 38);
  }

  /** `convert_from_u128`: [0] for zero, otherwise the remainders of repeated division. */
  method ConvertFromU128(num: U128, base: U64) returns (result: seq<U64>)
    requires base >= 2
    ensures result == ToDigits(num, base)
  {
    if num == 0 {
      return [0];
    }
    var n: nat := num;
    result := [];
    while n > 0
      invariant result + DigitsOrEmpty(n, base) == ToDigits(num, base)
      decreases n
    {
      PeelDigit(result, n, base, num);
      var digit: U64 := n % base as U64;
      result := result + [digit];
      n := n / base;
    }
  }

  /** The remaining digits of the number still to divide: none once it is zero. */
  function DigitsOrEmpty(n: nat, base: U64): seq<U64>
    requires base >= 2
  {
    if n == 0 then [] else ToDigits(n, base)
  }

  /** The low digit of n and the digits of n / base. */
  lemma DivideOff(n: nat, base: U64)
    requires base >= 2 && n >= 1
    ensures 0 <= n % base < base && 0 <= n / base < n
    ensures DigitsOrEmpty(n, base) == [n % base as U64] + DigitsOrEmpty(n / base, base)
  {
    SmallQuotient(n, base);
    if n < base {
      DivModUnique(n, base, 0, n);
    }
  }

  lemma SmallQuotient(n: nat, base: nat)
    requires base >= 2 && n >= 1
    ensures 0 <= n % base < base && 0 <= n / base < n
  {
    DivMod(n, base);
  }

  /** One iteration of `convert_from_u128`'s loop keeps the digits found so far, followed by
      those of what is left to divide, equal to the answer. */
  lemma PeelDigit(result: seq<U64>, n: nat, base: U64, num: nat)
    requires base >= 2 && n >= 1 && result + DigitsOrEmpty(n, base) == ToDigits(num, base)
    ensures 0 <= n % base < base && 0 <= n / base < n
    ensures (result + [n % base as U64]) + DigitsOrEmpty(n / base, base) == ToDigits(num, base)
  {
    DivideOff(n, base);
    assert (result + [n % base as U64]) + DigitsOrEmpty(n / base, base)
        == result + ([n % base as U64] + DigitsOrEmpty(n / base, base));
  }

  // ---------------------------------------------------------------------------------------
  // Aligned bases

  const MAX_EXPONENT: nat := 12

  /** from_base^a == to_base^b with both exponents in 1..=12 and the power inside `u64`. */
  predicate Aligned(f: nat, t: nat, a: nat, b: nat) {
    1 <= a <= MAX_EXPONENT && 1 <= b <= MAX_EXPONENT && Pow(f, a) < U64_LIMIT && Pow(t, b) == Pow(f, a)
  }

  /** The search `find_aligned_exponents` evidently means to run: the nested loops over a and
      b, returning the first pair (in that order) with from_base^a == to_base^b, without the
      factorization comparison in front (see the findings). Powers are taken with overflow
      checks. */
  method FindAlignedExponentsIntended(f: U64, t: U64) returns (r: Option<(nat, nat)>)
    ensures r.Some? ==> Aligned(f, t, r.value.0, r.value.1)
    ensures r.Some? ==> forall a, b :: Aligned(f, t, a, b) ==> r.value.0 < a || (r.value.0 == a && r.value.1 <= b)
    ensures r.None? ==> forall a, b :: !Aligned(f, t, a, b)
  {
    for a := 1 to MAX_EXPONENT + 1
      invariant forall a', b :: 1 <= a' < a ==> !Aligned(f, t, a', b)
    {
      var fromPower := Pow(f, a);
      if fromPower < U64_LIMIT {
        for b := 1 to MAX_EXPONENT + 1
          invariant forall b' :: 1 <= b' < b ==> !Aligned(f, t, a, b')
        {
          if Pow(t, b) == fromPower {
            return Some((a, b));
          }
        }
      }
    }
    return None;
  }

  /** `find_aligned_exponents` as written: it compares the two factorizations, exponents
      included, before searching. Equal factorizations mean equal bases, so it answers only for
      a base aligned with itself, as (1, 1). */
  method FindAlignedExponents(cache: FactorizationCache, f: U64, t: U64) returns (r: Option<(nat, nat)>)
    requires cache.Valid() && 1 <= f < SQUARE_BOUND && 1 <= t < SQUARE_BOUND
    modifies cache
    ensures cache.Valid()
    ensures r.Some? ==> f == t
    ensures f == t ==> r == Some((1, 1))
  {
    var fromFactors := cache.GetFactorization(f);
    var toFactors := cache.GetFactorization(t);
    if fromFactors != toFactors {
      return None;
    }
    FactorizationInjective(f, t);
    assert Aligned(f, t, 1, 1);
    r := FindAlignedExponentsIntended(f, t);
  }

  /** The dispatcher reaches `find_aligned_exponents` only with distinct valid bases, whose
      factorizations differ, so the aligned branch never runs. */
  lemma AlignedBranchUnreachable(f: U64, t: U64)
    requires ValidBase(f) && ValidBase(t) && f != t
    ensures Factorization.Factorization(f) != Factorization.Factorization(t)
  {
    if Factorization.Factorization(f) == Factorization.Factorization(t) {
      FactorizationInjective(f, t);
    }
  }

  /** 9^3 == 27^2 == 729: the pair the intended search finds and the comparison of
      factorizations, [(3, 2)] against [(3, 3)], throws away. */
  lemma NineAndTwentySeven()
    ensures Aligned(9, 27, 3, 2)
    ensures Factorization.Factorization(9) != Factorization.Factorization(27)
  {
    FactorizationExamples();
  }

  /** Splitting off one chunk of the input and one block of the output. */
  lemma ChunkValue(digits: seq<U64>, start: nat, end: nat, f: nat, result: seq<U64>, t: nat, value: nat)
    requires start <= end <= |digits|
    requires Value(digits[..start], f) == Value(result, t) && Pow(f, start) == Pow(t, |result|)
    requires value == Value(digits[start..end], f)
    ensures Value(digits[..end], f) == Value(result, t) + Pow(t, |result|) * value
  {
    assert digits[..end] == digits[..start] + digits[start..end];
    ValueAppend(digits[..start], digits[start..end], f);
  }

  lemma ChunkPowers(f: nat, t: nat, a: nat, b: nat, chunks: nat)
    requires Pow(f, a) == Pow(t, b)
    ensures Pow(f, chunks * a) == Pow(t, chunks * b)
  {
    PowMul(f, a, chunks);
    PowMul(t, b, chunks);
    assert a * chunks == chunks * a && b * chunks == chunks * b;
  }

  /** The next entry of `from_powers`. */
  lemma NextPower(f: nat, i: nat, a: nat, p: nat)
    requires f >= 2 && 1 <= i < a && p == Pow(f, i - 1) && Pow(f, a) < U128_LIMIT
    ensures p * f == Pow(f, i) < U128_LIMIT
  {
    PowStrictlyMonotone(f, i, a);
  }

  /** Adding digit i of a chunk of at most a digits, each below f: the sum stays below f^a. */
  lemma ChunkBound(chunk: seq<U64>, f: nat, a: nat, i: nat)
    requires f >= 1 && |chunk| <= a && DigitsBelow(chunk, f) && i < |chunk|
    ensures Value(chunk[..i + 1], f) == Value(chunk[..i], f) + chunk[i] * Pow(f, i)
    ensures Value(chunk[..i + 1], f) < Pow(f, a)
  {
    assert chunk[..i + 1] == chunk[..i] + [chunk[i]];
    ValueSnoc(chunk[..i], chunk[i], f);
    assert DigitsBelow(chunk[..i + 1], f);
    ValueBelowPow(chunk[..i + 1], f);
    PowMonotone(f, i + 1, a);
  }

  /** While one block is written out: the digits written so far and the part of the chunk's
      value still to write (below t^left) together denote `total`. */
  ghost predicate Emitting(total: nat, result: seq<U64>, t: nat, value: nat, left: nat) {
    DigitsBelow(result, t) && value < Pow(t, left) && total == Value(result, t) + Pow(t, |result|) * value
  }

  /** The state of the chunk loop before chunk number `chunks`, which starts at `start`. */
  ghost predicate ChunksDone(digits: seq<U64>, f: nat, t: nat, a: nat, b: nat, start: nat, chunks: nat,
                             result: seq<U64>)
  {
    start <= |digits| && |result| == chunks * b && DigitsBelow(result, t)
    && (start < |digits| ==> start == chunks * a)
    && chunks * a < |digits| + a && (start == |digits| ==> |digits| <= chunks * a)
    && Value(digits[..start], f) == Value(result, t)
  }

  /** A chunk's value, below f^a == t^b, is what its block of b output digits must denote. */
  lemma ChunkStart(digits: seq<U64>, f: nat, t: nat, a: nat, b: nat, start: nat, end: nat, chunks: nat,
                   result: seq<U64>, value: nat)
    requires f >= 2 && a >= 1 && Pow(f, a) == Pow(t, b) && DigitsBelow(digits, f)
    requires ChunksDone(digits, f, t, a, b, start, chunks, result) && start < |digits|
    requires end == if start + a <= |digits| then start + a else |digits|
    requires value == Value(digits[start..end], f)
    ensures Emitting(Value(digits[..end], f), result, t, value, b)
  {
    var chunk := digits[start..end];
    assert DigitsBelow(chunk, f);
    ValueBelowPow(chunk, f);
    PowMonotone(f, |chunk|, a);
    ChunkPowers(f, t, a, b, chunks);
    ChunkValue(digits, start, end, f, result, t, value);
  }

  /** `result.push(value % to_base); value /= to_base` keeps the block's meaning. */
  lemma EmitChunkDigit(total: nat, result: seq<U64>, t: U64, value: nat, left: nat)
    requires t >= 2 && left >= 1 && Emitting(total, result, t, value, left)
    ensures 0 <= value % t < t && 0 <= value / t <= value
    ensures Emitting(total, result + [value % t], t, value / t, left - 1)
  {
    var q, r := value / t, value % t;
    QuotientFacts(value, t);
    EmitDigit(result, value, t);
    var p := Pow(t, left - 1);
    assert Pow(t, left) == t * p;
    if q >= p {
      MulMonotone(t, p, q);
    }
  }

  lemma QuotientFacts(v: nat, t: nat)
    requires t >= 1
    ensures 0 <= v / t <= v && 0 <= v % t < t && v == t * (v / t) + v % t
  {
    DivMod(v, t);
    if v >= 1 {
      MulMonotone(v / t, 1, t);
    }
  }


  /** After the block: the counters move on by one chunk. */
  lemma ChunkEnd(digits: seq<U64>, f: nat, t: nat, a: nat, b: nat, start: nat, end: nat, chunks: nat,
                 before: seq<U64>, result: seq<U64>, value: nat)
    requires a >= 1 && ChunksDone(digits, f, t, a, b, start, chunks, before) && start < |digits|
    requires end == if start + a <= |digits| then start + a else |digits|
    requires |result| == |before| + b && Emitting(Value(digits[..end], f), result, t, value, 0)
    ensures ChunksDone(digits, f, t, a, b, end, chunks + 1, result)
  {
    MulSucc(a, chunks);
    MulSucc(b, chunks);
    assert value == 0;
    assert Pow(t, |result|) * value == 0;
  }

  /** When the input is used up, the count of blocks is ceil(len / a), and every non-empty
      input leaves at least one digit. */
  lemma ChunksFinished(digits: seq<U64>, f: nat, t: nat, a: nat, b: nat, chunks: nat, result: seq<U64>)
    requires a >= 1 && b >= 1 && ChunksDone(digits, f, t, a, b, |digits|, chunks, result)
    ensures |result| == (|digits| + a - 1) / a * b && DigitsBelow(result, t)
    ensures Value(result, t) == Value(digits, f)
    ensures |result| == 0 <==> |digits| == 0
  {
    assert digits[..|digits|] == digits;
    DivModUnique(|digits| + a - 1, a, chunks, |digits| + a - 1 - chunks * a);
    if chunks >= 1 {
      MulMonotone(b, 1, chunks);
      if |digits| == 0 {
        MulMonotone(a, 1, chunks);
      }
    } else {
      assert chunks * a == 0 && chunks * b == 0;
    }
  }

  /** The inner loop of `convert_aligned_bases`: the chunk's value, accumulated in a `u128`
      from the table of powers of from_base. */
  method ChunkValueU128(chunk: seq<U64>, f: U64, a: nat, fromPowers: seq<U128>) returns (value: U128)
    requires f >= 2 && |chunk| <= a == |fromPowers| && DigitsBelow(chunk, f) && Pow(f, a) < U128_LIMIT
    requires forall k :: 0 <= k < a ==> fromPowers[k] == Pow(f, k)
    ensures value == Value(chunk, f)
  {
    value := 0;
    assert chunk[..0] == [];
    for i := 0 to |chunk|
      invariant value == Value(chunk[..i], f)
    {
      assert value + chunk[i] * fromPowers[i] == Value(chunk[..i + 1], f) < U128_LIMIT by {
        ChunkBound(chunk, f, a, i);
      }
      value := value + chunk[i] * fromPowers[i];
    }
    assert chunk[..|chunk|] == chunk;
  }

  /** `convert_aligned_bases`: with from_base^a == to_base^b, every chunk of a input digits
      is a number below to_base^b, written out as exactly b output digits. Before the final
      pops the output has ceil(len / a) * b digits. */
  method ConvertAlignedBases(digits: seq<U64>, f: U64, t: U64, a: nat, b: nat)
    returns (result: seq<U64>, ghost untrimmed: seq<U64>)
    requires ValidBase(f) && ValidBase(t) && 1 <= a && 1 <= b
    requires Pow(f, a) == Pow(t, b) < U128_LIMIT
    requires DigitsBelow(digits, f)
    ensures |untrimmed| == (|digits| + a - 1) / a * b && DigitsBelow(untrimmed, t)
    ensures result == Trimmed(untrimmed)
    ensures digits == [] ==> result == []
    ensures digits != [] ==> result == ToDigits(Value(digits, f), t)
  {
    var fromPowers: seq<U128> := [1];
    for i := 1 to a
      invariant |fromPowers| == i
      invariant forall k :: 0 <= k < i ==> fromPowers[k] == Pow(f, k)
    {
      NextPower(f, i, a, fromPowers[i - 1]);
      fromPowers := fromPowers + [fromPowers[i - 1] * f];
    }
    result := [];
    var start := 0;
    ghost var chunks := 0;
    assert ChunksDone(digits, f, t, a, b, 0, 0, []) by {
      assert digits[..0] == [];
    }
    while start < |digits|
      invariant ChunksDone(digits, f, t, a, b, start, chunks, result)
      decreases |digits| - start
    {
      var end := if start + a <= |digits| then start + a else |digits|;
      var chunk := digits[start..end];
      var chunkValue := ChunkValueU128(chunk, f, a, fromPowers);
      var value: nat := chunkValue;  // only divided from here on, so it stays a `u128`
      ghost var before := result;
      ghost var total := Value(digits[..end], f);
      assert Emitting(total, result, t, value, b) by {
        ChunkStart(digits, f, t, a, b, start, end, chunks, result, value);
      }
      for j := 0 to b
        invariant |result| == |before| + j && Emitting(total, result, t, value, b - j)
      {
        EmitChunkDigit(total, result, t, value, b - j);
        result := result + [value % t];
        value := value / t;
      }
      assert ChunksDone(digits, f, t, a, b, end, chunks + 1, result) by {
        ChunkEnd(digits, f, t, a, b, start, end, chunks, before, result, value);
      }
      start := end;
      chunks := chunks + 1;
    }
    untrimmed := result;
    ChunksFinished(digits, f, t, a, b, chunks, result);
    if digits != [] {
      TrimmedIsToDigits(result, Value(digits, f), t);
    }
    result := PopTrailingZeros(result);
  }

  // ---------------------------------------------------------------------------------------
  // The general path and the Linux wrappers

  /** What the long-division loop yields: [] for [] and [0] (the loop never runs), otherwise
      the canonical representation. */
  function GeneralResult(digits: seq<U64>, f: U64, t: U64): seq<U64>
    requires t >= 2
  {
    if digits == [] || digits == [0] then [] else ToDigits(Value(digits, f), t)
  }

  /** `convert_general_optimized`: the baseline's long-division loop (the `f64` size estimate
      only reserves capacity and is not modelled). */
  method ConvertGeneralOptimized(digits: seq<U64>, f: U64, t: U64) returns (result: seq<U64>)
    requires ValidBase(f) && ValidBase(t) && DigitsBelow(digits, f)
    ensures result == GeneralResult(digits, f, t)
  {
    result := Baseline.RepeatedDivision(digits, f, t);
  }

  /** What the host offers the Linux wrappers: AVX2, and whether `mmap` or `posix_memalign`
      fail; and whether the build checks arithmetic overflow (a debug build panics on it, a
      release build wraps around). */
  datatype Platform = Platform(linux: bool, hasAvx2: bool, mmapFails: bool, memalignFails: bool,
                               debugAssertions: bool)

  /** `convert_with_mmap`: copies the digits into a mapping (or falls back when `mmap` fails)
      and converts with the general path either way. */
  method ConvertWithMmap(digits: seq<U64>, f: U64, t: U64, mmapFails: bool) returns (result: seq<U64>)
    requires ValidBase(f) && ValidBase(t) && DigitsBelow(digits, f)
    ensures result == GeneralResult(digits, f, t)
  {
    if mmapFails {
      result := ConvertGeneralOptimized(digits, f, t);
      return;
    }
    result := ConvertGeneralOptimized(digits, f, t);
  }

  /** `convert_with_simd_linux`: no SIMD yet; the bit re-slicer for two powers of two, the
      general path otherwise. */
  method ConvertWithSimdLinux(digits: seq<U64>, f: U64, t: U64, debugAssertions: bool)
    returns (r: Result<seq<U64>, ConvertError>)
    requires ValidBase(f) && ValidBase(t) && DigitsBelow(digits, f)
    ensures var panics := IsPowerOfTwo(f) && IsPowerOfTwo(t) && debugAssertions &&
                          SizingOverflows(digits, TrailingZeros(f), TrailingZeros(t));
            (panics ==> r == Failure(ArithmeticOverflow)) &&
            (!panics && IsPowerOfTwo(f) && IsPowerOfTwo(t) && digits != [] ==>
               r == Success(ToDigits(Value(digits, f), t)))
    ensures !(IsPowerOfTwo(f) && IsPowerOfTwo(t)) ==> r == Success(GeneralResult(digits, f, t))
  {
    if IsPowerOfTwo(f) && IsPowerOfTwo(t) {
      r := ConvertPowerOfTwoOptimized(digits, f, t, debugAssertions);
    } else {
      var result := ConvertGeneralOptimized(digits, f, t);
      r := Success(result);
    }
  }

  /** `convert_linux_general`: copies the digits into cache-line aligned memory (or falls back
      when `posix_memalign` fails) and converts with the general path either way. */
  method ConvertLinuxGeneral(digits: seq<U64>, f: U64, t: U64, memalignFails: bool) returns (result: seq<U64>)
    requires ValidBase(f) && ValidBase(t) && DigitsBelow(digits, f)
    ensures result == GeneralResult(digits, f, t)
  {
    if memalignFails {
      result := ConvertGeneralOptimized(digits, f, t);
      return;
    }
    var aligned := digits;
    result := ConvertGeneralOptimized(aligned, f, t);
  }

  /** `convert_linux_optimized`: mmap above 100000 digits, the SIMD wrapper from 16 digits
      when AVX2 is present, the aligned-memory wrapper otherwise. Every non-trivial input gets
      its canonical representation. */
  method ConvertLinuxOptimized(digits: seq<U64>, f: U64, t: U64, platform: Platform) returns (result: seq<U64>)
    requires ValidBase(f) && ValidBase(t) && DigitsBelow(digits, f)
    ensures digits != [] && digits != [0] ==> result == ToDigits(Value(digits, f), t)
    ensures !(IsPowerOfTwo(f) && IsPowerOfTwo(t)) ==> result == GeneralResult(digits, f, t)
  {
    if |digits| > 100000 {
      result := ConvertWithMmap(digits, f, t, platform.mmapFails);
      return;
    }
    if |digits| >= 16 && platform.hasAvx2 {
      if IsPowerOfTwo(f) && IsPowerOfTwo(t) && SizingOverflows(digits, TrailingZeros(f), TrailingZeros(t)) {
        ShiftWidth(f, Log2OfPowerOfTwo(f));
        ShiftWidth(t, Log2OfPowerOfTwo(t));
        SizingOverflowsOnlyWhenHuge(digits, TrailingZeros(f), TrailingZeros(t));
      }
      var r := ConvertWithSimdLinux(digits, f, t, platform.debugAssertions);
      result := r.value;
      return;
    }
    result := ConvertLinuxGeneral(digits, f, t, platform.memalignFails);
  }

  // ---------------------------------------------------------------------------------------
  // The dispatcher

  /** The inputs on which a debug build of `convert_base` panics: valid, non-trivial input
      either between two powers of two whose `u32` output sizing overflows, or reaching the
      `u128` fast path (the Linux branch does not take it) with an unchecked product
      `digit_u128 * power` that overflows. */
  predicate DebugPanics(digits: seq<U64>, f: U64, t: U64, platform: Platform) {
    platform.debugAssertions && ValidBase(f) && ValidBase(t) && f != t &&
    digits != [] && digits != [0] && DigitsBelow(digits, f) &&
    if IsPowerOfTwo(f) && IsPowerOfTwo(t) then SizingOverflows(digits, TrailingZeros(f), TrailingZeros(t))
    else !(platform.linux && |digits| > 1000) && U128AttemptSpec(digits, f) == ProductOverflow
  }

  /** `convert_base` of `src/optimized.rs`. A debug build panics where DebugPanics holds: on
      the `u32` output sizing of the power-of-two path, or on the unchecked product in
      `try_convert_to_u128`. A release build wraps around in both places; the sizing is only a
      capacity hint, and the fast path then gives up as the checked one would. The aligned-exponent
      search runs as written, through the factorization cache, and never answers for distinct
      bases. On every other input, whatever strategy runs, the answer is the one the
      conversion contract fixes, the baseline's. */
  method ConvertBase(digits: seq<U64>, fromBase: U64, toBase: U64, platform: Platform,
                     cache: FactorizationCache)
    returns (r: Result<seq<U64>, ConvertError>)
    requires cache.Valid()
    modifies cache
    ensures cache.Valid()
    ensures DebugPanics(digits, fromBase, toBase, platform) ==> r == Failure(ArithmeticOverflow)
    ensures !DebugPanics(digits, fromBase, toBase, platform) ==> r == ConversionSpec(digits, fromBase, toBase)
  {
    if fromBase < 2 || fromBase > 65536 || toBase < 2 || toBase > 65536 {
      return Failure(InvalidBase(fromBase, toBase));
    }
    if fromBase == toBase {
      return Success(digits);
    }
    if |digits| == 0 || (|digits| == 1 && digits[0] == 0) {
      return Success([0]);
    }
    for i := 0 to |digits|
      invariant DigitsBelow(digits[..i], fromBase)
    {
      if digits[i] >= fromBase {
        Baseline.FirstInvalidDigitAt(digits, fromBase, i);
        return Failure(InvalidDigit(digits[i], fromBase));
      }
      assert digits[..i + 1] == digits[..i] + [digits[i]];
    }
    assert digits[..|digits|] == digits;

    if IsPowerOfTwo(fromBase) && IsPowerOfTwo(toBase) {
      r := ConvertPowerOfTwoOptimized(digits, fromBase, toBase, platform.debugAssertions);
      return;
    }
    if platform.linux && |digits| > 1000 {
      var out := ConvertLinuxOptimized(digits, fromBase, toBase, platform);
      return Success(out);
    }
    var attempt := TryConvertToU128AsWritten(digits, fromBase);
    if attempt.ProductOverflow? && platform.debugAssertions {
      return Failure(ArithmeticOverflow);
    }
    AsWrittenAgreesUnlessOverflow(digits, fromBase);
    if attempt.Fits? {
      var out := ConvertFromU128(attempt.value, toBase);
      return Success(out);
    }
    var aligned := FindAlignedExponents(cache, fromBase, toBase);
    if aligned.Some? {
      // Distinct bases have distinct factorizations (AlignedBranchUnreachable), so
      // `convert_aligned_bases` is never called from here.
      assert false;
    }
    var out := ConvertGeneralOptimized(digits, fromBase, toBase);
    return Success(out);
  }

  /** A digit at place i contributes digits[i] * base^i to the value. */
  lemma PlaceTermBelowValue(digits: seq<U64>, base: nat, i: nat)
    requires i < |digits|
    ensures digits[i] * Pow(base, i) <= Value(digits, base)
  {
    assert digits == digits[..i] + digits[i..];
    ValueAppend(digits[..i], digits[i..], base);
    assert Value(digits[i..], base) >= digits[i] by {
      assert digits[i..][0] == digits[i];
    }
    MulMonotone(Pow(base, i), digits[i], Value(digits[i..], base));
  }

  /** A debug build panics only on huge inputs: between powers of two, on at least 2^28 - 4
      digits; elsewhere, on numbers that do not fit in `u128`, where the fast path could not
      have answered anyway. */
  lemma DebugPanicsOnlyOnHugeInputs(digits: seq<U64>, f: U64, t: U64, platform: Platform)
    requires DebugPanics(digits, f, t, platform)
    ensures IsPowerOfTwo(f) && IsPowerOfTwo(t) ==> |digits| >= 0xFFF_FFFC
    ensures !(IsPowerOfTwo(f) && IsPowerOfTwo(t)) ==>
              Value(digits, f) >= U128_LIMIT && U128FastPath(digits, f) == None
  {
    if IsPowerOfTwo(f) && IsPowerOfTwo(t) {
      ShiftWidth(f, Log2OfPowerOfTwo(f));
      ShiftWidth(t, Log2OfPowerOfTwo(t));
      SizingOverflowsOnlyWhenHuge(digits, TrailingZeros(f), TrailingZeros(t));
    } else {
      var i :| 0 <= i < |digits| && ProductOverflowAt(digits, f, i);
      PlaceTermBelowValue(digits, f, i);
      AsWrittenAgreesUnlessOverflow(digits, f);
    }
  }

  /** 2^28 + 1 digits from base 65536 to base 2 make a debug build panic on the output
      sizing, on every platform; a release build does not panic. */
  lemma SizingPanicExample(linux: bool, hasAvx2: bool, mmapFails: bool, memalignFails: bool)
    ensures var w: seq<U64> := seq(0x1000_0001, _ => 1);
            DebugPanics(w, 65536, 2, Platform(linux, hasAvx2, mmapFails, memalignFails, true)) &&
            !DebugPanics(w, 65536, 2, Platform(linux, hasAvx2, mmapFails, memalignFails, false))
  {
    assert Pow(2, 8) == 256;
    PowAdd(2, 8, 8);
    TrailingZerosOfPow(16);
    TrailingZerosOfPow(1);
    SizingOverflowWitness();
  }

  /** The overflow witness, converted from base 10 to base 3 by a debug build, panics; a
      release build returns its canonical base-3 digits. */
  lemma DebugPanicExample(linux: bool, hasAvx2: bool, mmapFails: bool, memalignFails: bool)
    ensures var w := seq(38, _ => 0) + [4];
            DebugPanics(w, 10, 3, Platform(linux, hasAvx2, mmapFails, memalignFails, true)) &&
            !DebugPanics(w, 10, 3, Platform(linux, hasAvx2, mmapFails, memalignFails, false))
  {
    var w: seq<U64> := seq(38, _ => 0) + [4];
    ProductOverflowWitness();
    NotPowerOfTwoExamples();
    assert w[38] == 4;
  }

  /** The consistency the integration tests check: the optimized and the baseline conversion
      give the same answer on every input, including the panicking ones, except where a debug
      build of the optimized one panics on the overflowing product. */
  method CompareWithBaseline(digits: seq<U64>, fromBase: U64, toBase: U64, platform: Platform,
                             cache: FactorizationCache)
    returns (isCorrect: bool)
    requires cache.Valid()
    modifies cache
    ensures isCorrect <==> !DebugPanics(digits, fromBase, toBase, platform)
  {
    var optimized := ConvertBase(digits, fromBase, toBase, platform, cache);
    var baseline := Baseline.ConvertBase(digits, fromBase, toBase);
    isCorrect := optimized == baseline;
  }

  /** The power-of-two cases of the unit tests: 0xCBA is octal 6272, and 0321 in base 4 is
      0x39. */
  lemma HexToOctalExample()
    ensures ConversionSpec([0xA, 0xB, 0xC], 16, 8) == Success([2, 7, 2, 6])
  {
    assert FirstInvalidDigit([0xA, 0xB, 0xC], 16) == None by {
      assert DigitsBelow([0xA, 0xB, 0xC], 16);
    }
    HexValue();
    OctalDigits();
  }

  lemma HexValue()
    ensures Value([0xA, 0xB, 0xC], 16) == 3258
  {
    assert Value([0xC], 16) == 12;
    assert Value([0xB, 0xC], 16) == 203;
  }

  lemma OctalDigits()
    ensures ToDigits(3258, 8) == [2, 7, 2, 6]
  {
    assert ToDigits(6, 8) == [6];
    assert ToDigits(50, 8) == [2, 6];
    assert ToDigits(407, 8) == [7, 2, 6];
  }

  /** A most-significant zero in the input does not survive: 0b11_1001 is 0x39. */
  lemma QuaternaryToHexExample()
    ensures ConversionSpec([1, 2, 3, 0], 4, 16) == Success([9, 3])
  {
    assert DigitsBelow([1, 2, 3, 0], 4);
    assert Value([1, 2, 3, 0], 4) == 57 by {
      assert Value([0], 4) == 0;
      assert Value([3, 0], 4) == 3;
      assert Value([2, 3, 0], 4) == 14;
    }
    assert ToDigits(57, 16) == [9, 3] by {
      assert ToDigits(3, 16) == [3];
    }
  }

  /** The general case of the unit tests: 12345 is 0x3039. */
  lemma GeneralExample()
    ensures ConversionSpec([5, 4, 3, 2, 1], 10, 16) == Success([9, 3, 0, 3])
  {
    assert Value([5, 4, 3, 2, 1], 10) == 12345;
    assert ToDigits(12345, 16) == [9, 3, 0, 3];
  }

}
