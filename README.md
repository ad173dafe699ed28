# fast_base_convert, modelled in Dafny

This project models the conversion engine of the Rust library `fast_base_convert`. The engine
converts a digit vector from one base to another. A digit vector is a little-endian sequence of
`u64` digits, and both bases must lie in `[2, 65536]`.

Every strategy in the library is meant to satisfy one contract. The output is the unique
canonical representation, in `to_base`, of the number the input denotes in `from_base`. A
canonical vector is non-empty and has no most-significant zero unless it is exactly `[0]`. In
the model this contract is `DigitVectors.ConversionSpec`. It is built from `Value` (the sum of
`d[i] * base^i`) and `ToDigits` (the canonical digits of a number). The baseline
`convert_base` is a method whose postcondition is `r == ConversionSpec(...)`. The optimized
`convert_base` satisfies the same postcondition on every input except two kinds, on which a
debug build panics (`DebugPanics`); the model returns the error `ArithmeticOverflow` there.
One kind is power-of-two input of at least 2^28 - 4 digits, whose `u32` output sizing
overflows. The other is input whose unchecked product in `try_convert_to_u128` overflows
`u128`.

What each file models:

- `digit_vectors.dfy`: the `u64`/`u128` ranges, `Pow`, `Value`, `ToDigits`, `Trimmed` (dropping
  most-significant zeros), and the pop-trailing-zeros loop that ends every strategy. It also
  holds `ConversionSpec`, with panics modelled as a `ConvertError` result.
- `bits.dfy`: `&`, `|` and `trailing_zeros`, defined on numbers one bit at a time, and `<<` and
  `>>`, defined by multiplying or dividing by a power of two.
- `utils.dfy`: `src/utils.rs`. This covers the power-of-two test, `log2_of_power_of_two`,
  `trim_leading_zeros`, `compare_digits` and the string/digit codec.
- `baseline.rs` is modelled in `baseline.dfy`. Its long-division pass, the division loop and
  `convert_base` are written as methods with loop invariants.
- `factorization.dfy`: `prime_factorization` and the `get_factorization` memo table, for
  numbers below (2^32 - 1)^2, where the trial divisor's square `p * p` is proved to fit in `u64`.
- `optimized.dfy`: the dispatcher `convert_base` and its strategies:
  - the power-of-two bit re-slicer;
  - the `u128` fast path (`try_convert_to_u128`, `convert_from_u128`);
  - `find_aligned_exponents` and `convert_aligned_bases`;
  - `convert_general_optimized`;
  - the Linux wrappers.

Fixed-width arithmetic is modelled explicitly:

- A value stored in a `u64` or `u128` variable must be proved in range. Examples are
  `carry * from_base + digit`, the bit buffer, the `u128` accumulator and the aligned chunk
  values.
- `<<` drops bits past bit 63.
- The power-of-two path sizes its output in `u32` arithmetic. The `(len - 1) as u32` cast
  truncates, and a debug build panics when the product, the sum or `total_bits + to_shift`
  overflows (`SizingOverflows`). A release build wraps around, which changes only the capacity
  hint.
- The one unchecked `u128` product in the source is modelled as written, and the dispatcher
  runs it. `Platform.debugAssertions` says which build runs. A debug build panics on the
  overflowing product, modelled as `ArithmeticOverflow`. A release build wraps around, and the
  fast path then gives up just as the checked loop does. The checked loop, the evidently
  intended one, is modelled too; see the findings below.

Where the library's design description and its code disagree, the model follows the code:

- With equal bases, the input is returned verbatim. It is not canonicalised and its digits are
  not validated, so `[]` stays `[]`.
- The dispatch order is power of two, then Linux with more than 1000 digits, then the `u128`
  fast path, then aligned bases, then the general loop. The exponent bound of the aligned
  search is 12. The aligned search runs as written, through the factorization cache, and it
  never answers for distinct bases. So the aligned converter is never reached; see the findings.
- The `u128` fast path sums `digit * base^i` from the least-significant digit. It fails as soon
  as `base^len` leaves `u128`, even when the value itself would fit.
- The example conversions `[0xA,0xB,0xC]` 16→8 and `[1,2,3,0]` 4→16 give `[2,7,2,6]` and `[9,3]`.
  These results read the vectors least-significant first, as the code's tests do.

## Model

| member | source | states |
|---|---|---|
| DigitVectors.ToDigits | tests/integration_tests.rs:23-38 | the reference digits of n: they denote n, are canonical and are all below the base |
| DigitVectors.CanonicalUnique | src/baseline.rs:43-45 | a canonical vector with digits below b is ToDigits of its own value, so the canonical form is unique |
| DigitVectors.TrimmedValue | src/baseline.rs:43-45 | popping most-significant zeros keeps the value |
| DigitVectors.TrimmedIdempotent | src/utils.rs:85-96 | trimming twice is trimming once |
| DigitVectors.TrimmedIsToDigits | src/optimized.rs:107-109 | trimming any non-empty vector of valid digits yields the canonical digits of its value |
| DigitVectors.PopTrailingZeros | src/baseline.rs:43-45 | the pop loop computes Trimmed |
| DigitVectors.Trimmed | src/baseline.rs:43-45 | the result is a prefix, everything dropped is zero, it is empty iff the input is, and otherwise it is canonical |
| DigitVectors.FirstInvalidDigit | src/baseline.rs:15-19 | None iff every digit is below the base; otherwise the first out-of-range digit in storage order |
| DigitVectors.ValueBelowPow | tests/integration_tests.rs:8-20 | len digits below b denote less than b^len |
| DigitVectors.ValueAppend | tests/integration_tests.rs:8-20 | the value of a concatenation: low part plus b^len(low) times high part |
| Bits.PowerOfTwoBitTrick | src/utils.rs:4-6 | for n > 0, n & (n - 1) == 0 iff n is 2 to its trailing-zero count |
| Bits.TrailingZerosOfPow | src/utils.rs:9-12 | 2^k has exactly k trailing zeros |
| Bits.BitAndLowMask | src/optimized.rs:97 | `a & ((1 << k) - 1)` is a mod 2^k |
| Bits.BitOrShifted | src/optimized.rs:93 | or-ing a value shifted above every bit of the buffer is addition |
| Utils.IsPowerOfTwo | src/utils.rs:4-6 | the bit test `n > 0 && n & (n - 1) == 0` holds iff n is positive and equals 2 to its trailing-zero count |
| Utils.PowerOfTwoIff | src/utils.rs:4-6 | is_power_of_two(n) holds iff n == 2^k for some k |
| Utils.Log2OfPowerOfTwo | src/utils.rs:9-12 | for a power of two n, returns k with 2^k == n |
| Utils.PowerOfTwoExamples | src/utils.rs:102-119 | 1, 16 and 1024 are powers of two with logarithms 0, 4 and 10 |
| Utils.NotPowerOfTwoExamples | src/utils.rs:102-111 | 0, 3, 6 and 10 are not powers of two |
| Utils.CharDigitOfDigitChar | src/utils.rs:22-28 | reading back the character written for a digit below 36 gives the digit |
| Utils.Render | src/utils.rs:20-30 | one character per digit |
| Utils.DigitsToString | src/utils.rs:15-31 | the loop writes RenderDigits: "0" for [], else one character per digit, most significant first, '?' from 36 up |
| Utils.StringToDigits | src/utils.rs:34-63 | the loop computes ParseDigits: "" gives [0], otherwise the read digits with most-significant zeros popped, or the first error |
| Utils.ReadDigitsSucceedsIff | src/utils.rs:40-56 | reading succeeds iff every character is 0-9, a-z or A-Z with value below the base; then digit i is the value of character len-1-i |
| Utils.ParseDigitsCanonical | src/utils.rs:58-62 | a successful parse is canonical with every digit below the base |
| Utils.ReadRendered | src/utils.rs:15-56 | reading the rendered characters of digits below base <= 36 gives the digits back |
| Utils.RenderParseRoundTrip | src/utils.rs:121-137 | string_to_digits(digits_to_string(d), b) == d for canonical d with digits below b <= 36 |
| Utils.CodecExamples | src/utils.rs:121-137 | [1,0,1,1] is "1101", [15,15] is "ff", and both parse back |
| Utils.TrimLeadingZeros | src/utils.rs:85-96 | the loop computes Trimmed |
| Utils.CompareDigits | src/utils.rs:66-82 | the loop computes CompareDigitsSpec: length of the trimmed vectors first, then the first difference from the top |
| Utils.CompareFromTopEqualIff | src/utils.rs:74-81 | walking equal-length vectors from the top finds no difference iff they are equal |
| Utils.CompareEqualIff | src/utils.rs:66-82 | compare_digits is Equal iff the trimmed vectors are equal |
| Utils.CompareAntisymmetric | src/utils.rs:66-82 | swapping the arguments reverses the answer |
| Utils.CompareFromTopMatchesValue | src/utils.rs:74-81 | on equal-length digit vectors the top-down walk orders them by value |
| Utils.CompareMatchesValue | src/utils.rs:66-82 | for non-empty vectors of valid digits, compare_digits orders them by the numbers they denote |
| Utils.CompareExamples | src/utils.rs:139-159 | the unit-test comparisons, [] below [0], and the trim example |
| Baseline.DivisionStep | src/baseline.rs:29-31 | carry * from_base + digit stays below 2^32 and its quotient below from_base, and the running value is preserved |
| Baseline.StepBounds | src/baseline.rs:29-31 | the step value fits in u64 and the quotient and carry are valid digits |
| Baseline.InnerStep | src/baseline.rs:28-36 | one digit of the pass keeps value(suffix) == to_base * value(quotient so far) + carry |
| Baseline.DivisionPass | src/baseline.rs:25-38 | one pass divides by to_base: value(current) == to_base * value(next) + carry, with carry < to_base and no most-significant zero in next |
| Baseline.QuotientSmaller | src/baseline.rs:24-41 | each pass strictly decreases the value, so the loop terminates |
| Baseline.RepeatedDivision | src/baseline.rs:21-45 | the division loop yields ToDigits of the input's value, or [] when the input is [] or [0] |
| Baseline.ReversedKeepsDigits | src/baseline.rs:38 | reversing keeps every digit valid and puts the first pushed digit last |
| Baseline.ConvertBase | src/baseline.rs:2-48 | the oracle equals ConversionSpec: base check first, equal bases verbatim, [] and [0] give [0], then the digit check, then the canonical digits of the value |
| Baseline.ConversionFailsIff | src/baseline.rs:3-19 | a conversion fails iff a base is out of range, or the bases differ and a non-trivial input holds a digit >= from_base |
| Baseline.ConversionPreservesValue | src/baseline.rs:21-47 | a successful conversion between different bases is canonical, has valid digits and denotes the input's value |
| Baseline.RoundTrip | tests/integration_tests.rs:174-187 | converting there and back returns the trimmed input |
| Baseline.TrivialCaseExamples | src/baseline.rs:54-107 | the equal-base, zero, empty and invalid-digit unit tests |
| Baseline.DecimalToHexExamples | src/baseline.rs:68-94 | [5,5,2] is [15,15] and [9,9,9,9,9] is [15,9,6,8,1] in base 16 |
| Baseline.BinaryExamples | src/baseline.rs:75-87 | [3,1] base 10 is [1,0,1,1] base 2, and back |
| Factorization.Strip | src/optimized.rs:186-192 | dividing p out of n leaves an r in [1, n] not divisible by p, with n == p^multiplicity * r |
| Factorization.FactorizationProduct | src/optimized.rs:175-203 | multiplying out the factorization gives n |
| Factorization.OddFactorsProduct | src/optimized.rs:184-199 | the factors trial division by p, p+2, ... finds multiply to n |
| Factorization.FactorizationWellFormed | src/optimized.rs:175-203 | primes strictly ascending with positive exponents, so factors.sort() changes nothing |
| Factorization.OddFactorsWellFormed | src/optimized.rs:184-199 | the odd trial divisors find primes, ascending, none below p |
| Factorization.LeftoverIsPrime | src/optimized.rs:197-199 | what is left above 1 once p * p > n is a prime |
| Factorization.FactorizationInjective | src/optimized.rs:158 | equal factor lists mean equal numbers |
| Factorization.FactorizationExamples | src/optimized.rs:175-203 | 12 is [(2,2),(3,1)], 9 is [(3,2)], 27 is [(3,3)] |
| Factorization.TrailingZerosIsMultiplicity | src/optimized.rs:178-182 | trailing_zeros is the multiplicity of 2 and n >> count is the odd part |
| Factorization.TrailingZerosBelow64 | src/optimized.rs:179 | a positive u64 has fewer than 64 trailing zeros, so the shift is defined |
| Factorization.PrimeFactorization | src/optimized.rs:175-203 | for 1 <= n < (2^32 - 1)^2, the trial-division loops compute Factorization(n), with the divisor p and its square `p * p` kept in `u64` |
| Factorization.SquareFits | src/optimized.rs:185 | a divisor up to 2^32 - 1 has a square at most (2^32 - 1)^2, which is below 2^64 |
| Factorization.OddFactorsStep | src/optimized.rs:185-194 | one round of the odd loop, read on the specification |
| Factorization.FactorizationCache.GetFactorization | src/optimized.rs:13-27 | for 1 <= n < (2^32 - 1)^2 the answer is Factorization(n) whether cached or not; the map is created on first use and only n's entry is added |
| Optimized.AbsorbBits | src/optimized.rs:93-94 | with at most 31 buffered bits, `digit << bits` does not overflow and or-ing it in adds digit * 2^bits |
| Optimized.EmitGroupBits | src/optimized.rs:97-98 | the mask takes the low to_shift bits and the shift leaves the rest |
| Optimized.AbsorbStep | src/optimized.rs:93-94 | absorbing a digit keeps the re-slicing invariant: input value == emitted value + to_base^emitted * buffer |
| Optimized.EmitStep | src/optimized.rs:96-100 | emitting one group keeps the re-slicing invariant |
| Optimized.FinishStep | src/optimized.rs:103-105 | pushing the partial group gives valid digits of the input's value, non-empty iff the input is |
| Optimized.FlushBuffer | src/optimized.rs:103-105 | the final partial group is a valid digit and completes the value |
| Optimized.BitCount | src/optimized.rs:92-105 | no bits read iff nothing emitted or buffered |
| Optimized.EmitFullGroups | src/optimized.rs:96-100 | the inner loop leaves fewer than to_shift bits and keeps the invariant |
| Optimized.ConvertPowerOfTwoOptimized | src/optimized.rs:76-112 | a debug build fails with ArithmeticOverflow where the `u32` sizing overflows; otherwise the re-slicer yields ToDigits of the input's value ([] for []) |
| Optimized.SizingOverflowsOnlyWhenHuge | src/optimized.rs:80-86 | the `u32` sizing overflows only on inputs of at least 2^28 - 4 digits |
| Optimized.SizingOverflowWitness | src/optimized.rs:83 | 2^28 + 1 digits from base 65536 make `((len - 1) as u32) * from_shift` reach 2^32 |
| Bits.BitLength | src/optimized.rs:82 | `64 - leading_zeros()`: n < 2^r, and 2^(r-1) <= n for n > 0 |
| Optimized.U128FastPath | src/optimized.rs:114-134 | Some exactly when from_base^len < 2^128, and then the input's value |
| Optimized.AccumulateStep | src/optimized.rs:119-131 | one iteration adds digit * base^i and stays below base^(i+1) <= base^len |
| Optimized.TryConvertToU128 | src/optimized.rs:114-134 | the checked loop returns U128FastPath |
| Optimized.TryConvertToU128AsWritten | src/optimized.rs:114-134 | the loop as written returns U128AttemptSpec: the overflowing product if one is reached first, else the fast path's answer |
| Optimized.ProductInRangeWhenFits | src/optimized.rs:122 | whenever base^len fits, no product at line 122 overflows and the value is returned |
| Optimized.LaterStepsFit | src/optimized.rs:127-130 | after the power check fails no product is ever reached |
| Optimized.AsWrittenAgreesUnlessOverflow | src/optimized.rs:119-131 | the loop as written agrees with the checked one except where a product overflows, and that happens only when the fast path would answer None |
| Optimized.PowersOfTen | src/optimized.rs:122 | 10^38 < 2^128 <= 4 * 10^38, as the overflow witness uses |
| Optimized.ProductOverflowWitness | src/optimized.rs:122 | 38 zeros then 4, in base 10, overflows the product at line 122, and the fast path answers None |
| Optimized.ConvertFromU128 | src/optimized.rs:136-150 | returns ToDigits(num), which is [0] for 0 |
| Optimized.PeelDigit | src/optimized.rs:144-147 | one iteration peels the low digit and keeps result ++ digits(num) == ToDigits(original) |
| Optimized.FindAlignedExponentsIntended | src/optimized.rs:162-172 | a returned (a, b) is aligned and lexicographically least, and None means no aligned pair up to 12 |
| Optimized.FindAlignedExponents | src/optimized.rs:152-173 | as written, through the cache: Some only when from_base == to_base, and then (1, 1) |
| Optimized.AlignedBranchUnreachable | src/optimized.rs:68-70 | different valid bases have different factorizations, so the aligned branch is never taken |
| Optimized.NineAndTwentySeven | src/optimized.rs:158-159 | 9^3 == 27^2, yet the factorizations differ and the as-written search answers None |
| Optimized.ChunkValueU128 | src/optimized.rs:222-225 | a chunk's u128 value is the value of its digits |
| Optimized.ChunkStart | src/optimized.rs:221-225 | a chunk's value completes the value of the digits consumed so far |
| Optimized.EmitChunkDigit | src/optimized.rs:227-230 | emitting one digit of a chunk keeps the emitted value plus the remaining value |
| Optimized.ChunkEnd | src/optimized.rs:227-231 | after b digits the chunk is used up and the chunk invariant holds for the next chunk |
| Optimized.ChunksFinished | src/optimized.rs:218-231 | before trimming there are ceil(len/a) * b valid digits denoting the input's value |
| Optimized.ConvertAlignedBases | src/optimized.rs:205-238 | ceil(len/a) * b digits before trimming, then ToDigits of the input's value |
| Optimized.ConvertGeneralOptimized | src/optimized.rs:240-272 | the copied division loop gives GeneralResult: [] for [] and [0], else ToDigits |
| Optimized.ConvertWithMmap | src/optimized.rs:293-328 | returns the general result whether or not mmap fails |
| Optimized.ConvertWithSimdLinux | src/optimized.rs:332-340 | power-of-two bases take the re-slicer, with its debug-build sizing panic; others get the general result |
| Optimized.ConvertLinuxGeneral | src/optimized.rs:344-382 | returns the general result whether or not posix_memalign fails |
| Optimized.ConvertLinuxOptimized | src/optimized.rs:276-289 | for every input other than [] and [0], whatever its length and the CPU, the canonical digits of the value; between other than two powers of two, the general result |
| Optimized.ConvertBase | src/optimized.rs:29-74 | the dispatcher runs the code as written: where DebugPanics holds it fails with ArithmeticOverflow; everywhere else it equals ConversionSpec, on every platform; the aligned branch is never taken |
| Optimized.DebugPanicsOnlyOnHugeInputs | src/optimized.rs:80-86 | a debug build panics between powers of two only on at least 2^28 - 4 digits; elsewhere only on numbers of at least 2^128, where the checked fast path answers None too |
| Optimized.SizingPanicExample | src/optimized.rs:49-51 | 2^28 + 1 digits from base 65536 to base 2 panic in a debug build on every platform, and not in a release build |
| Optimized.DebugPanicExample | src/optimized.rs:61-63 | 38 zeros then 4, from base 10 to base 3, panics in a debug build on every platform and does not in a release build |
| Optimized.CompareWithBaseline | tests/integration_tests.rs:155-172 | the optimized and baseline results are equal exactly when DebugPanics does not hold: no debug-build panic on the `u32` sizing or on the unchecked product |
| Optimized.HexToOctalExample | src/optimized.rs:402-412 | [0xA,0xB,0xC] 16→8 is [2,7,2,6] |
| Optimized.GeneralExample | src/optimized.rs:414-424 | [5,4,3,2,1] 10→16 is [9,3,0,3] |
| Optimized.QuaternaryToHexExample | src/optimized.rs:426-436 | [1,2,3,0] 4→16 is [9,3] |

## Left out

- The `Mutex` around the factorization cache is not modelled. The cache is a class with an
  optional map.
- Linux wrappers: `mmap`, `posix_memalign`, copying and freeing memory, and AVX2 detection are
  foreign calls. They become the parameters `mmapFails`, `memalignFails` and `hasAvx2`, and
  `Platform.linux` replaces `cfg(target_os)`. `get_linux_system_info` reads the operating
  system and is not modelled.
- Capacity hints change no output in a release build. The `f64` size estimate in
  `convert_general_optimized` is not modelled; its `as usize` cast saturates and cannot panic.
  `total_bits` / `output_len` in `convert_power_of_two_optimized` are modelled only for their
  debug-build overflow panic (SizingOverflows). The allocation they request, and its failure,
  are not modelled.
- `factors.sort()` is not executed. The list is proved to be already strictly ascending
  (FactorizationWellFormed), so sorting would not change it.
- ConvertFromU128: `num` is kept as an unbounded number while it is divided down. It only
  shrinks from a `u128`, so no width is lost.
- ConvertAlignedBases: the chunk value is likewise an unbounded number while it is divided
  down. Its `u128` bound is proved when the value is built, in ChunkValueU128.
- Optimized.ConvertPowerOfTwoOptimized: the inner `while` loop is a separate method,
  EmitFullGroups, with the same body. It is inlined in the source.
- Optimized.ConvertBase: the factorization cache is a parameter shared across calls, as the
  static is. The aligned branch is proved dead, so `convert_aligned_bases` is modelled and proved
  on its own, with the exponents the intended search returns.
- Factorization.PrimeFactorization: requires n0 < (2^32 - 1)^2 (and so does
  Factorization.FactorizationCache.GetFactorization). Above that bound a large enough prime
  cofactor, such as n0 = 2^64 - 59, drives p to 2^32 + 1. There `p * p` overflows: a debug
  build panics and a release build wraps around and keeps looping. This is not modelled. The
  only callers pass bases of at most 65536. n0 = 0 is excluded too: `trailing_zeros` gives 64,
  and a debug build panics on the shift by 64. A release build masks the shift amount and
  returns [(2, 64)].
- The wasm bridge, benchmarks, example programs and debug drivers are timing, printing and
  floating-point code and are not part of this model. The benchmark's `is_correct` flag is
  CompareWithBaseline.
- `convert_base_auto` in `src/lib.rs` is a re-export of `convert_base` and is not modelled
  separately.
- Panics are not unwinding here. Invalid bases and digits become `ConvertError` results, and
  invalid characters in parsing become `ParseError`. `log2_of_power_of_two`'s `debug_assert!`
  is a precondition.

## Findings

| source | as written | input that shows it | evidently intended | confidence | as-written member | corrected member |
|---|---|---|---|---|---|---|
| src/optimized.rs:158 | `find_aligned_exponents` returns `None` unless the two factorizations, exponents included, are equal, which makes the bases equal; line 34 has already returned for equal bases, so `convert_aligned_bases` is unreachable | from_base 9, to_base 27: 9^3 == 27^2, but the factorizations [(3,2)] and [(3,3)] differ | search the exponent pairs directly with checked powers (the source's unchecked `pow` at lines 163 and 166 overflows for bases such as 65536^5), or compare only the sets of primes | high (proved; not executed) | Optimized.FindAlignedExponents, Optimized.NineAndTwentySeven | Optimized.FindAlignedExponentsIntended |
| src/optimized.rs:122 | `digit_u128 * power` is unchecked; only the sum is checked. In a debug build an overflowing product panics. In a release build it wraps, and the power check on line 127 then returns `None`. | 39 base-10 digits, 38 zeros then 4: at the last step power is 10^38 < 2^128 and 4 * 10^38 >= 2^128 | `checked_mul` on the product, falling through with `None` | high (proved; not executed) | Optimized.TryConvertToU128AsWritten, Optimized.ProductOverflowWitness | Optimized.TryConvertToU128 |
