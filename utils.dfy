/**
 * The helpers of `src/utils.rs`: the power-of-two test and its logarithm, the string codec
 * between digit vectors and `0-9a-z` text, the comparison of digit vectors and the trimming
 * of most-significant zeros.
 */
module Utils {
  import opened Wrappers
  import opened DigitVectors
  import opened Bits

  // ---------------------------------------------------------------------------------------
  // Powers of two

  /** `is_power_of_two`: `n > 0 && (n & (n - 1)) == 0`. */
  function IsPowerOfTwo(n: U64): (r: bool)
    ensures r <==> n > 0 && n == Pow(2, TrailingZeros(n))
  {
    if n > 0 then
      PowerOfTwoBitTrick(n);
      BitAnd(n, n - 1) == 0
    else false
  }

  /** The bit test holds exactly of the powers of two. */
  lemma PowerOfTwoIff(n: U64)
    ensures IsPowerOfTwo(n) <==> exists k: nat :: Pow(2, k) == n
  {
    if n > 0 {
      PowerOfTwoBitTrick(n);
    }
    if exists k: nat :: Pow(2, k) == n {
      var k: nat :| Pow(2, k) == n;
      TrailingZerosOfPow(k);
      PowerOfTwoBitTrick(n);
    }
  }

  /** `log2_of_power_of_two`: the exponent of a power of two, read off as its trailing-zero
      count (the source's `debug_assert` becomes the precondition). */
  function Log2OfPowerOfTwo(n: U64): (k: nat)
    requires IsPowerOfTwo(n)
    ensures Pow(2, k) == n
  {
    PowerOfTwoBitTrick(n);
    TrailingZeros(n)
  }

  lemma PowerOfTwoExamples()
    ensures IsPowerOfTwo(1) && IsPowerOfTwo(16) && IsPowerOfTwo(1024)
    ensures Log2OfPowerOfTwo(1) == 0 && Log2OfPowerOfTwo(16) == 4 && Log2OfPowerOfTwo(1024) == 10
  {
    assert Pow(2, 4) == 16;
    assert Pow(2, 10) == 1024;
    PowerOfTwoIff(1);
    PowerOfTwoIff(16);
    PowerOfTwoIff(1024);
    TrailingZerosOfPow(4);
    TrailingZerosOfPow(10);
  }

  lemma NotPowerOfTwoExamples()
    ensures !IsPowerOfTwo(0) && !IsPowerOfTwo(3) && !IsPowerOfTwo(6) && !IsPowerOfTwo(10)
  {
    assert BitAnd(3, 2) == 2 * BitAnd(1, 1);
    assert BitAnd(6, 5) == 2 * BitAnd(3, 2);
    assert BitAnd(10, 9) == 2 * BitAnd(5, 4);
    assert BitAnd(5, 4) == 2 * BitAnd(2, 2);
    BitAndSelf(1);
    BitAndSelf(2);
  }

  // ---------------------------------------------------------------------------------------
  // Text

  /** The character `digits_to_string` writes for one digit. */
  function DigitChar(d: nat): char {
    if d < 10 then (48 + d) as char
    else if d < 36 then (97 + d - 10) as char
    else '?'
  }

  /** The value `string_to_digits` reads from one character, if any. */
  function CharDigit(c: char): Option<nat> {
    if '0' <= c <= '9' then Some(c as int - '0' as int)
    else if 'a' <= c <= 'z' then Some(c as int - 'a' as int + 10)
    else if 'A' <= c <= 'Z' then Some(c as int - 'A' as int + 10)
    else None
  }

  lemma CharDigitOfDigitChar(d: nat)
    requires d < 36
    ensures CharDigit(DigitChar(d)) == Some(d)
  {
  }

  /** The text of a digit vector: most-significant digit first, "0" for the empty vector. */
  function RenderDigits(d: seq<nat>): string {
    if d == [] then "0" else Render(d)
  }

  function Render(d: seq<nat>): (s: string)
    ensures |s| == |d|
  {
    seq(|d|, i requires 0 <= i < |d| => DigitChar(d[|d| - 1 - i]))
  }

  /** `digits_to_string`: one character per digit, walking the digits from the last; the base
      argument is not used. */
  method DigitsToString(digits: seq<U64>, base: U64) returns (s: string)
    ensures s == RenderDigits(digits)
  {
    if |digits| == 0 {
      return "0";
    }
    var chars: seq<char> := [];
    var i := |digits|;
    while i > 0
      invariant 0 <= i <= |digits|
      invariant |chars| == |digits| - i
      invariant forall j :: 0 <= j < |chars| ==> chars[j] == DigitChar(digits[|digits| - 1 - j])
    {
      i := i - 1;
      var digit := digits[i];
      var c: char;
      if digit < 10 {
        c := (48 + digit) as char;
      } else if digit < 36 {
        c := (97 + digit - 10) as char;
      } else {
        c := '?';
      }
      chars := chars + [c];
    }
    s := chars;
  }

  datatype ParseError =
    | InvalidCharacter(c: char)
    | DigitOutOfRange(c: char, base: U64)

  /** Reads `s` from its last character to its first into a little-endian vector, stopping at
      the first character, from the right, that is not a digit below `base`. */
  function ReadDigits(s: string, base: U64): Result<seq<U64>, ParseError>
    decreases |s|
  {
    if s == [] then Success([])
    else
      var c := s[|s| - 1];
      match CharDigit(c)
      case None => Failure(InvalidCharacter(c))
      case Some(d) =>
        if d >= base then Failure(DigitOutOfRange(c, base))
        else Prepend([d], ReadDigits(s[..|s| - 1], base))
  }

  function Prepend(ds: seq<U64>, r: Result<seq<U64>, ParseError>): Result<seq<U64>, ParseError> {
    match r
    case Success(v) => Success(ds + v)
    case Failure(e) => Failure(e)
  }

  lemma PrependPrepend(ds: seq<U64>, es: seq<U64>, r: Result<seq<U64>, ParseError>)
    ensures Prepend(ds, Prepend(es, r)) == Prepend(ds + es, r)
  {
    if r.Success? {
      assert ds + (es + r.value) == (ds + es) + r.value;
    }
  }

  /** What `string_to_digits` returns: [0] for the empty string, otherwise the digits read from
      the right with their most-significant zeros trimmed, or the first error from the right. */
  function ParseDigits(s: string, base: U64): Result<seq<U64>, ParseError> {
    if s == [] then Success([0])
    else match ReadDigits(s, base)
      case Failure(e) => Failure(e)
      case Success(d) => Success(Trimmed(d))
  }

  /** `string_to_digits`. */
  method StringToDigits(s: string, base: U64) returns (r: Result<seq<U64>, ParseError>)
    ensures r == ParseDigits(s, base)
  {
    if |s| == 0 {
      return Success([0]);
    }
    var digits: seq<U64> := [];
    var i := |s|;
    assert s[..i] == s;
    assert Prepend([], ReadDigits(s, base)) == ReadDigits(s, base) by {
      if ReadDigits(s, base).Success? {
        assert [] + ReadDigits(s, base).value == ReadDigits(s, base).value;
      }
    }
    while i > 0
      invariant 0 <= i <= |s|
      invariant ReadDigits(s, base) == Prepend(digits, ReadDigits(s[..i], base))
    {
      var c := s[i - 1];
      assert s[..i][..i - 1] == s[..i - 1];
      var digit: U64;
      if '0' <= c <= '9' {
        digit := c as int - '0' as int;
      } else if 'a' <= c <= 'z' {
        digit := c as int - 'a' as int + 10;
      } else if 'A' <= c <= 'Z' {
        digit := c as int - 'A' as int + 10;
      } else {
        return Failure(InvalidCharacter(c));
      }
      if digit >= base {
        return Failure(DigitOutOfRange(c, base));
      }
      assert CharDigit(c) == Some(digit as nat);
      PrependPrepend(digits, [digit], ReadDigits(s[..i - 1], base));
      digits := digits + [digit];
      i := i - 1;
    }
    assert s[..0] == [];
    assert ReadDigits(s, base) == Success(digits) by {
      assert digits + [] == digits;
    }
    digits := PopTrailingZeros(digits);
    return Success(digits);
  }

  /** Reading accepts a string exactly when every character is a digit below the base. */
  lemma {:induction false} ReadDigitsSucceedsIff(s: string, base: U64)
    ensures ReadDigits(s, base).Success? <==>
              forall i :: 0 <= i < |s| ==> CharDigit(s[i]).Some? && CharDigit(s[i]).value < base
    ensures ReadDigits(s, base).Success? ==>
              var d := ReadDigits(s, base).value;
              |d| == |s| && DigitsBelow(d, base) &&
              forall i :: 0 <= i < |s| ==> d[i] == CharDigit(s[|s| - 1 - i]).value
    decreases |s|
  {
    if s != [] {
      var n := |s| - 1;
      var p := s[..n];
      ReadDigitsSucceedsIff(p, base);
      assert forall i :: 0 <= i < |p| ==> p[i] == s[i];
      var c := s[n];
      if ReadDigits(s, base).Success? {
        var rest := ReadDigits(p, base).value;
        var d := ReadDigits(s, base).value;
        assert d == [CharDigit(c).value as U64] + rest;
        forall i | 0 <= i < |s|
          ensures d[i] == CharDigit(s[|s| - 1 - i]).value
        {
          if i > 0 {
            assert d[i] == rest[i - 1];
            assert p[|p| - 1 - (i - 1)] == s[|s| - 1 - i];
          }
        }
      }
    }
  }

  /** A successful parse is canonical and its digits are below the base. */
  lemma ParseDigitsCanonical(s: string, base: U64)
    requires base >= 1 && ParseDigits(s, base).Success?
    ensures Canonical(ParseDigits(s, base).value) && DigitsBelow(ParseDigits(s, base).value, base)
  {
    if s != [] {
      ReadDigitsSucceedsIff(s, base);
      var d := ReadDigits(s, base).value;
      var r := Trimmed(d);
      assert forall i :: 0 <= i < |r| ==> r[i] == d[i];
    }
  }

  lemma {:induction false} ReadRendered(d: seq<U64>, base: U64)
    requires DigitsBelow(d, base) && base <= 36
    ensures ReadDigits(Render(d), base) == Success(d)
    decreases |d|
  {
    if d != [] {
      var s := Render(d);
      assert s[|s| - 1] == DigitChar(d[0]);
      CharDigitOfDigitChar(d[0]);
      assert s[..|s| - 1] == Render(d[1..]);
      ReadRendered(d[1..], base);
      assert d == [d[0]] + d[1..];
    }
  }

  /** Round trip: rendering a canonical vector of digits below a base of at most 36 and
      parsing the text in that base gives the vector back. */
  lemma RenderParseRoundTrip(d: seq<U64>, base: U64)
    requires Canonical(d) && DigitsBelow(d, base) && base <= 36
    ensures ParseDigits(RenderDigits(d), base) == Success(d)
  {
    ReadRendered(d, base);
  }

  lemma CodecExamples()
    ensures RenderDigits([1, 0, 1, 1]) == "1101" && RenderDigits([15, 15]) == "ff"
    ensures ParseDigits("1101", 2) == Success([1, 0, 1, 1])
    ensures ParseDigits("ff", 16) == Success([15, 15])
  {
    var bin := Render([1, 0, 1, 1]);
    assert DigitChar(0) == '0' && DigitChar(1) == '1' && DigitChar(15) == 'f';
    assert bin[0] == DigitChar(1) && bin[1] == DigitChar(1) && bin[2] == DigitChar(0) && bin[3] == DigitChar(1);
    assert bin == "1101";
    var hex := Render([15, 15]);
    assert hex[0] == DigitChar(15) && hex[1] == DigitChar(15);
    assert hex == "ff";
    RenderParseRoundTrip([1, 0, 1, 1], 2);
    RenderParseRoundTrip([15, 15], 16);
  }

  // ---------------------------------------------------------------------------------------
  // Comparison and trimming

  /** Rust's `std::cmp::Ordering`. */
  datatype Ordering = Less | Equal | Greater {
    function Reverse(): Ordering {
      match this
      case Less => Greater
      case Equal => Equal
      case Greater => Less
    }
  }

  function CompareNat(x: nat, y: nat): Ordering {
    if x < y then Less else if x == y then Equal else Greater
  }

  /** Compares two equal-length vectors from the most-significant end: the first difference
      decides. */
  function CompareFromTop(x: seq<nat>, y: seq<nat>): Ordering
    requires |x| == |y|
    decreases |x|
  {
    if x == [] then Equal
    else if x[|x| - 1] != y[|y| - 1] then CompareNat(x[|x| - 1], y[|y| - 1])
    else CompareFromTop(x[..|x| - 1], y[..|y| - 1])
  }

  /** What `compare_digits` returns: after trimming, the longer vector is greater, and vectors of
      one length compare from the most-significant digit. */
  function CompareDigitsSpec(a: seq<nat>, b: seq<nat>): Ordering {
    var ta, tb := Trimmed(a), Trimmed(b);
    if |ta| != |tb| then CompareNat(|ta|, |tb|) else CompareFromTop(ta, tb)
  }

  /** `trim_leading_zeros`: walks `end` down past most-significant zeros, keeping one digit. */
  method TrimLeadingZeros(digits: seq<U64>) returns (r: seq<U64>)
    ensures r == Trimmed(digits)
  {
    if |digits| == 0 {
      return digits;
    }
    var end := |digits|;
    assert digits[..end] == digits;
    while end > 1 && digits[end - 1] == 0
      invariant 1 <= end <= |digits|
      invariant Trimmed(digits[..end]) == Trimmed(digits)
    {
      assert Trimmed(digits[..end - 1]) == Trimmed(digits[..end]) by {
        assert digits[..end][..end - 1] == digits[..end - 1];
      }
      end := end - 1;
    }
    r := digits[..end];
  }

  /** `compare_digits`: trims both, compares lengths, then walks both from the most-significant
      digit and returns at the first difference. */
  method CompareDigits(a: seq<U64>, b: seq<U64>) returns (r: Ordering)
    ensures r == CompareDigitsSpec(a, b)
  {
    var ta := TrimLeadingZeros(a);
    var tb := TrimLeadingZeros(b);
    if |ta| != |tb| {
      return CompareNat(|ta|, |tb|);
    }
    var i := |ta|;
    assert ta[..i] == ta && tb[..i] == tb;
    while i > 0
      invariant 0 <= i <= |ta|
      invariant CompareFromTop(ta, tb) == CompareFromTop(ta[..i], tb[..i])
    {
      assert ta[..i][..i - 1] == ta[..i - 1] && tb[..i][..i - 1] == tb[..i - 1];
      if ta[i - 1] != tb[i - 1] {
        return CompareNat(ta[i - 1], tb[i - 1]);
      }
      i := i - 1;
    }
    assert ta[..|ta|] == ta && tb[..|tb|] == tb;
    return Equal;
  }

  lemma {:induction false} CompareFromTopEqualIff(x: seq<nat>, y: seq<nat>)
    requires |x| == |y|
    ensures CompareFromTop(x, y) == Equal <==> x == y
    decreases |x|
  {
    if x != [] {
      var n := |x| - 1;
      CompareFromTopEqualIff(x[..n], y[..n]);
      assert x == x[..n] + [x[n]] && y == y[..n] + [y[n]];
    }
  }

  /** `compare_digits` says Equal exactly when the trimmed vectors are equal. */
  lemma CompareEqualIff(a: seq<nat>, b: seq<nat>)
    ensures CompareDigitsSpec(a, b) == Equal <==> Trimmed(a) == Trimmed(b)
  {
    var ta, tb := Trimmed(a), Trimmed(b);
    if |ta| == |tb| {
      CompareFromTopEqualIff(ta, tb);
    }
  }

  lemma {:induction false} CompareFromTopReverse(x: seq<nat>, y: seq<nat>)
    requires |x| == |y|
    ensures CompareFromTop(y, x) == CompareFromTop(x, y).Reverse()
    decreases |x|
  {
    if x != [] {
      var n := |x| - 1;
      CompareFromTopReverse(x[..n], y[..n]);
    }
  }

  /** Swapping the arguments reverses the answer. */
  lemma CompareAntisymmetric(a: seq<nat>, b: seq<nat>)
    ensures CompareDigitsSpec(b, a) == CompareDigitsSpec(a, b).Reverse()
  {
    var ta, tb := Trimmed(a), Trimmed(b);
    if |ta| == |tb| {
      CompareFromTopReverse(ta, tb);
    }
  }

  /** A smaller top digit decides the comparison whatever the lower digits are. */
  lemma TopDigitDecides(xs: seq<nat>, xt: nat, ys: seq<nat>, yt: nat, base: nat)
    requires |xs| == |ys| && DigitsBelow(xs, base) && xt < yt
    ensures Value(xs + [xt], base) < Value(ys + [yt], base)
  {
    ValueSnoc(xs, xt, base);
    ValueSnoc(ys, yt, base);
    ValueBelowPow(xs, base);
    HigherPlaceDecides(Value(xs, base), Value(ys, base), Pow(base, |xs|), xt, yt);
  }

  lemma HigherPlaceDecides(vx: nat, vy: nat, p: nat, xt: nat, yt: nat)
    requires vx < p && xt < yt
    ensures vx + xt * p < vy + yt * p
  {
    assert (xt + 1) * p == xt * p + p;
    MulMonotone(p, xt + 1, yt);
  }

  lemma {:induction false} CompareFromTopMatchesValue(x: seq<nat>, y: seq<nat>, base: nat)
    requires |x| == |y| && DigitsBelow(x, base) && DigitsBelow(y, base)
    ensures CompareFromTop(x, y) == CompareNat(Value(x, base), Value(y, base))
    decreases |x|
  {
    if x != [] {
      var n := |x| - 1;
      var xs, ys := x[..n], y[..n];
      assert x == xs + [x[n]] && y == ys + [y[n]];
      if x[n] < y[n] {
        TopDigitDecides(xs, x[n], ys, y[n], base);
      } else if y[n] < x[n] {
        TopDigitDecides(ys, y[n], xs, x[n], base);
      } else {
        CompareFromTopMatchesValue(xs, ys, base);
        ValueSnoc(xs, x[n], base);
        ValueSnoc(ys, y[n], base);
      }
    }
  }

  /** For non-empty vectors of digits below a base, `compare_digits` orders them as the numbers
      they denote. */
  lemma CompareMatchesValue(a: seq<nat>, b: seq<nat>, base: nat)
    requires |a| >= 1 && |b| >= 1 && base >= 2 && DigitsBelow(a, base) && DigitsBelow(b, base)
    ensures CompareDigitsSpec(a, b) == CompareNat(Value(a, base), Value(b, base))
  {
    var ta, tb := Trimmed(a), Trimmed(b);
    TrimmedValue(a, base);
    TrimmedValue(b, base);
    assert DigitsBelow(ta, base) && DigitsBelow(tb, base);
    if |ta| < |tb| {
      ValueBelowPow(ta, base);
      PowMonotone(base, |ta|, |tb| - 1);
      ValueAtLeastTopPow(tb, base);
    } else if |tb| < |ta| {
      ValueBelowPow(tb, base);
      PowMonotone(base, |tb|, |ta| - 1);
      ValueAtLeastTopPow(ta, base);
    } else {
      CompareFromTopMatchesValue(ta, tb, base);
    }
  }

  lemma CompareExamples()
    ensures CompareDigitsSpec([1, 2, 3], [1, 2, 3]) == Equal
    ensures CompareDigitsSpec([1, 2, 3], [1, 2]) == Greater
    ensures CompareDigitsSpec([1], [9, 9]) == Less
    ensures CompareDigitsSpec([], [0]) == Less
    ensures Trimmed([0, 0, 1, 2, 3, 0, 0]) == [0, 0, 1, 2, 3]
  {
    CompareEqualIff([1, 2, 3], [1, 2, 3]);
  }
}
