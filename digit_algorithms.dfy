/*
 * The base-b digit helpers of include/qpl/algorithm.hpp: get_digit, set_digit,
 * the digit flips, and the u32 base bounds (base_full_bit_usage, base_max_log,
 * base_max) that flip_digits relies on.
 */
module DigitAlgorithms {
  import opened IntegerAlgorithms

  /** get_digit (algorithm.hpp:187-190): (value / base^position) % base. */
  function GetDigit(value: nat, position: nat, base: nat): nat
    requires base >= 1
  {
    (value / Pow(base, position)) % base
  }

  /** Shifting out the low digits: (x / a) / b == x / (a * b). */
  lemma DivDiv(x: nat, a: nat, b: nat)
    requires a >= 1 && b >= 1
    ensures x / a / b == x / (a * b)
  {
    var q, r1, r0 := x / a / b, (x / a) % b, x % a;
    assert x == a * (x / a) + r0;
    assert x / a == b * q + r1;
    MulDistrib(a, b * q, r1);
    MulAssoc(a, b, q);
    assert x == (a * b) * q + (a * r1 + r0);
    MulLe(a, r1, b - 1);
    MulDistrib(a, b - 1, 1);
    MulLe(a, 1, b);
    DivModUnique(x, a * b, q, a * r1 + r0);
  }

  /** Adding a multiple of m does not change the remainder. */
  lemma ModAddMultiple(m: nat, k: int, y: nat)
    requires m >= 1
    ensures (m * k + y) % m == y % m
  {
    assert y == m * (y / m) + y % m;
    MulDistrib(m, k, y / m);
    DivModUnique(m * k + y, m, k + y / m, y % m);
  }

  /** Digit q >= p of x is digit q - p of x / base^p. */
  lemma DigitOfHighPart(x: nat, base: nat, p: nat, q: nat)
    requires base >= 2 && p <= q
    ensures GetDigit(x, q, base) == GetDigit(x / Pow(base, p), q - p, base)
  {
    PowAdd(base, p, q - p);
    DivDiv(x, Pow(base, p), Pow(base, q - p));
  }

  /** A remainder never exceeds the non-negative number it is taken from. */
  lemma ModAtMost(y: nat, m: nat)
    requires m >= 1
    ensures y % m <= y
  {
    assert y == m * (y / m) + y % m;
    MulLe(m, 0, y / m);
  }

  /** The digit-free core of DigitOfLowPart: below b * (base * c), the part above is a multiple of base at scale b. */
  lemma LowPartCore(x: nat, b: nat, c1: nat, base: nat)
    requires b >= 1 && c1 >= 1 && base >= 1
    ensures (x / b) % base == ((x % (b * (base * c1))) / b) % base
  {
    var c := base * c1;
    MulLe(base, 1, c1);
    MulLe(b, 1, c);
    var a, low := x / (b * c), x % (b * c);
    assert x == (b * c) * a + low;
    assert low == b * (low / b) + low % b;
    MulAssoc(b, c, a);
    MulDistrib(b, c * a, low / b);
    DivModUnique(x, b, c * a + low / b, low % b);
    MulAssoc(base, c1, a);
    ModAddMultiple(base, c1 * a, low / b);
  }

  /** Digit q < p of x is digit q of x % base^p. */
  lemma DigitOfLowPart(x: nat, base: nat, p: nat, q: nat)
    requires base >= 2 && q < p
    ensures GetDigit(x, q, base) == GetDigit(x % Pow(base, p), q, base)
  {
    var b, c1 := Pow(base, q), Pow(base, p - q - 1);
    PowAdd(base, q, p - q);
    assert Pow(base, p - q) == base * c1;
    LowPartCore(x, b, c1, base);
  }

  /** The digit-free core of DigitBelowValue. */
  lemma ScaledDigitCore(x: nat, pw: nat, base: nat)
    requires pw >= 1 && base >= 1
    ensures ((x / pw) % base) * pw <= x
  {
    assert x == pw * (x / pw) + x % pw;
    ModAtMost(x / pw, base);
    MulLe(pw, (x / pw) % base, x / pw);
  }

  /** The digit at position p, scaled by base^p, never exceeds the value. */
  lemma DigitBelowValue(x: nat, base: nat, p: nat)
    requires base >= 2
    ensures GetDigit(x, p, base) * Pow(base, p) <= x
  {
    ScaledDigitCore(x, Pow(base, p), base);
  }

  /** The digit-free core of Assemble. */
  lemma AssembleCore(x: nat, pw: nat, base: nat, high: nat, digit: nat, low: nat)
    requires pw >= 1 && base >= 1 && digit < base && low < pw
    requires x == pw * (base * high + digit) + low
    ensures (x / pw) % base == digit && x % pw == low && x / (pw * base) == high
  {
    DivModUnique(x, pw, base * high + digit, low);
    DivModUnique(base * high + digit, base, high, digit);
    MulDistrib(pw, base * high, digit);
    MulAssoc(pw, base, high);
    MulLe(pw, digit, base - 1);
    MulDistrib(pw, base - 1, 1);
    MulLe(pw, 1, base);
    DivModUnique(x, pw * base, high, pw * digit + low);
  }

  /** set_digit moves the value by (digit - original) * pw, which rebuilds it around the new digit. */
  lemma ShiftCore(value: nat, pw: nat, base: nat, digit: nat)
    requires pw >= 1 && base >= 1
    ensures value + (digit - (value / pw) % base) * pw == pw * (base * (value / (pw * base)) + digit) + value % pw
  {
    var q, high := value / pw, value / (pw * base);
    var original := (value / pw) % base;
    assert value == pw * q + value % pw;
    assert q == base * (q / base) + original;
    DivDiv(value, pw, base);
    MulDistrib(pw, base * high, original);
    MulDistrib(pw, base * high, digit);
    assert (digit - original) * pw == pw * digit - pw * original;
  }

  /** The digit-free core of SetDigitWritesDigit. */
  lemma WritesCore(value: nat, pw: nat, base: nat, digit: nat, r: nat)
    requires pw >= 1 && base >= 1 && digit < base
    requires r == value + (digit - (value / pw) % base) * pw
    ensures (r / pw) % base == digit && r % pw == value % pw && r / (pw * base) == value / (pw * base)
  {
    ShiftCore(value, pw, base, digit);
    AssembleCore(r, pw, base, value / (pw * base), digit, value % pw);
  }

  /**
   * set_digit_copied (algorithm.hpp:202-206), computed as set_digit does
   * (algorithm.hpp:191-201): the difference between the new and the original digit,
   * scaled by base^position, is added to or subtracted from the value.
   */
  function SetDigitCopied(value: nat, position: nat, digit: nat, base: nat): nat
    requires base >= 2
  {
    var pw := Pow(base, position);
    var original := GetDigit(value, position, base);
    if original >= digit then
      LoweringStaysNatural(value, position, digit, base);
      value - (original - digit) * pw
    else value + (digit - original) * pw
  }

  lemma LoweringCore(value: nat, pw: nat, original: nat, digit: nat)
    requires digit <= original && original * pw <= value
    ensures value - (original - digit) * pw >= 0
  {
    MulLe(pw, original - digit, original);
  }

  /** Lowering a digit cannot take the value below zero. */
  lemma LoweringStaysNatural(value: nat, position: nat, digit: nat, base: nat)
    requires base >= 2 && GetDigit(value, position, base) >= digit
    ensures value - (GetDigit(value, position, base) - digit) * Pow(base, position) >= 0
  {
    DigitBelowValue(value, base, position);
    LoweringCore(value, Pow(base, position), GetDigit(value, position, base), digit);
  }

  lemma SetDigitCopiedIsShift(value: nat, position: nat, digit: nat, base: nat)
    requires base >= 2
    ensures SetDigitCopied(value, position, digit, base) ==
      value + (digit - GetDigit(value, position, base)) * Pow(base, position)
  {
  }

  /**
   * With a digit below the base, set_digit leaves exactly that digit changed:
   * the new digit reads back, and the digits below and above position are kept.
   */
  lemma SetDigitWritesDigit(value: nat, position: nat, digit: nat, base: nat)
    requires base >= 2 && digit < base
    ensures var r := SetDigitCopied(value, position, digit, base);
      GetDigit(r, position, base) == digit &&
      r % Pow(base, position) == value % Pow(base, position) &&
      r / (Pow(base, position) * base) == value / (Pow(base, position) * base)
  {
    SetDigitCopiedIsShift(value, position, digit, base);
    WritesCore(value, Pow(base, position), base, digit, SetDigitCopied(value, position, digit, base));
  }

  /** Every digit other than the one written keeps its value. */
  lemma SetDigitKeepsOtherDigits(value: nat, position: nat, digit: nat, base: nat, q: nat)
    requires base >= 2 && digit < base && q != position
    ensures GetDigit(SetDigitCopied(value, position, digit, base), q, base) == GetDigit(value, q, base)
  {
    SetDigitWritesDigit(value, position, digit, base);
    SameOutsideDigit(SetDigitCopied(value, position, digit, base), value, base, position, q);
  }

  /** Two numbers that agree below and above digit position p agree on every other digit. */
  lemma SameOutsideDigit(r: nat, value: nat, base: nat, p: nat, q: nat)
    requires base >= 2 && q != p
    requires r % Pow(base, p) == value % Pow(base, p)
    requires r / (Pow(base, p) * base) == value / (Pow(base, p) * base)
    ensures GetDigit(r, q, base) == GetDigit(value, q, base)
  {
    if q < p {
      DigitOfLowPart(r, base, p, q);
      DigitOfLowPart(value, base, p, q);
    } else {
      assert Pow(base, p + 1) == Pow(base, p) * base;
      DigitOfHighPart(r, base, p + 1, q);
      DigitOfHighPart(value, base, p + 1, q);
    }
  }

  /** set_digit (algorithm.hpp:191-201), on the value its reference parameter holds. */
  method SetDigit(value: nat, position: nat, digit: nat, base: nat) returns (updated: nat)
    requires base >= 2
    ensures updated == SetDigitCopied(value, position, digit, base)
  {
    var pw := Pow(base, position);
    var original := (value / pw) % base;
    assert original == GetDigit(value, position, base);
    if original >= digit {
      LoweringStaysNatural(value, position, digit, base);
      updated := value - (original - digit) * pw;
      assert updated == SetDigitCopied(value, position, digit, base);
    } else {
      updated := value + (digit - original) * pw;
      assert updated == SetDigitCopied(value, position, digit, base);
    }
  }

  /**
   * flipped_digits_until (algorithm.hpp:251-255): value + (base^position - 1 - 2 (value % base^position)).
   * The digits below position are replaced by their complements and the rest is kept.
   */
  function FlippedDigitsUntil(value: nat, position: nat, base: nat): (r: nat)
    requires base >= 1
    ensures r / Pow(base, position) == value / Pow(base, position)
    ensures r % Pow(base, position) == Pow(base, position) - 1 - value % Pow(base, position)
  {
    var pw := Pow(base, position);
    assert value == pw * (value / pw) + value % pw;
    DivModUnique(value + (pw - 1 - (value % pw) * 2), pw, value / pw, pw - 1 - value % pw);
    value + (pw - 1 - (value % pw) * 2)
  }

  /** One digit of the complement: the lowest digit of base * rest - 1 - low is base - 1 - low % base. */
  lemma ComplementStep(low: nat, base: nat, rest: nat)
    requires base >= 2 && rest >= 1 && low < base * rest
    ensures low / base < rest
    ensures (base * rest - 1 - low) % base == base - 1 - low % base
    ensures (base * rest - 1 - low) / base == rest - 1 - low / base
  {
    assert low == base * (low / base) + low % base;
    if low / base >= rest {
      MulLe(base, rest, low / base);
    }
    MulDistrib(base, rest, -1 - low / base);
    MulDistrib(base, -1, -(low / base));
    DivModUnique(base * rest - 1 - low, base, rest - 1 - low / base, base - 1 - low % base);
  }

  /** Below base^p, subtracting from base^p - 1 complements every digit. */
  lemma {:induction false} ComplementDigits(low: nat, base: nat, p: nat, q: nat)
    requires base >= 2 && low < Pow(base, p) && q < p
    ensures GetDigit(Pow(base, p) - 1 - low, q, base) == base - 1 - GetDigit(low, q, base)
    decreases q
  {
    var rest := Pow(base, p - 1);
    assert Pow(base, p) == base * rest;
    var x := Pow(base, p) - 1 - low;
    ComplementStep(low, base, rest);
    if q == 0 {
      assert GetDigit(x, 0, base) == x % base;
      assert GetDigit(low, 0, base) == low % base;
    } else {
      assert Pow(base, 1) == base;
      ComplementDigits(low / base, base, p - 1, q - 1);
      DigitOfHighPart(x, base, 1, q);
      DigitOfHighPart(low, base, 1, q);
      assert x / base == rest - 1 - low / base;
    }
  }

  /** flipped_digits_until complements exactly the digits below position. */
  lemma FlippedDigitsUntilDigits(value: nat, position: nat, base: nat, q: nat)
    requires base >= 2
    ensures var r := FlippedDigitsUntil(value, position, base);
      GetDigit(r, q, base) == if q < position then base - 1 - GetDigit(value, q, base) else GetDigit(value, q, base)
  {
    var r := FlippedDigitsUntil(value, position, base);
    var pw := Pow(base, position);
    if q < position {
      DigitOfLowPart(r, base, position, q);
      DigitOfLowPart(value, base, position, q);
      ComplementDigits(value % pw, base, position, q);
    } else {
      DigitOfHighPart(r, base, position, q);
      DigitOfHighPart(value, base, position, q);
    }
  }

  /** flip_digits_until (algorithm.hpp:246-250), on the value its reference parameter holds. */
  method FlipDigitsUntil(value: nat, position: nat, base: nat) returns (updated: nat)
    requires base >= 1
    ensures updated == FlippedDigitsUntil(value, position, base)
  {
    var pw := Pow(base, position);
    updated := value + (pw - 1 - (value % pw) * 2);
  }

  /**
   * flipped_digits_until_msd (algorithm.hpp:260-263): flips every significant digit,
   * which is the complement base^d - 1 - value with d the number of significant digits.
   */
  function FlippedDigitsUntilMsd(value: nat, base: nat): (r: nat)
    requires base >= 2
    ensures r == Pow(base, SignificantDigit(value, base)) - 1 - value
  {
    var pw := Pow(base, SignificantDigit(value, base));
    DivModUnique(value, pw, 0, value);
    FlippedDigitsUntil(value, SignificantDigit(value, base), base)
  }

  /** flip_digits_until_msd (algorithm.hpp:256-259), on the value its reference parameter holds. */
  method FlipDigitsUntilMsd(value: nat, base: nat) returns (updated: nat)
    requires base >= 2
    ensures updated == FlippedDigitsUntilMsd(value, base)
  {
    updated := FlipDigitsUntil(value, SignificantDigit(value, base), base);
  }

  /** The width of qpl::u32, the digit type these bounds are modelled for. */
  const Bits: nat := 32
  const Modulus: nat := 0x1_0000_0000

  /**
   * base_full_bit_usage (algorithm.hpp:220-223) for u32: a power of two whose exponent
   * divides the width. Base 1 makes the source divide by zero and is excluded.
   */
  function BaseFullBitUsage(base: nat): bool
    requires base < Modulus && base != 1
  {
    IsPowerOfTwo(base) && Bits % (BitLength(base) - 1) == 0
  }

  /** The powers of two the u32 bounds need, built by doubling the exponent. */
  lemma PowersOfTwo()
    ensures Pow(2, 1) == 2 && Pow(2, 2) == 4 && Pow(2, 4) == 16 && Pow(2, 8) == 256
    ensures Pow(2, 16) == 65536 && Pow(2, 32) == Modulus
  {
    assert Pow(2, 1) == 2;
    PowAdd(2, 1, 1);
    PowAdd(2, 2, 2);
    PowAdd(2, 4, 4);
    PowAdd(2, 8, 8);
    PowAdd(2, 16, 16);
  }

  lemma DivisorsOf32(k: nat)
    requires 1 <= k < 32 && Bits % k == 0
    ensures k == 1 || k == 2 || k == 4 || k == 8 || k == 16
  {
  }

  lemma BitLengthAtLeastTwo(n: nat)
    requires n >= 2
    ensures BitLength(n) >= 2
  {
    assert BitLength(n) == 1 + BitLength(n / 2);
  }

  /** A full base is 2^k with k a divisor of 32 other than 32 itself. */
  lemma FullBaseExponent(base: nat)
    requires base < Modulus && base != 1 && BaseFullBitUsage(base)
    ensures var k := BitLength(base) - 1;
      base == Pow(2, k) && 1 <= k < 32 && Bits % k == 0
  {
    var k := BitLength(base) - 1;
    BitLengthAtLeastTwo(base);
    PowersOfTwo();
    if k > 32 {
      PowStrictlyIncreasing(2, 32, k);
    }
  }

  /** The u32 bases whose digits fill the word exactly are 2, 4, 16, 256 and 65536. */
  lemma FullBitUsageBases(base: nat)
    requires base < Modulus && base != 1
    ensures BaseFullBitUsage(base) <==> base in {2, 4, 16, 256, 65536}
  {
    if BaseFullBitUsage(base) {
      FullBaseExponent(base);
      var k := BitLength(base) - 1;
      DivisorsOf32(k);
      PowersOfTwo();
    }
    if base in {2, 4, 16, 256, 65536} {
      ListedBaseIsFull(base);
    }
  }

  lemma ListedBaseIsFull(base: nat)
    requires base in {2, 4, 16, 256, 65536}
    ensures BaseFullBitUsage(base)
  {
    PowersOfTwo();
    if base == 2 {
      PowerBaseIsFull(1);
    } else if base == 4 {
      PowerBaseIsFull(2);
    } else if base == 16 {
      PowerBaseIsFull(4);
    } else if base == 256 {
      PowerBaseIsFull(8);
    } else {
      PowerBaseIsFull(16);
    }
  }

  lemma PowerBaseIsFull(k: nat)
    requires 1 <= k < 32 && Bits % k == 0
    ensures 2 <= Pow(2, k) < Modulus && BaseFullBitUsage(Pow(2, k))
  {
    PowersOfTwo();
    PowStrictlyIncreasing(2, k, 32);
    PowStrictlyIncreasing(2, 0, k);
    BitLengthOfPower(k);
  }

  /**
   * base_max_log (algorithm.hpp:226-229) for u32: the number of base digits in a word,
   * width / log2(base) for the full bases, otherwise log(base, 2^31).
   */
  function BaseMaxLog(base: nat): (r: nat)
    requires 2 <= base < Modulus
  {
    BitLengthAtLeastTwo(base);
    if BaseFullBitUsage(base) then DigitsPerWord(BitLength(base) - 1) else Log(base, 0x8000_0000)
  }

  /** How many k-bit digits a u32 word holds. */
  function DigitsPerWord(k: nat): (r: nat)
    requires k >= 1
    ensures Bits % k == 0 ==> k * r == Bits
  {
    Bits / k
  }

  /** For a full base, base^base_max_log(base) is exactly 2^32. */
  lemma FullBaseMaxWraps(base: nat)
    requires 2 <= base < Modulus && BaseFullBitUsage(base)
    ensures Pow(base, BaseMaxLog(base)) == Modulus
  {
    var k := BitLength(base) - 1;
    FullBaseExponent(base);
    PowMul(2, k, DigitsPerWord(k));
    PowersOfTwo();
  }

  /** For the other bases, base^base_max_log(base) is the largest power of base up to 2^31. */
  lemma PartialBaseMax(base: nat)
    requires 2 <= base < Modulus && !BaseFullBitUsage(base)
    ensures var r := Pow(base, BaseMaxLog(base));
      0 < r <= 0x8000_0000 < r * base && r % Modulus == r
  {
    var r := Pow(base, BaseMaxLog(base));
    assert Pow(base, BaseMaxLog(base) + 1) == base * r;
    DivModUnique(r, Modulus, 0, r);
  }

  /**
   * base_max (algorithm.hpp:231-234) for u32: base^base_max_log(base) reduced modulo 2^32,
   * which is 0 for the full bases and at most 2^31 for the others.
   */
  function BaseMax(base: nat): (r: nat)
    requires 2 <= base < Modulus
    ensures r == Pow(base, BaseMaxLog(base)) % Modulus
    ensures !BaseFullBitUsage(base) ==> 0 < r <= 0x8000_0000 < r * base
  {
    if BaseFullBitUsage(base) then
      FullBaseMaxWraps(base);
      0
    else
      PartialBaseMax(base);
      Pow(base, BaseMaxLog(base))
  }

  /** flipped_digits (algorithm.hpp:240-243) for u32: base_max(base) - 1 - value, wrapping modulo 2^32. */
  function FlippedDigits(value: nat, base: nat): (r: nat)
    requires value < Modulus && 2 <= base < Modulus
    ensures r < Modulus
  {
    (BaseMax(base) - 1 - value) % Modulus
  }

  /** Below pw, flipping every digit under pw gives pw - 1 - value. */
  lemma FlipBelowPower(value: nat, pw: nat, r: nat)
    requires pw >= 1 && value < pw
    requires r / pw == value / pw && r % pw == pw - 1 - value % pw
    ensures r == pw - 1 - value
  {
    DivModUnique(value, pw, 0, value);
    assert r == pw * (r / pw) + r % pw;
  }

  /**
   * Within the base_max_log digits a word holds, flipped_digits is flipped_digits_until
   * at base_max_log: every one of those digits is complemented.
   */
  lemma FlippedDigitsFlipsWordDigits(value: nat, base: nat)
    requires 2 <= base < Modulus && value < Pow(base, BaseMaxLog(base)) && value < Modulus
    ensures FlippedDigits(value, base) == FlippedDigitsUntil(value, BaseMaxLog(base), base)
  {
    var pw := Pow(base, BaseMaxLog(base));
    FlipBelowPower(value, pw, FlippedDigitsUntil(value, BaseMaxLog(base), base));
    if BaseFullBitUsage(base) {
      FullBaseMaxWraps(base);
      DivModUnique(-1 - value, Modulus, -1, Modulus - 1 - value);
    } else {
      PartialBaseMax(base);
      DivModUnique(pw - 1 - value, Modulus, 0, pw - 1 - value);
    }
  }

  /** flip_digits (algorithm.hpp:236-239) for u32, on the value its reference parameter holds. */
  method FlipDigits(value: nat, base: nat) returns (updated: nat)
    requires value < Modulus && 2 <= base < Modulus
    ensures updated == FlippedDigits(value, base)
  {
    updated := (BaseMax(base) - 1 - value) % Modulus;
  }
}
