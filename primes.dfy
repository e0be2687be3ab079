/*
 * is_prime, prime_factors and dividers of include/qpl/maths.hpp at an unsigned T (nat).
 * The floating-point bound i < std::sqrt(value) is the integer test i * i < value.
 */
module Primes {
  import opened IntegerAlgorithms

  /** d is a divisor of n. */
  predicate DividesBy(n: nat, d: nat)
  {
    d != 0 && n % d == 0
  }

  /** n is prime: at least 2, and nothing strictly between 1 and n divides it. */
  predicate IsPrimeNumber(n: nat)
  {
    n >= 2 && forall d :: 2 <= d < n ==> !DividesBy(n, d)
  }

  // ---------------------------------------------------------------------
  // arithmetic facts
  // ---------------------------------------------------------------------

  lemma SquareMonotone(a: nat, b: nat)
    requires a <= b
    ensures a * a <= b * b
  {
    MulLe(a, a, b);
    MulLe(b, a, b);
  }

  /** A number of at least 2 lies strictly below any value its square does not exceed. */
  lemma RootBelow(i: nat, value: nat)
    requires i >= 2 && i * i <= value
    ensures i < value
  {
    MulLe(i, 2, i);
  }

  /** A divisor of a divisor is a divisor. */
  lemma DividesTransitive(n: nat, d: nat, e: nat)
    requires DividesBy(n, d) && DividesBy(d, e)
    ensures DividesBy(n, e)
  {
    var q := n / d;
    var k := d / e;
    assert n == d * q;
    assert d == e * k;
    MulAssoc(e, k, q);
    assert n == e * (k * q);
    MultipleMod(e, k * q);
  }

  /** Either a divisor or its cofactor lies below any bound whose square exceeds n. */
  lemma SmallDivisor(n: nat, d: nat, bound: nat)
    requires DividesBy(n, d) && 2 <= d < n && bound * bound > n
    ensures exists e :: 2 <= e < bound && DividesBy(n, e)
  {
    var q := n / d;
    assert n == d * q;
    if d < bound {
      assert DividesBy(n, d);
    } else {
      if q >= bound {
        MulLe(d, bound, q);
        MulLe(bound, bound, d);
        assert false;
      }
      if q < 2 {
        assert false;
      }
      MultipleMod(q, d);
      assert n == q * d;
      assert DividesBy(n, q);
    }
  }

  /** A number with a divisor strictly between 1 and itself is not prime. */
  lemma NotPrimeByDivisor(n: nat, d: nat)
    requires DividesBy(n, d) && 2 <= d < n
    ensures !IsPrimeNumber(n)
  {
  }

  // ---------------------------------------------------------------------
  // is_prime, as written
  // ---------------------------------------------------------------------

  /**
   * The trial divisors of is_prime as written: i starts at 5, and the loop sets add = 6 - add
   * before the for-header adds it, so i runs 5, 9, 11, 15, 17, 21, ... (3 or 5 modulo 6).
   */
  predicate TriedAsWritten(i: int)
  {
    i >= 5 && (i % 6 == 5 || i % 6 == 3)
  }

  /** What is_prime as written answers: exact below 5, otherwise no tried divisor below the square root divides. */
  ghost predicate PassesAsWritten(value: nat)
  {
    if value < 5 then value == 2 || value == 3
    else forall i :: TriedAsWritten(i) && i * i < value ==> !DividesBy(value, i)
  }

  /** The numbers between two tried divisors of is_prime as written are not tried. */
  lemma WrittenGap(i: int, add: int)
    requires (i % 6 == 5 && add == 4) || (i % 6 == 3 && add == 2)
    ensures forall j :: i < j < i + add ==> !TriedAsWritten(j)
    ensures (i + add) % 6 == (if add == 4 then 3 else 5)
  {
    var k, r := i / 6, i % 6;
    assert i == 6 * k + r;
    forall j | i < j < i + add
      ensures !TriedAsWritten(j)
    {
      if j - 6 * k < 6 {
        DivModUnique(j, 6, k, j - 6 * k);
      } else {
        DivModUnique(j, 6, k + 1, j - 6 * k - 6);
      }
    }
    if add == 4 {
      DivModUnique(i + add, 6, k + 1, 3);
    } else {
      DivModUnique(i + add, 6, k, 5);
    }
  }

  /** is_prime (maths.hpp:18-33) exactly as written, with value < 5 handled first. */
  method IsPrimeAsWritten(value: nat) returns (r: bool)
    ensures r == PassesAsWritten(value)
  {
    if value < 5 {
      return value == 2 || value == 3;
    }
    var add := 2;
    var i := 5;
    while i * i < value
      invariant i >= 5 && ((i % 6 == 5 && add == 2) || (i % 6 == 3 && add == 4))
      invariant forall j :: TriedAsWritten(j) && j < i ==> !DividesBy(value, j)
      decreases value - i
    {
      RootBelow(i, value);
      if value % i == 0 {
        assert TriedAsWritten(i) && i * i < value && DividesBy(value, i);
        return false;
      }
      add := 6 - add;
      WrittenGap(i, add);
      i := i + add;
    }
    forall j | TriedAsWritten(j) && j * j < value
      ensures !DividesBy(value, j)
    {
      if j >= i {
        SquareMonotone(i, j);
      }
    }
    return true;
  }

  /** A negative answer of is_prime as written is always right: the number is not prime. */
  lemma RejectedAsWrittenIsComposite(value: nat)
    requires !PassesAsWritten(value)
    ensures !IsPrimeNumber(value)
  {
    if value == 4 {
      assert DividesBy(4, 2);
    }
    if value >= 5 {
      var i :| TriedAsWritten(i) && i * i < value && DividesBy(value, i);
      MulLe(i, 1, i);
      NotPrimeByDivisor(value, i);
    }
  }

  /**
   * is_prime as written accepts composites: it never tries 2 or 3 (8 and 9), its bound is strict
   * (25 = 5 * 5) and its step skips 7, 13, 19, ... (49 = 7 * 7).
   */
  lemma AcceptedAsWrittenComposites()
    ensures PassesAsWritten(8) && !IsPrimeNumber(8)
    ensures PassesAsWritten(9) && !IsPrimeNumber(9)
    ensures PassesAsWritten(25) && !IsPrimeNumber(25)
    ensures PassesAsWritten(49) && !IsPrimeNumber(49)
  {
    assert DividesBy(8, 2) && DividesBy(9, 3) && DividesBy(25, 5) && DividesBy(49, 7);
    forall i | TriedAsWritten(i) && i * i < 49
      ensures i == 5
    {
      if i >= 7 {
        SquareMonotone(7, i);
      }
    }
  }

  // ---------------------------------------------------------------------
  // is_prime, corrected
  // ---------------------------------------------------------------------

  /** A divisor that is a multiple of m makes m a divisor too. */
  lemma MultipleDivisor(value: nat, d: nat, m: nat)
    requires DividesBy(value, d) && m >= 1 && d % m == 0
    ensures value % m == 0
  {
    assert DividesBy(d, m);
    DividesTransitive(value, d, m);
  }

  /** An odd value has no even divisor. */
  lemma EvenNotDivisor(value: nat, h: nat)
    requires value % 2 != 0
    ensures !DividesBy(value, 2 * h)
  {
    if DividesBy(value, 2 * h) {
      MultipleMod(2, h);
      MultipleDivisor(value, 2 * h, 2);
    }
  }

  /** A value that m does not divide has no divisor that is a multiple of m. */
  lemma MultipleDivisorContra(value: nat, d: nat, m: nat)
    requires m >= 1 && d % m == 0 && value % m != 0
    ensures !DividesBy(value, d)
  {
    if DividesBy(value, d) {
      MultipleDivisor(value, d, m);
    }
  }

  /** The numbers the wheel steps over are multiples of 2 or 3, so they cannot divide value. */
  lemma WheelGap(value: nat, i: nat, add: nat)
    requires value % 2 != 0 && value % 3 != 0
    requires (i % 6 == 5 && add == 2) || (i % 6 == 1 && add == 4)
    ensures forall d :: i < d < i + add ==> !DividesBy(value, d)
    ensures (i + add) % 6 == (if add == 2 then 1 else 5)
  {
    var k := i / 6;
    var r := i % 6;
    assert i == 6 * k + r;
    if add == 2 {
      EvenNotDivisor(value, 3 * k + 3);
      assert 2 * (3 * k + 3) == i + 1;
      DivModUnique(i + add, 6, k + 1, 1);
    } else {
      EvenNotDivisor(value, 3 * k + 1);
      EvenNotDivisor(value, 3 * k + 2);
      assert 2 * (3 * k + 1) == i + 1 && 2 * (3 * k + 2) == i + 3;
      MultipleMod(3, 2 * k + 1);
      assert 3 * (2 * k + 1) == i + 2;
      MultipleDivisorContra(value, i + 2, 3);
      DivModUnique(i + add, 6, k, 5);
    }
  }

  /**
   * is_prime as evidently intended: 2 and 3 are tried, the wheel runs 5, 7, 11, 13, ... (6k - 1
   * and 6k + 1) and the bound includes the square root.
   */
  method IsPrime(value: nat) returns (r: bool)
    ensures r == IsPrimeNumber(value)
  {
    if value < 5 {
      if value == 4 {
        assert DividesBy(4, 2);
      }
      return value == 2 || value == 3;
    }
    if value % 2 == 0 || value % 3 == 0 {
      assert DividesBy(value, 2) || DividesBy(value, 3);
      return false;
    }
    var add := 2;
    var i := 5;
    while i * i <= value
      invariant i >= 5 && ((i % 6 == 5 && add == 2) || (i % 6 == 1 && add == 4))
      invariant forall d :: 2 <= d < i ==> !DividesBy(value, d)
      decreases value - i
    {
      RootBelow(i, value);
      if value % i == 0 {
        NotPrimeByDivisor(value, i);
        return false;
      }
      WheelGap(value, i, add);
      i := i + add;
      add := 6 - add;
    }
    forall d | 2 <= d < value
      ensures !DividesBy(value, d)
    {
      if DividesBy(value, d) {
        SmallDivisor(value, d, i);
      }
    }
    return true;
  }

  // ---------------------------------------------------------------------
  // prime_factors
  // ---------------------------------------------------------------------

  /** The product of a list of factors. */
  function Product(s: seq<nat>): nat
  {
    if |s| == 0 then 1 else Product(s[..|s| - 1]) * s[|s| - 1]
  }

  lemma ProductAppend(s: seq<nat>, x: nat)
    ensures Product(s + [x]) == Product(s) * x
  {
    assert (s + [x])[..|s|] == s;
  }

  predicate NonDecreasing(s: seq<nat>)
  {
    forall j, k :: 0 <= j <= k < |s| ==> s[j] <= s[k]
  }

  /** Dividing v by its smallest divisor i leaves a smaller cofactor that still has no divisor below i. */
  lemma DivideOutStep(v: nat, i: nat, q: nat)
    requires i >= 2 && v >= 1 && v % i == 0 && q == v / i
    requires forall d :: 2 <= d < i ==> !DividesBy(v, d)
    ensures v == i * q && 1 <= q < v
    ensures forall d :: 2 <= d < i ==> !DividesBy(q, d)
  {
    assert v == i * q + v % i;
    MultipleMod(q, i);
    assert v == q * i;
    DivShrinks(v, i);
    MultipleMod(i, q);
    assert v / i == q;
    forall d | 2 <= d < i
      ensures !DividesBy(q, d)
    {
      if DividesBy(q, d) {
        assert DividesBy(v, q);
        DividesTransitive(v, q, d);
      }
    }
  }

  /** Moving a factor i from the remaining value into the list keeps the product. */
  lemma ProductStep(factors: seq<nat>, i: nat, q: nat, v: nat, value: nat)
    requires Product(factors) * v == value && v == i * q
    ensures Product(factors + [i]) * q == value
  {
    ProductAppend(factors, i);
    MulAssoc(Product(factors), i, q);
  }

  /** Appending an element at least as large as every element keeps a list non-decreasing. */
  lemma NonDecreasingAppend(s: seq<nat>, x: nat)
    requires NonDecreasing(s)
    requires forall k :: 0 <= k < |s| ==> s[k] <= x
    ensures NonDecreasing(s + [x])
  {
  }

  /** A composite i cannot divide a v that has no divisor below i. */
  lemma CompositeNotDivides(v: nat, i: nat)
    requires i >= 2 && !IsPrimeNumber(i)
    requires forall d :: 2 <= d < i ==> !DividesBy(v, d)
    ensures !DividesBy(v, i)
  {
    if DividesBy(v, i) {
      var e :| 2 <= e < i && DividesBy(i, e);
      DividesTransitive(v, i, e);
    }
  }

  /**
   * prime_factors (maths.hpp:37-52), using the corrected is_prime: empty for a prime (and for
   * 0 and 1); otherwise the prime factors in non-decreasing order, whose product is the value.
   */
  method PrimeFactors(value: nat) returns (factors: seq<nat>)
    ensures factors == [] <==> value < 2 || IsPrimeNumber(value)
    ensures value >= 2 && !IsPrimeNumber(value) ==> Product(factors) == value
    ensures forall k :: 0 <= k < |factors| ==> IsPrimeNumber(factors[k])
    ensures NonDecreasing(factors)
  {
    var valueIsPrime := IsPrime(value);
    if valueIsPrime {
      return [];
    }
    factors := [];
    var v := value;
    var i: nat := 2;
    while v > 1
      invariant i >= 2
      invariant value <= 1 ==> v == value && factors == []
      invariant value >= 1 ==> v >= 1
      invariant Product(factors) * v == value
      invariant forall k :: 0 <= k < |factors| ==> IsPrimeNumber(factors[k]) && factors[k] < i
      invariant NonDecreasing(factors)
      invariant forall d :: 2 <= d < i ==> !DividesBy(v, d)
      invariant v > 1 ==> i <= v
      decreases v, v as int - i
    {
      var iIsPrime := IsPrime(i);
      if iIsPrime {
        while v % i == 0
          invariant 1 <= v
          invariant Product(factors) * v == value
          invariant forall k :: 0 <= k < |factors| ==> IsPrimeNumber(factors[k]) && factors[k] <= i
          invariant NonDecreasing(factors)
          invariant forall d :: 2 <= d < i ==> !DividesBy(v, d)
          decreases v
        {
          var q := v / i;
          DivideOutStep(v, i, q);
          ProductStep(factors, i, q, v, value);
          NonDecreasingAppend(factors, i);
          factors := factors + [i];
          v := q;
        }
      } else {
        CompositeNotDivides(v, i);
      }
      if v > 1 {
        assert DividesBy(v, v);
      }
      i := i + 1;
    }
  }

  /**
   * prime_factors (maths.hpp:37-52) as written, calling is_prime as written: empty for 0, 1 and
   * every value that test accepts, composites such as 8, 9, 10 and 49 included; otherwise the
   * prime factors in non-decreasing order. Every prime passes that test, and a composite i it
   * accepts never divides the remaining value, so the factors it does find are still prime.
   */
  method PrimeFactorsAsWritten(value: nat) returns (factors: seq<nat>)
    ensures factors == [] <==> value < 2 || PassesAsWritten(value)
    ensures value >= 2 && !PassesAsWritten(value) ==> Product(factors) == value
    ensures forall k :: 0 <= k < |factors| ==> IsPrimeNumber(factors[k])
    ensures NonDecreasing(factors)
  {
    var valuePasses := IsPrimeAsWritten(value);
    if valuePasses {
      return [];
    }
    factors := [];
    var v := value;
    var i: nat := 2;
    while v > 1
      invariant i >= 2
      invariant value <= 1 ==> v == value && factors == []
      invariant value >= 1 ==> v >= 1
      invariant Product(factors) * v == value
      invariant forall k :: 0 <= k < |factors| ==> IsPrimeNumber(factors[k]) && factors[k] < i
      invariant NonDecreasing(factors)
      invariant forall d :: 2 <= d < i ==> !DividesBy(v, d)
      invariant v > 1 ==> i <= v
      decreases v, v as int - i
    {
      var iPasses := IsPrimeAsWritten(i);
      if !IsPrimeNumber(i) {
        CompositeNotDivides(v, i);
      }
      if iPasses {
        while v % i == 0
          invariant 1 <= v
          invariant Product(factors) * v == value
          invariant forall k :: 0 <= k < |factors| ==> IsPrimeNumber(factors[k]) && factors[k] <= i
          invariant NonDecreasing(factors)
          invariant forall d :: 2 <= d < i ==> !DividesBy(v, d)
          invariant !IsPrimeNumber(i) ==> !DividesBy(v, i)
          decreases v
        {
          var q := v / i;
          DivideOutStep(v, i, q);
          ProductStep(factors, i, q, v, value);
          NonDecreasingAppend(factors, i);
          factors := factors + [i];
          v := q;
        }
      } else {
        RejectedAsWrittenIsComposite(i);
      }
      if v > 1 {
        assert DividesBy(v, v);
      }
      i := i + 1;
    }
  }

  // ---------------------------------------------------------------------
  // dividers
  // ---------------------------------------------------------------------

  /**
   * dividers (maths.hpp:56-66): every i in [1, value) that divides value, in increasing order.
   * For a value of at least 2 the list is [1] exactly when the value is prime.
   */
  method Dividers(value: nat) returns (divs: seq<nat>)
    ensures forall x :: x in divs <==> 1 <= x < value && DividesBy(value, x)
    ensures forall j, k :: 0 <= j < k < |divs| ==> divs[j] < divs[k]
    ensures IsPrimeNumber(value) <==> divs == [1]
  {
    divs := [];
    var i := 1;
    while i < value
      invariant 1 <= i && (value >= 1 ==> i <= value) && (value == 0 ==> i == 1)
      invariant forall x :: x in divs <==> 1 <= x < i && DividesBy(value, x)
      invariant forall j, k :: 0 <= j < k < |divs| ==> divs[j] < divs[k]
      invariant forall k :: 0 <= k < |divs| ==> divs[k] < i
    {
      if value % i == 0 {
        divs := divs + [i];
      }
      i := i + 1;
    }
    assert value >= 1 ==> i == value;
    forall x
      ensures x in divs <==> 1 <= x < value && DividesBy(value, x)
    {
      if x in divs {
        assert 1 <= x < i;
      }
    }
    DividersOfPrime(value, divs);
  }

  /** An increasing list holding exactly the proper divisors is [1] exactly for a prime. */
  lemma DividersOfPrime(value: nat, divs: seq<nat>)
    requires forall x :: x in divs <==> 1 <= x < value && DividesBy(value, x)
    requires forall j, k :: 0 <= j < k < |divs| ==> divs[j] < divs[k]
    ensures IsPrimeNumber(value) <==> divs == [1]
  {
    if IsPrimeNumber(value) {
      assert 1 in divs;
      forall k | 0 <= k < |divs|
        ensures k == 0 && divs[k] == 1
      {
        assert divs[k] in divs;
        assert divs[0] in divs;
      }
      assert divs[|divs| - 1] == 1;
    }
    if divs == [1] {
      assert 1 in divs;
      forall d | 2 <= d < value
        ensures !DividesBy(value, d)
      {
        assert d !in divs;
      }
    }
  }
}
