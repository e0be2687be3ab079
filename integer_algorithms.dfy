/*
 * The integer helpers of include/qpl/algorithm.hpp, on unbounded integers:
 * powers, factorial, logarithms, digit and bit counts, pairings, min/max/clamp,
 * loop_index and the conditional add/subtract.
 */
module IntegerAlgorithms {

  /** pow (algorithm.hpp:26-29): b == 0 ? 1 : a * pow(a, b - 1). */
  function Pow(a: int, b: nat): (r: int)
    ensures a >= 1 ==> r >= 1
  {
    if b == 0 then 1
    else
      var r := a * Pow(a, b - 1);
      if a >= 1 then MulLe(a, 1, Pow(a, b - 1)); r else r
  }

  lemma MulLe(m: int, x: int, y: int)
    requires m >= 0 && x <= y
    ensures m * x <= m * y
  {
  }

  lemma MulAssoc(a: int, b: int, c: int)
    ensures (a * b) * c == a * (b * c)
  {
  }

  lemma MulDistrib(m: int, x: int, y: int)
    ensures m * (x + y) == m * x + m * y
  {
  }

  /** x / m < p bounds x by m * p. */
  lemma DivUpper(x: nat, m: nat, p: int)
    requires m >= 1 && x / m < p
    ensures x < m * p
  {
    MulLe(m, x / m + 1, p);
  }

  /** p <= x / m bounds m * p by x. */
  lemma DivLower(x: nat, m: nat, p: int)
    requires m >= 1
    ensures p <= x / m ==> m * p <= x
  {
    if p <= x / m {
      MulLe(m, p, x / m);
    }
  }

  /** Quotient and remainder are determined by x == m * q + rem with 0 <= rem < m. */
  lemma DivModUnique(x: int, m: int, q: int, rem: int)
    requires m >= 1 && 0 <= rem < m && x == m * q + rem
    ensures x / m == q && x % m == rem
  {
    var d := q - x / m;
    assert x == m * (x / m) + x % m;
    assert m * d == m * q - m * (x / m);
    assert m * d == x % m - rem;
    if d >= 1 {
      MulLe(m, 1, d);
    } else if d <= -1 {
      MulLe(m, d, -1);
    }
  }

  /** A multiple of m leaves no remainder. */
  lemma MultipleMod(m: int, q: int)
    requires m >= 1
    ensures (m * q) % m == 0 && (m * q) / m == q
  {
    DivModUnique(m * q, m, q, 0);
  }

  /** Dividing by m >= 2 shrinks a positive number and keeps it positive while x >= m. */
  lemma DivShrinks(x: int, m: int)
    requires m >= 2 && x >= 1
    ensures 0 <= x / m < x
    ensures x >= m ==> x / m >= 1
  {
    var q := x / m;
    assert x == m * q + x % m;
    if q >= x {
      MulLe(m, x, q);
      MulLe(x, 2, m);
    }
    if q < 0 {
      MulLe(m, q, -1);
    }
    if x >= m && q <= 0 {
      MulLe(m, q, 0);
    }
  }

  /** Exponents add: a^(b + c) == a^b * a^c. */
  lemma {:induction false} PowAdd(a: int, b: nat, c: nat)
    ensures Pow(a, b + c) == Pow(a, b) * Pow(a, c)
    decreases b
  {
    if b > 0 {
      PowAdd(a, b - 1, c);
      calc {
        Pow(a, b + c);
        a * Pow(a, b - 1 + c);
        a * (Pow(a, b - 1) * Pow(a, c));
        (a * Pow(a, b - 1)) * Pow(a, c);
      }
    }
  }

  /** Exponents multiply: (a^b)^c == a^(b * c). */
  lemma {:induction false} PowMul(a: int, b: nat, c: nat)
    ensures Pow(Pow(a, b), c) == Pow(a, b * c)
    decreases c
  {
    if c > 0 {
      PowMul(a, b, c - 1);
      PowAdd(a, b, b * (c - 1));
      assert b + b * (c - 1) == b * c;
    }
  }

  /** Larger exponents give larger powers of a base >= 2. */
  lemma {:induction false} PowStrictlyIncreasing(a: int, b: nat, c: nat)
    requires a >= 2 && b < c
    ensures Pow(a, b) < Pow(a, c)
    decreases c
  {
    MulLe(Pow(a, c - 1), 1, a - 1);
    assert Pow(a, c) == Pow(a, c - 1) * (a - 1) + Pow(a, c - 1);
    if b < c - 1 {
      PowStrictlyIncreasing(a, b, c - 1);
    }
  }

  /** shift (algorithm.hpp:42-45): a * pow(a, b - 1) for b > 0, i.e. a to the power b. */
  function Shift(a: int, b: nat): (r: int)
    ensures r == Pow(a, b)
  {
    if b == 0 then 1 else a * Pow(a, b - 1)
  }

  /** The product lo * (lo + 1) * ... * hi; 1 when the range is empty. */
  function ProductRange(lo: int, hi: int): int
    decreases hi - lo
  {
    if hi < lo then 1 else ProductRange(lo, hi - 1) * hi
  }

  /** factorial (algorithm.hpp:30-33): 1 for a <= 1, 2 for a == 2, else a * factorial(a - 1). */
  function Factorial(a: int): (r: int)
    ensures r >= 1
  {
    if a <= 1 then 1 else if a == 2 then 2 else a * Factorial(a - 1)
  }

  /** factorial(n) is n!, the product 1 * 2 * ... * n, for every n >= 0. */
  lemma {:induction false} FactorialIsProduct(n: nat)
    ensures Factorial(n) == ProductRange(1, n)
  {
    if n >= 2 {
      FactorialIsProduct(n - 1);
    } else if n == 1 {
      assert ProductRange(1, 0) == 1;
    }
  }

  /** Every k in 1..n divides factorial(n). */
  lemma {:induction false} FactorialDivisible(n: nat, k: nat)
    requires 1 <= k <= n
    ensures Factorial(n) % k == 0
  {
    FactorialStep(n);
    if k == n {
      MultipleMod(n, Factorial(n - 1));
    } else {
      FactorialDivisible(n - 1, k);
      DividesMultiple(Factorial(n - 1), k, n);
    }
  }

  lemma FactorialStep(n: nat)
    requires n >= 1
    ensures Factorial(n) == n * Factorial(n - 1)
  {
  }

  lemma DividesMultiple(x: int, k: int, n: int)
    requires k >= 1 && x % k == 0
    ensures (n * x) % k == 0
  {
    var q := x / k;
    assert x == k * q;
    assert n * x == k * (n * q);
    MultipleMod(k, n * q);
  }

  /** log (algorithm.hpp:34-37): b < a ? 0 : 1 + log(a, b / a); the floor of log base a of b. */
  function Log(a: nat, b: nat): (r: nat)
    requires a >= 2
    ensures b < Pow(a, r + 1)
    ensures b >= 1 ==> Pow(a, r) <= b
    decreases b
  {
    if b < a then 0
    else
      DivShrinks(b, a);
      var r := 1 + Log(a, b / a);
      DivUpper(b, a, Pow(a, r));
      DivLower(b, a, Pow(a, r - 1));
      r
  }

  /** log2 (algorithm.hpp:38-41): -1 for 0, otherwise 1 + log2(a >> 1); the floor of log base 2. */
  function Log2(a: nat): (r: int)
    ensures r >= -1 && (r == -1 <==> a == 0)
    ensures a >= 1 ==> Pow(2, r) <= a < Pow(2, r + 1)
  {
    if a == 0 then -1
    else
      var r := 1 + Log2(a / 2);
      DivUpper(a, 2, Pow(2, r));
      DivLower(a, 2, if r >= 1 then Pow(2, r - 1) else 0);
      r
  }

  /** number_of_digits (algorithm.hpp:14-17): value < base ? 1 : 1 + number_of_digits(value / base). */
  function NumberOfDigits(value: int, base: int): (r: nat)
    requires base >= 2
    ensures r >= 1
    ensures value < Pow(base, r)
    ensures r >= 2 ==> Pow(base, r - 1) <= value
    decreases value
  {
    if value < base then 1
    else
      DivShrinks(value, base);
      var r := 1 + NumberOfDigits(value / base, base);
      DivUpper(value, base, Pow(base, r - 1));
      DivLower(value, base, if r >= 3 then Pow(base, r - 2) else 0);
      r
  }

  /** significant_digit (algorithm.hpp:47-50): n ? 1 + significant_digit(n / base) : 0. */
  function SignificantDigit(n: nat, base: nat): (r: nat)
    requires base >= 2
    ensures n < Pow(base, r)
    ensures n >= 1 ==> r >= 1 && Pow(base, r - 1) <= n
    decreases n
  {
    if n == 0 then 0
    else
      DivShrinks(n, base);
      var r := 1 + SignificantDigit(n / base, base);
      DivUpper(n, base, Pow(base, r - 1));
      DivLower(n, base, if r >= 2 then Pow(base, r - 2) else 0);
      r
  }

  /** The exponent r with base^(r-1) <= n < base^r is unique. */
  lemma DigitCountUnique(n: nat, base: nat, r1: nat, r2: nat)
    requires base >= 2 && n >= 1 && r1 >= 1 && r2 >= 1
    requires Pow(base, r1 - 1) <= n < Pow(base, r1)
    requires Pow(base, r2 - 1) <= n < Pow(base, r2)
    ensures r1 == r2
  {
    if r1 < r2 {
      if r1 < r2 - 1 {
        PowStrictlyIncreasing(base, r1, r2 - 1);
      }
    } else if r2 < r1 {
      if r2 < r1 - 1 {
        PowStrictlyIncreasing(base, r2, r1 - 1);
      }
    }
  }

  /** For n >= 1, significant_digit and number_of_digits count the same digits; they differ only at 0. */
  lemma SignificantDigitCountsDigits(n: nat, base: nat)
    requires base >= 2
    ensures n >= 1 ==> SignificantDigit(n, base) == NumberOfDigits(n, base)
    ensures SignificantDigit(0, base) == 0 && NumberOfDigits(0, base) == 1
  {
    if n >= 1 {
      var d := NumberOfDigits(n, base);
      if d == 1 {
        assert Pow(base, 0) <= n;
      }
      DigitCountUnique(n, base, SignificantDigit(n, base), d);
    }
  }

  /** The generic significant_bit (algorithm.hpp:51-54): n ? 1 + significant_bit(n >> 1) : 0, the bit length. */
  function BitLength(n: nat): (r: nat)
    ensures n < Pow(2, r)
    ensures n >= 1 ==> r >= 1 && Pow(2, r - 1) <= n
  {
    if n == 0 then 0
    else
      var r := 1 + BitLength(n / 2);
      DivUpper(n, 2, Pow(2, r - 1));
      DivLower(n, 2, if r >= 2 then Pow(2, r - 2) else 0);
      r
  }

  /** is_power_of_two (algorithm.hpp:216-219): n != 0 and n == 1 << (significant_bit(n) - 1). */
  function IsPowerOfTwo(n: nat): bool
  {
    n != 0 && n == Pow(2, BitLength(n) - 1)
  }

  lemma {:induction false} BitLengthOfPower(k: nat)
    ensures BitLength(Pow(2, k)) == k + 1
  {
    DigitCountUnique(Pow(2, k), 2, BitLength(Pow(2, k)), k + 1);
  }

  /** is_power_of_two(n) holds exactly when n is 2^k for some k >= 0; in particular never for 0. */
  lemma PowerOfTwoIffExponent(n: nat)
    ensures IsPowerOfTwo(n) <==> exists k: nat :: n == Pow(2, k)
  {
    if exists k: nat :: n == Pow(2, k) {
      var k: nat :| n == Pow(2, k);
      BitLengthOfPower(k);
    }
  }

  /**
   * log_approximation (algorithm.hpp:209-212): c > b / a ? c : log_approximation(a, b, c * a).
   * The first value of c, c * a, c * a * a, ... that exceeds b / a.
   */
  function LogApproximation(a: nat, b: nat, c: nat): (r: nat)
    requires a >= 2 && c >= 1
    ensures r > b / a
    ensures r == c || (r % a == 0 && r / a <= b / a)
    ensures r % c == 0
    decreases b / a - c
  {
    if c > b / a then c
    else
      MulLe(c, 2, a);
      var r := LogApproximation(a, b, c * a);
      assert c * a == a * c;
      MultipleMod(a, c);
      ModOfMultiple(r, c, a);
      r
  }

  /** c * a^k, the k-th candidate log_approximation tries when started at c. */
  function ScaledPower(c: nat, a: nat, k: nat): nat
  {
    c * Pow(a, k)
  }

  lemma ScaledPowerStep(c: nat, a: nat, k: nat)
    ensures ScaledPower(c, a, k + 1) == ScaledPower(c * a, a, k)
  {
    MulAssoc(c, a, Pow(a, k));
  }

  /**
   * log_approximation returns c * a^k for the least k whose candidate exceeds b / a: every
   * earlier candidate is at most b / a.
   */
  lemma {:induction false} LogApproximationIsLeastPower(a: nat, b: nat, c: nat)
    requires a >= 2 && c >= 1
    ensures exists k: nat :: LogApproximation(a, b, c) == ScaledPower(c, a, k)
              && forall j: nat :: j < k ==> ScaledPower(c, a, j) <= b / a
    decreases b / a - c
  {
    var q := b / a;
    if c > q {
      assert LogApproximation(a, b, c) == ScaledPower(c, a, 0);
    } else {
      MulLe(c, 2, a);
      assert LogApproximation(a, b, c) == LogApproximation(a, b, c * a);
      LogApproximationIsLeastPower(a, b, c * a);
      var k: nat :| LogApproximation(a, b, c * a) == ScaledPower(c * a, a, k)
                    && forall j: nat :: j < k ==> ScaledPower(c * a, a, j) <= q;
      ScaledPowerStep(c, a, k);
      forall j: nat | j < k + 1
        ensures ScaledPower(c, a, j) <= q
      {
        if j == 0 {
          assert ScaledPower(c, a, 0) == c;
        } else {
          ScaledPowerStep(c, a, j - 1);
        }
      }
      assert LogApproximation(a, b, c) == ScaledPower(c, a, k + 1);
    }
  }

  lemma ModOfMultiple(r: nat, c: nat, a: nat)
    requires c >= 1 && a >= 1 && r % (c * a) == 0
    ensures r % c == 0 && r % a == 0
  {
    var q := r / (c * a);
    MulLe(c, 1, a);
    assert r == (c * a) * q + r % (c * a);
    assert r == c * (a * q) && r == a * (c * q);
    MultipleMod(c, a * q);
    MultipleMod(a, c * q);
  }

  /** cantor_pairing (algorithm.hpp:266-269): (x + y)(x + y + 1) / 2 + y. */
  function CantorPairing(x: nat, y: nat): nat
  {
    (x + y) * (x + y + 1) / 2 + y
  }

  /** The triangular number s(s + 1) / 2. */
  function Triangle(s: nat): nat
  {
    s * (s + 1) / 2
  }

  lemma {:induction false} TriangleStep(s: nat)
    ensures Triangle(s + 1) == Triangle(s) + s + 1
  {
    assert (s + 1) * (s + 2) == s * (s + 1) + 2 * (s + 1);
  }

  lemma {:induction false} TriangleIncreasing(s: nat, t: nat)
    requires s < t
    ensures Triangle(s) + s < Triangle(t)
    decreases t - s
  {
    TriangleStep(s);
    if s + 1 < t {
      TriangleIncreasing(s + 1, t);
    }
  }

  /** Different pairs get different Cantor codes. */
  lemma CantorPairingInjective(x1: nat, y1: nat, x2: nat, y2: nat)
    requires CantorPairing(x1, y1) == CantorPairing(x2, y2)
    ensures x1 == x2 && y1 == y2
  {
    var s1, s2 := x1 + y1, x2 + y2;
    assert CantorPairing(x1, y1) == Triangle(s1) + y1;
    assert CantorPairing(x2, y2) == Triangle(s2) + y2;
    if s1 < s2 {
      TriangleIncreasing(s1, s2);
    } else if s2 < s1 {
      TriangleIncreasing(s2, s1);
    }
  }

  /** rosenberg_pairing (algorithm.hpp:279-282): m * m + m + x - y with m the larger of x and y. */
  function RosenbergPairing(x: nat, y: nat): int
  {
    (if x > y then x else y) * (if x > y then x else y) + (if x > y then x else y) + x - y
  }

  /** The code of a pair with larger coordinate m lies in [m * m, m * m + 2m]. */
  lemma RosenbergShell(x: nat, y: nat)
    ensures var m := if x > y then x else y;
            m * m <= RosenbergPairing(x, y) <= m * m + 2 * m
    ensures x > y ==> RosenbergPairing(x, y) > x * x + x
    ensures x <= y ==> RosenbergPairing(x, y) <= y * y + y
  {
  }

  lemma SquareShellsDisjoint(m1: nat, m2: nat)
    requires m1 < m2
    ensures m1 * m1 + 2 * m1 < m2 * m2
  {
    assert m2 >= m1 + 1;
    assert m2 * m2 >= (m1 + 1) * m2 >= (m1 + 1) * (m1 + 1);
  }

  /** Different pairs get different Rosenberg codes. */
  lemma RosenbergPairingInjective(x1: nat, y1: nat, x2: nat, y2: nat)
    requires RosenbergPairing(x1, y1) == RosenbergPairing(x2, y2)
    ensures x1 == x2 && y1 == y2
  {
    var m1 := if x1 > y1 then x1 else y1;
    var m2 := if x2 > y2 then x2 else y2;
    RosenbergShell(x1, y1);
    RosenbergShell(x2, y2);
    if m1 < m2 {
      SquareShellsDisjoint(m1, m2);
    } else if m2 < m1 {
      SquareShellsDisjoint(m2, m1);
    }
  }

  /** min (algorithm.hpp:423-426): a < b ? a : b. */
  function Min(a: int, b: int): (r: int)
    ensures r <= a && r <= b && (r == a || r == b)
  {
    if a < b then a else b
  }

  /** max (algorithm.hpp:432-435): a > b ? a : b. */
  function Max(a: int, b: int): (r: int)
    ensures r >= a && r >= b && (r == a || r == b)
  {
    if a > b then a else b
  }

  /** The variadic min (algorithm.hpp:427-430): min(min(a, b), rest...), a left fold. */
  function MinOf(values: seq<int>): (r: int)
    requires |values| >= 2
    ensures r in values && forall k :: 0 <= k < |values| ==> r <= values[k]
    decreases |values|
  {
    if |values| == 2 then Min(values[0], values[1])
    else
      var r := MinOf([Min(values[0], values[1])] + values[2..]);
      assert forall k :: 2 <= k < |values| ==> values[k] == ([Min(values[0], values[1])] + values[2..])[k - 1];
      r
  }

  /** The variadic max (algorithm.hpp:436-439): max(max(a, b), rest...), a left fold. */
  function MaxOf(values: seq<int>): (r: int)
    requires |values| >= 2
    ensures r in values && forall k :: 0 <= k < |values| ==> r >= values[k]
    decreases |values|
  {
    if |values| == 2 then Max(values[0], values[1])
    else
      var r := MaxOf([Max(values[0], values[1])] + values[2..]);
      assert forall k :: 2 <= k < |values| ==> values[k] == ([Max(values[0], values[1])] + values[2..])[k - 1];
      r
  }

  /** clamp (algorithm.hpp:441-444): min(hi, max(lo, value)). When lo > hi the upper bound wins. */
  function Clamp(lo: int, value: int, hi: int): (r: int)
    ensures lo <= hi ==> lo <= r <= hi
    ensures lo <= value <= hi ==> r == value
    ensures value < lo ==> r == Min(hi, lo)
    ensures value > hi ==> r == hi
  {
    Min(hi, Max(lo, value))
  }

  /**
   * loop_index (algorithm.hpp:451-459): n % size for n >= 0, size - ((-n) % size) for n < 0.
   * The result is congruent to n modulo size and lies in [0, size]; it is size itself
   * exactly for negative multiples of size.
   */
  function LoopIndex(n: int, size: int): (r: int)
    requires size > 0
    ensures 0 <= r <= size
    ensures r % size == n % size
    ensures r == size <==> n < 0 && n % size == 0
    ensures n >= 0 ==> r == n % size
  {
    if n < 0 then
      LoopIndexNegative(n, size);
      size - (-n) % size
    else
      DivModUnique(n % size, size, 0, n % size);
      n % size
  }

  lemma LoopIndexNegative(n: int, size: int)
    requires size > 0 && n < 0
    ensures var r := size - (-n) % size;
      0 < r <= size && r % size == n % size && (r == size <==> n % size == 0)
  {
    var q := (-n) / size;
    var m := (-n) % size;
    assert -n == size * q + m;
    if m == 0 {
      DivModUnique(n, size, -q, 0);
      DivModUnique(size, size, 1, 0);
    } else {
      DivModUnique(n, size, -q - 1, size - m);
      DivModUnique(size - m, size, 0, size - m);
    }
  }

  /** subtract_if (algorithm.hpp:475-478): subtract - value when the condition holds, else value. */
  function SubtractIf(condition: bool, value: int, subtract: int): (r: int)
    ensures condition ==> r + value == subtract
    ensures !condition ==> r == value
  {
    if condition then subtract - value else value
  }

  /** add_if (algorithm.hpp:479-482): subtract + value when the condition holds, else value. */
  function AddIf(condition: bool, value: int, subtract: int): (r: int)
    ensures condition ==> r - value == subtract
    ensures !condition ==> r == value
  {
    if condition then subtract + value else value
  }

  /** Subtracting from the same amount twice gives the value back. */
  lemma SubtractIfInvolution(condition: bool, value: int, subtract: int)
    ensures SubtractIf(condition, SubtractIf(condition, value, subtract), subtract) == value
  {
  }

  /** C++ integer division truncates toward zero. */
  function TruncatingDiv(a: int, b: int): (q: int)
    requires b != 0
    ensures a >= 0 && b > 0 ==> q == a / b
  {
    if (a >= 0) == (b > 0) then (if a >= 0 then a / b else (-a) / (-b))
    else -((if a >= 0 then a else -a) / (if b > 0 then b else -b))
  }

  /** approximate_multiple_down (algorithm.hpp:18-21): (value / multiple) * multiple. */
  function ApproximateMultipleDown(value: int, multiple: int): (r: int)
    requires multiple != 0
    ensures value >= 0 && multiple > 0 ==> r % multiple == 0 && r <= value < r + multiple
  {
    var q := TruncatingDiv(value, multiple);
    MultipleBelow(value, multiple);
    q * multiple
  }

  lemma MultipleBelow(value: int, multiple: int)
    requires multiple != 0
    ensures value >= 0 && multiple > 0 ==>
      var q := TruncatingDiv(value, multiple);
      (q * multiple) % multiple == 0 && q * multiple <= value < q * multiple + multiple
  {
    if value >= 0 && multiple > 0 {
      var q := TruncatingDiv(value, multiple);
      assert value == multiple * q + value % multiple;
      MultipleMod(multiple, q);
    }
  }

  /** approximate_multiple_up (algorithm.hpp:22-25): ((value - 1) / multiple + 1) * multiple. */
  function ApproximateMultipleUp(value: int, multiple: int): (r: int)
    requires multiple != 0
    ensures value >= 1 && multiple > 0 ==> r % multiple == 0 && value <= r < value + multiple
    ensures value == 0 && multiple > 1 ==> r == multiple
  {
    var q := TruncatingDiv(value - 1, multiple) + 1;
    MultipleAbove(value, multiple);
    q * multiple
  }

  lemma MultipleAbove(value: int, multiple: int)
    requires multiple != 0
    ensures var q := TruncatingDiv(value - 1, multiple) + 1;
      (value >= 1 && multiple > 0 ==> (q * multiple) % multiple == 0 && value <= q * multiple < value + multiple) &&
      (value == 0 && multiple > 1 ==> q == 1)
  {
    var q := TruncatingDiv(value - 1, multiple) + 1;
    if value >= 1 && multiple > 0 {
      assert value - 1 == multiple * (q - 1) + (value - 1) % multiple;
      MultipleMod(multiple, q);
    } else if value == 0 && multiple > 1 {
      DivModUnique(1, multiple, 0, 1);
    }
  }
}
