# QPL maths and algorithm helpers in Dafny

QPL is a C++ header library of general utilities. This project models two of its
headers:

- `include/qpl/maths.hpp`:
  - `mathematical_functon<T>`, a small interpreter that evaluates a chain of
    `number_operation` cells;
  - the cell type itself, whose operator, sign prefix and two flags are packed
    into a 32-bit info word;
  - `is_prime`, `prime_factors` and `dividers`.
- `include/qpl/algorithm.hpp`:
  - the integer helpers (`pow`, `shift`, `factorial`, `log`, `log2`, digit
    counts, multiples, `log_approximation`, `is_power_of_two`);
  - the pairing functions, `min`/`max`/`clamp`, `loop_index`, `subtract_if` and
    `add_if`;
  - the bit helpers on `u32`/`u64` (`significant_bit`, `get_bit`, `set_bit`,
    `toggle_bit`, the bit flips, `reverse_bits`, and `rotate_left`/`rotate_right`
    on `u8`);
  - the base-`b` digit helpers (`get_digit`, `set_digit`, `base_max`, the digit
    flips);
  - the container helpers (`container_sum`, `combine_containers`, `vector_0_to_n`,
    `min_max_vector`, and `vector_including_values`/`vector_excluding_values`
    with their multi-target overloads).

Modules:

- `integer_algorithms.dfy`, module `IntegerAlgorithms`: `pow` and friends, digit counts, pairings, min/max/clamp, `loop_index`, and the arithmetic lemmas the other modules use.
- `bit_algorithms.dfy`, module `BitAlgorithms`: The bit helpers on `bv32`/`bv64`/`bv8`. Each branch-free `significant_bit` is proved equal to the recursive bit length.
- `digit_algorithms.dfy`, module `DigitAlgorithms`: The digit helpers on unbounded naturals. Where the source's `u32` wrap-around matters (`base_max`, `flip_digits`), it is written out modulo 2^32.
- `container_algorithms.dfy`, module `ContainerAlgorithms`: The vector helpers on `seq`. The loops are methods proved against filter functions.
- `number_operation.dfy`, module `NumberOperations`: A chain cell as a value (`Record`) and as a mutable object over its packed info word (`NumberOperation`).
- `mathematical_function.dfy`, module `MathematicalFunctions`: `solve` as a step-for-step specification (`Eval`), a line-by-line reference reading (`Reference`), their agreement, and the `MathematicalFunction` class whose `Solve` method is proved to compute `Eval`.
- `primes.dfy`, module `Primes`: `is_prime` as written and corrected, `prime_factors` and `dividers`.

How `solve` is modelled:

- The template parameter `T` is `real`, and `std::pow` is a function parameter.
- The working copy `result` is a `seq<Record>` field that `Solve` reassigns.
- Each way the source reaches undefined behaviour becomes an `Err` result:
  - an empty chain;
  - falling off the end of the function without a `return`;
  - a link index out of range;
  - a variable index out of range.

## Model

| member | source | states |
|---|---|---|
| `IntegerAlgorithms.Pow` | include/qpl/algorithm.hpp:26-29 | A base of at least 1 gives a power of at least 1. |
| `IntegerAlgorithms.PowAdd` | include/qpl/algorithm.hpp:26-29 | pow(a, b + c) = pow(a, b) * pow(a, c): the recursion computes a to the power b. |
| `IntegerAlgorithms.PowMul` | include/qpl/algorithm.hpp:26-29 | pow(pow(a, b), c) = pow(a, b * c). |
| `IntegerAlgorithms.PowStrictlyIncreasing` | include/qpl/algorithm.hpp:26-29 | For a base of at least 2, a larger exponent gives a strictly larger power. |
| `IntegerAlgorithms.Shift` | include/qpl/algorithm.hpp:42-45 | shift(a, b) computes the same value as pow(a, b). |
| `IntegerAlgorithms.Factorial` | include/qpl/algorithm.hpp:30-33 | factorial is at least 1 for every argument, including 0, 1 and negative values. |
| `IntegerAlgorithms.FactorialIsProduct` | include/qpl/algorithm.hpp:30-33 | factorial(n) is the product 1 * 2 * ... * n. |
| `IntegerAlgorithms.FactorialStep` | include/qpl/algorithm.hpp:30-33 | factorial(n) = n * factorial(n - 1) for n >= 1, including the special case for 2. |
| `IntegerAlgorithms.FactorialDivisible` | include/qpl/algorithm.hpp:30-33 | Every k with 1 <= k <= n divides factorial(n). |
| `IntegerAlgorithms.Log` | include/qpl/algorithm.hpp:34-37 | For a >= 2, r = log(a, b) satisfies b < a^(r+1), and a^r <= b when b >= 1: the floor of the logarithm. |
| `IntegerAlgorithms.Log2` | include/qpl/algorithm.hpp:38-41 | log2 is -1 exactly for 0; otherwise 2^r <= a < 2^(r+1). |
| `IntegerAlgorithms.NumberOfDigits` | include/qpl/algorithm.hpp:14-17 | The count is at least 1 and value < base^r; with two or more digits, base^(r-1) <= value. |
| `IntegerAlgorithms.SignificantDigit` | include/qpl/algorithm.hpp:47-50 | n < base^r, and for n >= 1 also base^(r-1) <= n: the number of base digits, 0 for 0. |
| `IntegerAlgorithms.SignificantDigitCountsDigits` | include/qpl/algorithm.hpp:47-50 | significant_digit and number_of_digits agree for n >= 1; at 0 they give 0 and 1. |
| `IntegerAlgorithms.BitLength` | include/qpl/algorithm.hpp:51-54 | The recursive significant_bit: n < 2^r, and for n >= 1 also 2^(r-1) <= n. |
| `IntegerAlgorithms.BitLengthOfPower` | include/qpl/algorithm.hpp:51-54 | 2^k has bit length k + 1. |
| `IntegerAlgorithms.PowerOfTwoIffExponent` | include/qpl/algorithm.hpp:216-219 | is_power_of_two(n) holds exactly when n = 2^k for some k >= 0; it is false for 0. |
| `IntegerAlgorithms.LogApproximation` | include/qpl/algorithm.hpp:209-212 | The result is a multiple of c and exceeds b / a. It is either c itself or a multiple of a whose quotient by a is at most b / a. |
| `IntegerAlgorithms.LogApproximationIsLeastPower` | include/qpl/algorithm.hpp:209-212 | For a >= 2 and c >= 1 the result is c * a^k for some k, and every c * a^j with j < k is at most b / a: it is the first of c, c * a, c * a^2, ... above b / a. |
| `IntegerAlgorithms.ApproximateMultipleDown` | include/qpl/algorithm.hpp:18-21 | For value >= 0 and multiple > 0, the result is the largest multiple of `multiple` not above value. |
| `IntegerAlgorithms.MultipleBelow` | include/qpl/algorithm.hpp:18-21 | The truncating quotient times multiple is a multiple within one step below value. |
| `IntegerAlgorithms.ApproximateMultipleUp` | include/qpl/algorithm.hpp:22-25 | For value >= 1 and multiple > 0, the result is the smallest multiple of `multiple` not below value. For value 0 and multiple > 1 it is `multiple`, because (0 - 1) / multiple truncates to 0. `T` is read as a signed integer. |
| `IntegerAlgorithms.MultipleAbove` | include/qpl/algorithm.hpp:22-25 | ((value - 1) / multiple + 1) * multiple is the next multiple at or above value, using C++ truncating division on a signed `T`. At value 0 the quotient is 1. |
| `IntegerAlgorithms.CantorPairingInjective` | include/qpl/algorithm.hpp:266-269 | Distinct pairs get distinct Cantor codes. |
| `IntegerAlgorithms.TriangleIncreasing` | include/qpl/algorithm.hpp:266-269 | The triangular numbers behind the Cantor code leave a gap larger than s between shells s and t > s. |
| `IntegerAlgorithms.RosenbergShell` | include/qpl/algorithm.hpp:279-282 | The Rosenberg code of (x, y) lies in shell m = max(x, y): between m^2 and m^2 + 2m. It lies in the upper half when x > y, the lower half otherwise. |
| `IntegerAlgorithms.RosenbergPairingInjective` | include/qpl/algorithm.hpp:279-282 | Distinct pairs get distinct Rosenberg codes. |
| `IntegerAlgorithms.Min` | include/qpl/algorithm.hpp:423-426 | The result is one of the two arguments and at most both. |
| `IntegerAlgorithms.Max` | include/qpl/algorithm.hpp:432-435 | The result is one of the two arguments and at least both. |
| `IntegerAlgorithms.MinOf` | include/qpl/algorithm.hpp:427-430 | The variadic min returns an argument no larger than any argument. |
| `IntegerAlgorithms.MaxOf` | include/qpl/algorithm.hpp:436-439 | The variadic max returns an argument no smaller than any argument. |
| `IntegerAlgorithms.Clamp` | include/qpl/algorithm.hpp:441-444 | With lo <= hi the result lies in [lo, hi]: value when it is inside, hi above. Below lo it is min(hi, lo), which is lo unless the bounds are swapped. |
| `IntegerAlgorithms.LoopIndex` | include/qpl/algorithm.hpp:451-459 | The result lies in [0, size] and is congruent to n modulo size. It equals size exactly for a negative multiple of size. For n >= 0 it is n % size. |
| `IntegerAlgorithms.LoopIndexNegative` | include/qpl/algorithm.hpp:453-457 | The negative branch size - ((-n) % size) lies in (0, size], is congruent to n, and is size exactly for multiples. |
| `IntegerAlgorithms.SubtractIf` | include/qpl/algorithm.hpp:475-478 | With the condition, result + value = subtract; without it, value is returned. |
| `IntegerAlgorithms.AddIf` | include/qpl/algorithm.hpp:479-482 | With the condition, result - value = subtract; without it, value is returned. |
| `IntegerAlgorithms.SubtractIfInvolution` | include/qpl/algorithm.hpp:475-478 | Applying subtract_if twice with the same condition and subtrahend gives value back. |
| `BitAlgorithms.BitLength32Meaning` | include/qpl/algorithm.hpp:51-54 | The recursive significant_bit of a u32 is its bit length: no set bit at or above it, and bit r - 1 set. It is at most any k with n >> k == 0. |
| `BitAlgorithms.SignificantBit32` | include/qpl/algorithm.hpp:55-76 | The branch-free u32 specialisation returns the recursive bit length for every input. |
| `BitAlgorithms.SignificantBitIgnoreLastBit` | include/qpl/algorithm.hpp:93-106 | For n < 2^31 the result is the bit length of n. For n = 2^31 it is 1. For n > 2^31 it is the bit length of n without bit 31. |
| `BitAlgorithms.IgnoreLastBitStages` | include/qpl/algorithm.hpp:93-106 | The four mask stages, the odd-bit test and the final increment, started on n < 2^31, end at the bit length of n. |
| `BitAlgorithms.IgnoreLastBitTopStages` | include/qpl/algorithm.hpp:93-106 | The same stages started on n > 2^31 end at the bit length of n without bit 31. |
| `BitAlgorithms.SignificantBit64` | include/qpl/algorithm.hpp:77-92 | The branch-free u64 specialisation returns the recursive bit length for every input. |
| `BitAlgorithms.GetBitIsShiftedBit` | include/qpl/algorithm.hpp:108-111 | get_bit(value, p) holds exactly when bit p of value is 1. |
| `BitAlgorithms.SetBitCopied` | include/qpl/algorithm.hpp:116-119 | Bit `position` of the result is `flag`. |
| `BitAlgorithms.SetBitKeepsOtherBits` | include/qpl/algorithm.hpp:116-119 | Every other bit of the result is the original's. |
| `BitAlgorithms.SetBit` | include/qpl/algorithm.hpp:112-115 | set_bit leaves in its reference the value set_bit_copied returns. |
| `BitAlgorithms.ToggledBit` | include/qpl/algorithm.hpp:122-125 | Bit `position` is inverted. |
| `BitAlgorithms.ToggleKeepsOtherBits` | include/qpl/algorithm.hpp:122-125 | Every other bit is unchanged, so exactly bit `position` flips. |
| `BitAlgorithms.ToggleTwice` | include/qpl/algorithm.hpp:122-125 | Toggling the same bit twice is the identity. |
| `BitAlgorithms.ToggleBit` | include/qpl/algorithm.hpp:122-125 | The method's new value is the toggled value. |
| `BitAlgorithms.FlippedBitsInvertsEachBit` | include/qpl/algorithm.hpp:131-134 | flipped_bits inverts every one of the 32 bits. |
| `BitAlgorithms.FlipBits` | include/qpl/algorithm.hpp:127-130 | flip_bits leaves the flipped value in its reference. |
| `BitAlgorithms.FlippedBitsUntilBits` | include/qpl/algorithm.hpp:139-142 | Bits below `position` are inverted; bits at or above it are kept. |
| `BitAlgorithms.FlipBitsUntil` | include/qpl/algorithm.hpp:135-138 | flip_bits_until leaves flipped_bits_until's value in its reference. |
| `BitAlgorithms.FlipUntilMsbShiftsByWidth` | include/qpl/algorithm.hpp:147-150 | As written, every value with bit 31 set makes flipped_bits_until shift by 32, which is undefined. |
| `BitAlgorithms.FlipUntilMsbCounterexample` | include/qpl/algorithm.hpp:147-150 | 2^31 is such an input. |
| `BitAlgorithms.FlippedBitsUntilMsbBits` | include/qpl/algorithm.hpp:147-150 | Corrected: every bit below the most significant set bit is inverted, and that bit and all above end up clear. |
| `BitAlgorithms.FlippedBitsUntilMsbAgrees` | include/qpl/algorithm.hpp:147-150 | Below 2^31 the code as written is defined and equals the corrected value. |
| `BitAlgorithms.FlipBitsUntilMsb` | include/qpl/algorithm.hpp:143-146 | The in-place version leaves the corrected flipped value in its reference. |
| `BitAlgorithms.ReverseBits32` | include/qpl/algorithm.hpp:155-162 | After the five swap stages, bit q of the result is bit 31 - q of the input. |
| `BitAlgorithms.RotateLeft8` | include/qpl/algorithm.hpp:484-487 | rotate_left on u8 is a left rotation by rotation mod 8, including the reduction for rotation >= 8. |
| `BitAlgorithms.RotateRight8` | include/qpl/algorithm.hpp:488-491 | rotate_right on u8 is a right rotation by rotation mod 8. |
| `BitAlgorithms.RotateRightUndoesLeft` | include/qpl/algorithm.hpp:484-491 | Rotating right by the amount rotated left gives the original byte back. |
| `DigitAlgorithms.SetDigitCopiedIsShift` | include/qpl/algorithm.hpp:202-206 | Both branches of set_digit add (digit - old digit) * base^position to the value. |
| `DigitAlgorithms.LoweringStaysNatural` | include/qpl/algorithm.hpp:195-196 | Lowering a digit never takes an unsigned value below 0. |
| `DigitAlgorithms.SetDigitWritesDigit` | include/qpl/algorithm.hpp:191-201 | For digit < base, the digit at `position` becomes `digit`. The part below base^position and the part above the digit are unchanged. |
| `DigitAlgorithms.SetDigitKeepsOtherDigits` | include/qpl/algorithm.hpp:191-201 | Every other base digit is unchanged. |
| `DigitAlgorithms.SetDigit` | include/qpl/algorithm.hpp:191-201 | set_digit leaves set_digit_copied's value in its reference. |
| `DigitAlgorithms.FlippedDigitsUntil` | include/qpl/algorithm.hpp:251-255 | The part above base^position is kept; the part below becomes base^position - 1 - (value mod base^position). |
| `DigitAlgorithms.FlippedDigitsUntilDigits` | include/qpl/algorithm.hpp:251-255 | Every digit below `position` becomes base - 1 - digit; the others are kept. |
| `DigitAlgorithms.FlipDigitsUntil` | include/qpl/algorithm.hpp:246-250 | flip_digits_until leaves flipped_digits_until's value in its reference. |
| `DigitAlgorithms.FlippedDigitsUntilMsd` | include/qpl/algorithm.hpp:260-263 | The result is base^k - 1 - value, where k is the number of significant digits. |
| `DigitAlgorithms.FlipDigitsUntilMsd` | include/qpl/algorithm.hpp:256-259 | flip_digits_until_msd leaves that value in its reference. |
| `DigitAlgorithms.FullBitUsageBases` | include/qpl/algorithm.hpp:220-223 | For u32, base_full_bit_usage holds exactly for the bases 2, 4, 16, 256 and 65536. |
| `DigitAlgorithms.FullBaseMaxWraps` | include/qpl/algorithm.hpp:226-229 | For those bases, base^base_max_log(base) is exactly 2^32. |
| `DigitAlgorithms.PartialBaseMax` | include/qpl/algorithm.hpp:226-234 | For other bases, base^base_max_log(base) is the largest power of base not above 2^31. |
| `DigitAlgorithms.BaseMax` | include/qpl/algorithm.hpp:231-234 | base_max is base^base_max_log(base) modulo 2^32: 0 for the full bases, otherwise the largest power of base up to 2^31. |
| `DigitAlgorithms.FlippedDigits` | include/qpl/algorithm.hpp:240-243 | The u32 result of base_max - 1 - value stays below 2^32 after wrapping. |
| `DigitAlgorithms.FlippedDigitsFlipsWordDigits` | include/qpl/algorithm.hpp:240-243 | For a value below base^base_max_log(base), flipped_digits flips every digit the word holds. |
| `DigitAlgorithms.FlipDigits` | include/qpl/algorithm.hpp:236-239 | flip_digits leaves flipped_digits's value in its reference. |
| `ContainerAlgorithms.SumConcat` | include/qpl/algorithm.hpp:340-351 | The sum of a concatenation is the sum of the parts. |
| `ContainerAlgorithms.ContainerSum` | include/qpl/algorithm.hpp:340-351 | The loop from data[0] returns the sum of all elements. |
| `ContainerAlgorithms.CombineContainers` | include/qpl/algorithm.hpp:353-357 | The result is destination followed by source: lengths add, both parts are kept in order, and the multisets add. |
| `ContainerAlgorithms.CombinedSum` | include/qpl/algorithm.hpp:353-357 | The sum of the combined container is the sum of the two. |
| `ContainerAlgorithms.Vector0ToN` | include/qpl/algorithm.hpp:367-372 | The vector has n elements, and element k is shift + k. |
| `ContainerAlgorithms.Vector0ToNSum` | include/qpl/algorithm.hpp:367-372 | Twice its sum is n * (2 * shift + n - 1). |
| `ContainerAlgorithms.MinMaxVector` | include/qpl/algorithm.hpp:374-378 | Both returned values are elements, and every element lies between them. |
| `ContainerAlgorithms.VectorIncludingValues` | include/qpl/algorithm.hpp:380-391 | The result is the elements of compare that occur in target, in compare's order. |
| `ContainerAlgorithms.KeptInCounts` | include/qpl/algorithm.hpp:380-391 | Each value found in target keeps its multiplicity from compare; every other value is absent. |
| `ContainerAlgorithms.KeptInMembers` | include/qpl/algorithm.hpp:380-391 | x is in the result exactly when x is in compare and in target. |
| `ContainerAlgorithms.KeptInConcat` | include/qpl/algorithm.hpp:380-391 | Filtering a concatenation filters each part. |
| `ContainerAlgorithms.VectorExcludingValues` | include/qpl/algorithm.hpp:401-412 | The result is the elements of compare that do not occur in target, in compare's order. |
| `ContainerAlgorithms.DroppedInCounts` | include/qpl/algorithm.hpp:401-412 | Each value absent from target keeps its multiplicity from compare; every other value is absent. |
| `ContainerAlgorithms.DroppedInMembers` | include/qpl/algorithm.hpp:401-412 | x is in the result exactly when x is in compare and not in target. |
| `ContainerAlgorithms.DroppedInConcat` | include/qpl/algorithm.hpp:401-412 | Filtering a concatenation filters each part. |
| `ContainerAlgorithms.KeptAndDroppedSplit` | include/qpl/algorithm.hpp:380-412 | Including and excluding with the same target split compare's multiset between them. |
| `ContainerAlgorithms.VectorIncludingValuesAll` | include/qpl/algorithm.hpp:392-400 | The multi-target overload returns the elements of compare present in every target. |
| `ContainerAlgorithms.KeptInAllCounts` | include/qpl/algorithm.hpp:392-400 | A value in every target keeps its multiplicity from compare; every other value is absent. |
| `ContainerAlgorithms.KeptInAllStep` | include/qpl/algorithm.hpp:392-400 | One more target narrows the result by exactly that target. |
| `ContainerAlgorithms.IncludingAllStep` | include/qpl/algorithm.hpp:395-398 | One turn of the loop, `sum = including(including(target, compare), sum)`, moves the result from the first i targets to the first i + 1. |
| `ContainerAlgorithms.VectorExcludingValuesAll` | include/qpl/algorithm.hpp:413-421 | The multi-target overload returns the elements of compare absent from every target. |
| `ContainerAlgorithms.KeptInNoneCounts` | include/qpl/algorithm.hpp:413-421 | A value absent from every target keeps its multiplicity from compare; every other value is absent. |
| `ContainerAlgorithms.KeptInNoneStep` | include/qpl/algorithm.hpp:413-421 | One more target removes exactly that target's values. |
| `ContainerAlgorithms.ExcludingAllStep` | include/qpl/algorithm.hpp:416-419 | One turn of the loop, `sum = including(excluding(target, compare), sum)`, moves the result from the first i targets to the first i + 1. |
| `ContainerAlgorithms.NoTargetsKeepAll` | include/qpl/algorithm.hpp:392-400 | With no targets both overloads return compare unchanged. |
| `ContainerAlgorithms.FilteredFromSource` | include/qpl/algorithm.hpp:392-421 | The multi-target results hold only elements of compare. |
| `NumberOperations.TruncateToInt` | include/qpl/maths.hpp:128-130 | The index read out of the payload is truncated toward zero. |
| `NumberOperations.KindOf` | include/qpl/maths.hpp:159-167 | A cell is a literal exactly when neither flag is set, and a link whenever the link flag is set: the link is tested first. |
| `NumberOperations.OperationCode` | include/qpl/maths.hpp:113-118 | Every operator's code fits the 4-bit field and decodes back to that operator. |
| `NumberOperations.PrefixCode` | include/qpl/maths.hpp:119-124 | Every prefix's code fits the 2-bit field and decodes back to that prefix. |
| `NumberOperations.WithOperation` | include/qpl/maths.hpp:116-118 | Writing the operator sets bits 0-3 to its code and leaves every other bit unchanged. |
| `NumberOperations.WithOperationKeepsFields` | include/qpl/maths.hpp:116-118 | The prefix and both flags read the same after the operator is written. |
| `NumberOperations.WithPrefix` | include/qpl/maths.hpp:122-124 | Writing the prefix sets bits 4-5 to its code and leaves every other bit unchanged. |
| `NumberOperations.WithPrefixKeepsFields` | include/qpl/maths.hpp:122-124 | The operator and both flags read the same after the prefix is written. |
| `NumberOperations.WithLinkFlag` | include/qpl/maths.hpp:131-134 | Bit 6 is set and every other bit is unchanged. |
| `NumberOperations.WithVariableFlag` | include/qpl/maths.hpp:141-144 | Bit 7 is set and every other bit is unchanged. |
| `NumberOperations.Pack` | include/qpl/maths.hpp:175-176 | Packing a cell into its info word and reading it back gives the same cell, and bits 8-31 stay clear. |
| `NumberOperations.Decimal` | include/qpl/maths.hpp:160-163 | The decimal text of an index is a non-empty string of digits, with no leading zero except for 0 itself. |
| `NumberOperations.DecimalRoundTrip` | include/qpl/maths.hpp:160-163 | Parsing the decimal text of n gives n. |
| `NumberOperations.RecordString` | include/qpl/maths.hpp:150-173 | The text starts with the sign ("-", "+" or nothing). Then comes "#" and the index for a link, "v" and the index for a variable, or the printed number for a literal. A cell whose operator is not none ends in a space and the operator's name. With operator none nothing follows the token: the length is exactly sign plus token. |
| `NumberOperations.IndexTextRoundTrip` | include/qpl/maths.hpp:159-164 | The digits after "#" or "v" parse back to the cell's index. |
| `NumberOperations.NumberOperation.SetOperation` | include/qpl/maths.hpp:116-118 | get_operation returns the operator just set, and the prefix, flags and payload are unchanged. |
| `NumberOperations.NumberOperation.SetPrefix` | include/qpl/maths.hpp:122-124 | get_prefix returns the prefix just set, and everything else is unchanged. |
| `NumberOperations.NumberOperation.SetLink` | include/qpl/maths.hpp:131-134 | is_link holds and get_link returns the link, and the other fields are unchanged. |
| `NumberOperations.NumberOperation.SetVariable` | include/qpl/maths.hpp:141-144 | is_variable holds and get_variable returns the index, and the other fields are unchanged. |
| `NumberOperations.NumberOperation.Clear` | include/qpl/maths.hpp:145-148 | Every info bit is cleared: the operator is none, the prefix none, both flags off, and the payload 0. |
| `MathematicalFunctions.ApplyPrefix` | include/qpl/maths.hpp:219-224 | A negated prefix negates the operand; the other prefixes leave it as it is. |
| `MathematicalFunctions.Apply` | include/qpl/maths.hpp:225-238 | The none operator keeps the accumulator, and division by 0 gives 0. |
| `MathematicalFunctions.Operand` | include/qpl/maths.hpp:211-224 | Resolving an operand fails only for a link or variable whose index is out of range. |
| `MathematicalFunctions.FoldLineFailureSticks` | include/qpl/maths.hpp:186-240 | Once a line cannot read an operand, solve cannot read past it either. |
| `MathematicalFunctions.ReduceWalksLine` | include/qpl/maths.hpp:186-248 | The inner loop folds a line strictly left to right into the line's first slot, up to the first cell whose operator is none. |
| `MathematicalFunctions.UnterminatedReduceFails` | include/qpl/maths.hpp:185-251 | If no later cell has operator none, solve falls off its end. |
| `MathematicalFunctions.ReduceMatchesLines` | include/qpl/maths.hpp:185-251 | From a line start, the loop and the line-by-line reading agree whenever either gives a value. |
| `MathematicalFunctions.EvalMatchesReference` | include/qpl/maths.hpp:182-251 | solve's value is the value of the line ending at the last cell, read line by line: each line is a left fold with no precedence, and the next line starts after the none cell. |
| `MathematicalFunctions.LinesEndWithNone` | include/qpl/maths.hpp:241-248 | A line-by-line value exists only when the last cell's operator is none. |
| `MathematicalFunctions.ValueNeedsTerminator` | include/qpl/maths.hpp:241-251 | solve returns a value only for a chain of two or more cells whose last cell's operator is none. |
| `MathematicalFunctions.WritingKeepsSkeleton` | include/qpl/maths.hpp:192-237 | Writing a slot's payload never changes any cell's operator, prefix or flags. |
| `MathematicalFunctions.LeftToRight` | include/qpl/maths.hpp:225-231 | [2 add, 3 mul, 4 none] evaluates to 20, not 14. |
| `MathematicalFunctions.DivisionByZero` | include/qpl/maths.hpp:232-235 | [4 div, 0 none] evaluates to 0. |
| `MathematicalFunctions.VariablesAndPrefix` | include/qpl/maths.hpp:216-221 | Variables are read by index, and a negated prefix negates them: v0 - (-v1) = 12 for (5, 7). |
| `MathematicalFunctions.LastLineCounts` | include/qpl/maths.hpp:241-247 | Only the line that ends at the last cell gives the value. |
| `MathematicalFunctions.LinkReadsEarlierLine` | include/qpl/maths.hpp:213-214 | A link to an earlier line's first slot reads that line's result (20), not the literal stored in the chain. |
| `MathematicalFunctions.SingleCellLastLine` | include/qpl/maths.hpp:246-251 | A one-cell line at the end is skipped by the outer ++i, so control falls off the end. |
| `MathematicalFunctions.MissingVariable` | include/qpl/maths.hpp:216-217 | A variable index beyond the supplied variables is an error. |
| `MathematicalFunctions.MathematicalFunction.Solve` | include/qpl/maths.hpp:182-251 | solve returns Eval's value, never changes chain, and leaves a working copy whose operators, prefixes and flags are chain's. |
| `MathematicalFunctions.MathematicalFunction.WalkLine` | include/qpl/maths.hpp:186-249 | One run of the inner loop either returns what the rest of solve would return, or hands the outer loop a cursor from which solve continues to the same value. |
| `MathematicalFunctions.MathematicalFunction.Call` | include/qpl/maths.hpp:253-256 | operator() is solve with its arguments as the variables. |
| `MathematicalFunctions.ChainTextAppend` | include/qpl/maths.hpp:258-267 | The text of two chains put together is the two texts put together. |
| `MathematicalFunctions.CellTextHasNoBreak` | include/qpl/maths.hpp:150-173 | A cell's own text has no line break when numbers and operator names have none. |
| `MathematicalFunctions.OneLineBreakPerLine` | include/qpl/maths.hpp:258-267 | The text has exactly one line break per cell whose operator is none. |
| `Primes.IsPrimeAsWritten` | include/qpl/maths.hpp:18-33 | The loop as written answers whether no tried divisor below the square root divides value. The tried divisors are 5, 9, 11, 15, 17, ...; below 5 the answer is v == 2 or v == 3. |
| `Primes.RejectedAsWrittenIsComposite` | include/qpl/maths.hpp:18-33 | When is_prime as written answers false, the value is not prime. |
| `Primes.AcceptedAsWrittenComposites` | include/qpl/maths.hpp:18-33 | is_prime as written accepts 8, 9, 25 and 49, none of which is prime. |
| `Primes.IsPrime` | include/qpl/maths.hpp:18-33 | Corrected is_prime answers exactly whether value is prime. |
| `Primes.PrimeFactors` | include/qpl/maths.hpp:37-52 | With the corrected `is_prime`, the result is empty exactly for 0, 1 and primes. Otherwise every element is prime, the list is non-decreasing, and its product is value. |
| `Primes.PrimeFactorsAsWritten` | include/qpl/maths.hpp:37-52 | With `is_prime` as written, the result is empty exactly for 0, 1 and the values that test accepts (every prime, and composites such as 8, 9, 25 and 49). Otherwise every element is prime, the list is non-decreasing, and its product is value. |
| `Primes.Dividers` | include/qpl/maths.hpp:56-66 | The result holds exactly the i in [1, value) that divide value, strictly ascending. For value >= 2 it is [1] exactly when value is prime. |
| `Primes.DividersOfPrime` | include/qpl/maths.hpp:56-66 | An ascending list of exactly the proper divisors is [1] exactly for a prime. |

## Left out

- Floating point is not modelled. That covers:
  - the interpolation, distribution and slope functions;
  - `clamp_0_1` and `linear_interpolation`;
  - the `std::sqrt`-based pairing inverses;
  - `ema`.
- `std::pow` in `solve` is the parameter `pow` and is never interpreted.
- `T` in `mathematical_functon` is `real`.
- How `std::ostringstream` prints a number, and `mathematical_operation_string`, are the parameters `showNumber` and `opName`.
- `is_prime` compares with `std::sqrt(value)` as a double. The model uses the integer test `i * i < value`, which agrees for every value where the double square root is exact.
- `collatz_conjecture` is left out. It prints on every step and its termination is an open problem.
- `sudoku_sum_possibilities` is only declared in the header; its body is not part of this model.
- `qpl::bitset<32>` internals are left out; the info word is a `bv32`.
- `reverse_bits` covers only its `u32` branch. Its generic loop for other widths is not part of this model.
- `reverse_bits_copied` reverses an uninitialised local and ignores its argument, so no contract is claimed for it.
- `static_split`, `convert_to_vector`, the type-level helpers (`type_max`, `type_min`, `container_depth`, `type_configurations`, `binary_configurations`) and the non-container branch of `container_sum` are left out.
- `date.hpp` and `QSF/socket.hpp` are not part of this model.
- Fixed-width overflow is not modelled:
  - `pow`, `shift`, `factorial`, `cantor_pairing`, `rosenberg_pairing`, the digit helpers and `container_sum` work on unbounded integers. The source computes in `T` or `qpl::size` and wraps or overflows.
  - The model writes wrap-around out only where the result depends on it: `base_max` and `flip_digits`, both modulo 2^32.
- `IntegerAlgorithms.ApproximateMultipleUp` reads `T` as a signed integer. For an unsigned `T` and value 0, `value - 1` wraps to the largest value of `T`, so for `u32` `approximate_multiple_up(0, 3)` is 2. That case is not modelled.
- Undefined behaviour is either a precondition or an `Err` result:
  - a bit position of 32 or more is a precondition (`position < 32`);
  - a zero modulus is a precondition;
  - the empty-container reads in `container_sum` and `min_max_vector` are preconditions;
  - in `solve`, out-of-range link and variable indices and falling off the end are `Err` results.
- `NumberOperations.NumberOperation.SetLink` and `SetVariable` take an index below 2^32, as their `u32` parameter does. `get_link`/`get_variable` truncate the payload to an integer rather than wrapping it to `u32`.
- `ContainerAlgorithms.CombineContainers` returns the combined sequence instead of appending to `destination` through a reference. The `reserve` call, which only changes capacity, is left out.
- `ContainerAlgorithms.MinMaxVector` states the minimum and maximum values. It does not say which of several equal elements `std::minmax_element` points at, because only their values are returned.
- The `std::find` in the vector filters is the membership test `x in target`.
- `Primes.PrimeFactors` uses the corrected `is_prime`, as the Findings say. `Primes.PrimeFactorsAsWritten` follows the source's own `is_prime`, which returns an empty list for 8.
- `MathematicalFunctions.MathematicalFunction.Solve` reassigns a `seq` working copy instead of writing into the elements of a `std::vector`. Concurrent calls, which race on the shared `result`, are not modelled.
- Getters without a contract of their own state no row:
  - `NumberOperation.GetOperation`, `GetPrefix`, `IsLink`, `GetLink`, `IsVariable`, `GetVariable`;
  - the two `String` members;
  - `GetDigit`.
  They are read by the setters' contracts and by the lemmas above.

## Findings

| source | as written | input that shows it | evidently intended | confidence | as-written member | corrected member |
|---|---|---|---|---|---|---|
| include/qpl/maths.hpp:18-33 | The loop sets `add = 6 - add` before the for-header adds it, so the trial divisors run 5, 9, 11, 15, 17, ... (multiples of 3 instead of 7, 13, 19, ...). 2 and 3 are never tried for values from 5 up. The bound `i < sqrt(value)` is strict, so a square root is never tried. | 25 (also 8, 9 and 49) is reported prime | A 6k ± 1 wheel after testing 2 and 3, trying 5, 7, 11, 13, ... with `i * i <= value` | high (not executed) | `Primes.AcceptedAsWrittenComposites` | `Primes.IsPrime` |
| include/qpl/algorithm.hpp:147-150 | `flipped_bits_until(value, significant_bit(value))` is called with position 32 when bit 31 is set, and `~0u << 32` is undefined | 0x8000_0000 | Invert every bit up to the most significant set bit, which for such a value is `~value` | medium (not executed) | `BitAlgorithms.FlipUntilMsbCounterexample` | `BitAlgorithms.FlippedBitsUntilMsbBits` |
