# Decimal: an arbitrary-precision decimal number over bcmath

This project models the `Decimal` class of the PHP library anton-vlasenko/decimal
(`src/Decimal.php`) and proves properties of the model in Dafny.

A `Decimal` holds one canonical decimal string. The constructor parses its argument:

- The text must match the class's pattern. That is an optional minus, one or more digits, an
  optional point followed by one or more digits, and an optional exponent: `e` or `E`, an
  optional `+` or `-`, and one or more digits.
- The integer digits lose their leading zeros, keeping at least `0`. The fraction digits lose
  their trailing zeros.
- A minus on zero is dropped.
- With an exponent, the canonical mantissa is multiplied (`bcmul`) or divided (`bcdiv`) by
  `bcpow('10', power)` at the class's scale. bcmath's answer is then parsed again. `bcpow`
  reads its exponent as a native integer and fails when the power exceeds PHP_INT_MAX
  (2^63 - 1).

Every arithmetic operation follows the same shape:

- It parses its argument with the same parser.
- It asks bcmath for the result at the scale, which truncates toward zero.
- It builds a new `Decimal` from bcmath's text through `construct`, which parses that text again.

The comparisons call `bccomp` at the scale and test its answer against a set of accepted
results. `toInt` refuses a value with a point. `__toString` returns the canonical string.

The Dafny modules follow that structure:

- `Outcomes`: `Option` and `Result`.
- `Arith`, `Digits`: integer facts, digit strings, and `ltrim`/`rtrim` of zeros.
- `BcMath`: the bcmath functions on exact values `Num(m, e)`, meaning m / 10^e. `BcAdd`,
  `BcSub`, `BcMul` and `BcDiv` truncate toward zero at the scale. `BcPow` gives integer powers,
  `BcSqrt` the truncated square root, `BcComp` the comparison, and `BcFormat` bcmath's output
  text.
- `Grammar`: the pattern as a datatype of captures (`Match`) with its `Render`ing. `Recognise`
  is a recogniser proved to accept exactly the rendered texts.
- `Canonical`: the canonical value `Dec(neg, intPart, fracPart)`, the subset type `Decimal` of
  canonical ones, `Canonicalise` (the trimming and the negative-zero rule), `ToString` and
  `FromScaled`. `FromScaled` is the decimal that `construct` builds from bcmath's answer.
- `Parser`: `parse`, including the exponent path and the re-parse.
- `DecimalModel`: the public operations.
- `Examples`: the behaviour that `Tests/Unit/DecimalTest.php` checks, stated as lemmas of the model.

The class's static `SCALE` (200) is the parameter `scale` of every operation; `Parser.DefaultScale` is 200.
A `Decimal` is a Dafny value: every operation returns a new one, and the receiver is never changed.

## Model

| member | source | states |
|---|---|---|
| Digits.TrimLeadingZerosShape | src/Decimal.php:29 | ltrim of '0' removes exactly a prefix of zeros: the result is a suffix of the input, every removed character is '0', and the result is empty or starts with a non-zero |
| Digits.TrimLeadingZerosValue | src/Decimal.php:29-30 | removing leading zeros keeps the digits' value |
| Digits.TrimTrailingZerosShape | src/Decimal.php:37 | rtrim of '0' removes exactly a suffix of zeros: the result is a prefix of the input, every removed character is '0', and the result is empty or ends in a non-zero |
| Digits.TrimTrailingZerosValue | src/Decimal.php:37-38 | the fraction's value is the trimmed fraction's value times 10 to the number of zeros removed |
| Digits.TrimTrailingZerosPadded | src/Decimal.php:37 | rtrim gives back a fraction that does not end in '0', however many zeros are appended to it |
| Grammar.Recognise | src/Decimal.php:9 | a recognised text is well formed and is exactly the rendering of the captures found (sign, integer digits, fraction digits, exponent marker, sign and digits) |
| Grammar.RecogniseComplete | src/Decimal.php:9 | every well-formed set of captures, once rendered, is recognised with exactly those captures |
| Grammar.RecogniseExactly | src/Decimal.php:26-27 | a text is accepted if and only if it is the rendering of some well-formed match |
| Grammar.ExponentMarkerInText | src/Decimal.php:48-51 | a text whose match has an exponent contains 'e' or 'E' |
| Canonical.Canonicalise | src/Decimal.php:29-46 | the assembled result is canonical: no leading zero unless it is "0", no trailing fraction zero, no point without fraction digits, no "-0"; its fraction is no longer than the captured one |
| Canonical.CanonicaliseValue | src/Decimal.php:29-46 | the canonical result has the same value as the captured text |
| Canonical.CanonicaliseCanonical | src/Decimal.php:29-46 | canonicalising the captures of a canonical decimal gives it back unchanged |
| Canonical.ZeroText | src/Decimal.php:41-46 | a canonical decimal's text is "0" if and only if its value is zero |
| Canonical.ZeroCanonical | src/Decimal.php:41-43 | the only canonical decimal with value zero is "0": negative zero has collapsed |
| Canonical.CanonicalSign | src/Decimal.php:41-46 | a canonical decimal carries a minus exactly when its value is negative, and it is "0" exactly when its value is zero |
| Canonical.CanonicalUnique | src/Decimal.php:46 | two canonical decimals with the same value at the scale are the same decimal |
| Canonical.CanonicalMatchRenders | src/Decimal.php:185-188 | the text of a canonical decimal is matched by the pattern with that decimal's digits as captures |
| Canonical.FromScaledValue | src/Decimal.php:165-168 | the decimal built from bcmath's answer q at scale s is canonical, has at most s fraction digits and denotes q / 10^s |
| Canonical.FromScaledOfCanonical | src/Decimal.php:165-168 | rebuilding a canonical decimal of at most s fraction digits from its value at scale s gives it back |
| Canonical.TruncOfCanonical | src/Decimal.php:46 | at a scale covering its fraction, a canonical decimal's units are its digits padded with zeros, signed by its minus |
| Parser.Parse | src/Decimal.php:22-64 | parsing succeeds if and only if the text matches the pattern and any exponent power is at most PHP_INT_MAX; it fails with the invalid-argument error if and only if the text does not match, and with bcmath's error if and only if it matches with a larger power |
| Parser.ParseValue | src/Decimal.php:22-64 | for an accepted text: without an exponent the parsed decimal has exactly the text's value; with one, its value truncated at the scale equals the text's value times 10^±power truncated at the scale, and its fraction fits in the scale |
| Parser.ApplyExponentValue | src/Decimal.php:53-62 | bcmul or bcdiv of the mantissa by bcpow('10', power) at the scale is the mantissa scaled by the signed power of ten, truncated at the scale |
| Parser.FormatRecognised | src/Decimal.php:62-63 | bcmath's answer is accepted by the pattern and has no exponent, so the re-parse ends after one step |
| Parser.ParseFormat | src/Decimal.php:63 | re-parsing bcmath's answer q at scale s gives the canonical decimal of q / 10^s |
| Parser.ParseFormatValue | src/Decimal.php:165-168 | construct of bcmath's answer q succeeds with a canonical decimal whose value is q / 10^s and whose units at s are q |
| Parser.ParseToString | src/Decimal.php:185-188 | parsing a decimal's own text gives back that decimal |
| Parser.ParseIdempotent | src/Decimal.php:17-20 | re-parsing a parsed value's text gives the same result as the first parse |
| Parser.ParseZero | src/Decimal.php:41-43 | any accepted text whose digits are all zero, signed or not, with or without exponent, parses to "0" |
| Parser.ParseSign | src/Decimal.php:41-46 | a parsed decimal is negative exactly when its value is, and its text is "0" exactly when its value is zero |
| BcMath.TruncDiv | src/Decimal.php:93 | bcmath's division is the quotient truncated toward zero: its magnitude is bracketed by the dividend and its sign is the product of the operands' signs |
| BcMath.BcDiv | src/Decimal.php:93 | bcdiv at scale s is the exact quotient truncated toward zero to s fraction digits |
| BcMath.TruncSum | src/Decimal.php:69 | when both operands fit in the scale, bcadd is the exact sum of their units |
| BcMath.TruncNegate | src/Decimal.php:76 | truncation toward zero commutes with negation, so bcsub is bcadd of the negated argument |
| BcMath.BcPowTwo | src/Decimal.php:101 | bcpow with exponent 2 is bcmul of the value by itself |
| BcMath.BcPowNegative | src/Decimal.php:101 | for a non-zero base x and exponent -k < 0, bcpow's answer q at scale s is the reciprocal of x^k truncated toward zero: with x = m / 10^e, |q| * |m^k| <= 10^(e*k+s) < (|q|+1) * |m^k|, and a non-zero q has the sign of m^k |
| BcMath.ISqrt | src/Decimal.php:115 | the integer square root r satisfies r*r <= n < (r+1)*(r+1) |
| BcMath.BcSqrt | src/Decimal.php:115 | bcsqrt at scale s is the square root truncated to s fraction digits: its square is at most the value and the next unit's square exceeds it |
| BcMath.PowNumAdd | src/Decimal.php:101 | the power of a value obeys x^(a+b) = x^a * x^b |
| DecimalModel.Add | src/Decimal.php:66-71 | add succeeds if and only if the argument parses; it fails with the invalid-argument error exactly when the argument does not match the pattern, and with bcmath's error exactly when its exponent power exceeds PHP_INT_MAX; the result is the exact sum truncated at the scale, with a fraction that fits the scale |
| DecimalModel.Substract | src/Decimal.php:73-78 | substract succeeds if and only if the argument parses; it fails with the invalid-argument error exactly when the argument does not match the pattern, and with bcmath's error exactly when its exponent power exceeds PHP_INT_MAX; the result is the exact difference truncated at the scale |
| DecimalModel.MultiplyBy | src/Decimal.php:80-85 | multiplyBy succeeds if and only if the argument parses; it fails with the invalid-argument error exactly when the argument does not match the pattern, and with bcmath's error exactly when its exponent power exceeds PHP_INT_MAX; the result is the exact product truncated at the scale |
| DecimalModel.DivideBy | src/Decimal.php:87-95 | divideBy fails with invalid format if and only if the argument does not match the pattern, with bcmath's error if and only if its exponent power exceeds PHP_INT_MAX, with division by zero if and only if it parses to zero, and otherwise gives bcdiv's truncated quotient |
| DecimalModel.IsIntCanonical | src/Decimal.php:156-159 | a canonical text has no point if and only if the decimal has no fraction digits |
| DecimalModel.IntegerOfValue | src/Decimal.php:176 | a decimal without fraction digits denotes the signed integer of its digits |
| DecimalModel.ToInt | src/Decimal.php:170-177 | toInt fails if and only if the value has fraction digits, and otherwise returns the integer the decimal denotes |
| DecimalModel.Power | src/Decimal.php:97-107 | power fails with the invalid-argument error when the exponent does not match the pattern, and with bcmath's error when the exponent text matches but carries an exponent power above PHP_INT_MAX (as in "1e…"); otherwise it is PowerOf of the parsed exponent |
| DecimalModel.ParsedInteger | src/Decimal.php:22-46 | a non-zero digit string, with or without a leading minus, parses to a decimal without fraction digits whose integer is the string's signed value |
| DecimalModel.PowerTooLarge | src/Decimal.php:97-101 | power with an exponent text of digits whose value exceeds PHP_INT_MAX, such as "9223372036854775808", or with its negation, fails with bcmath's error: the text parses, its canonical form has no point, and bcpow refuses it |
| DecimalModel.PowerNonNegative | src/Decimal.php:100-101 | for an integral exponent 0 <= n <= PHP_INT_MAX the result succeeds, fits the scale, and is x^n truncated at the scale |
| DecimalModel.PowerNegative | src/Decimal.php:100-101 | for an integral exponent -PHP_INT_MAX <= n < 0: a zero base fails with bcmath's error; otherwise the result succeeds, fits the scale, and its units at the scale are bcpow's reciprocal power (bounded by BcMath.BcPowNegative) |
| DecimalModel.PowerFractional | src/Decimal.php:102-106 | an exponent with fraction digits takes the floating-point path, whose answer is then parsed by construct |
| DecimalModel.PowerTwoIsSquare | src/Decimal.php:97-107 | power("2") equals multiplyBy of the value by itself |
| DecimalModel.PowerZeroIsOne | src/Decimal.php:97-107 | power("0") is one |
| DecimalModel.SmallInteger | src/Decimal.php:22-46 | a one-digit text parses to that digit's decimal, which denotes the digit |
| DecimalModel.SquareRoot | src/Decimal.php:109-117 | squareRoot fails if and only if the value is negative; otherwise the result's units are the truncated square root, bracketed from both sides |
| DecimalModel.SquareRootAsWritten | src/Decimal.php:111-115 | the guard as written refuses exactly the values whose truncation at the scale is negative; bcsqrt fails exactly on the negatives that truncate to zero |
| DecimalModel.LessThanZero | src/Decimal.php:111 | lessThan(0) is true exactly when the value truncated at the scale is negative |
| DecimalModel.SquareRootGuardGap | src/Decimal.php:111-115 | -10^-(scale+1) is canonical and negative, gets past the guard and reaches bcsqrt, which fails, while the corrected operation refuses it |
| DecimalModel.TinyTruncatesToZero | src/Decimal.php:111 | -10^-(s+1) truncates to zero at scale s |
| DecimalModel.SquareRootAgrees | src/Decimal.php:109-117 | for values whose fraction fits the scale, the guard as written and the corrected operation agree |
| DecimalModel.Compare | src/Decimal.php:149-154 | compare succeeds if and only if the argument parses; it fails with invalid format exactly when the argument does not match the pattern, and with bcmath's error exactly when its exponent power exceeds PHP_INT_MAX |
| DecimalModel.ComparePredicates | src/Decimal.php:119-147 | exactly one of lessThan, equals and moreThan holds; moreThanOrEquals, lessThanOrEquals and notEquals are the matching disjunctions and negation |
| DecimalModel.CompareTruncated | src/Decimal.php:149-154 | the predicates compare the two values truncated at the scale |
| DecimalModel.CompareExact | src/Decimal.php:149-154 | for values whose fractions fit the scale, lessThan and equals are the exact order and equality of the values |
| DecimalModel.TruncOrder | src/Decimal.php:152 | for values whose fractions fit the scale, truncation at the scale preserves and reflects order and equality |
| DecimalModel.EqualsSameDecimal | src/Decimal.php:139-142 | for values whose fractions fit the scale, equals holds if and only if the two are the same decimal |
| DecimalModel.CompareAntisymmetric | src/Decimal.php:119-132 | a.moreThan(b) is b.lessThan(a) |
| DecimalModel.LessThanTransitive | src/Decimal.php:129-132 | lessThan is transitive |
| DecimalModel.ExactWithinScale | src/Decimal.php:165-168 | a result whose fraction fits the scale and which agrees at the scale with an exact value of that many digits has that value |
| DecimalModel.AddExact | src/Decimal.php:66-71 | adding two decimals whose fractions fit the scale gives the exact sum |
| DecimalModel.MultiplyExact | src/Decimal.php:80-85 | multiplying two decimals whose fraction lengths add up to at most the scale gives the exact product |
| DecimalModel.AddCommutative | src/Decimal.php:66-71 | a.add(b) equals b.add(a) |
| DecimalModel.MultiplyCommutative | src/Decimal.php:80-85 | a.multiplyBy(b) equals b.multiplyBy(a) |
| DecimalModel.SubstractSelf | src/Decimal.php:73-78 | a.substract(a) is "0", never "-0" |
| DecimalModel.MultiplyByOne | src/Decimal.php:80-85 | multiplying by "1" gives back the receiver when its fraction fits the scale |
| DecimalModel.DivideByOne | src/Decimal.php:87-95 | dividing by "1" gives back the receiver when its fraction fits the scale |
| Examples.RefusedTail | src/Decimal.php:26-27 | digits followed by a tail that the pattern cannot continue with are refused |
| Examples.RejectsNoLeadingDigit | Tests/Unit/DecimalTest.php:12-30 | "asfoq3t" and ".12412" are refused with the invalid-argument error |
| Examples.RejectsBarePoint | Tests/Unit/DecimalTest.php:19-23 | "123." is refused |
| Examples.RejectsLettersAfterPoint | Tests/Unit/DecimalTest.php:32-37 | "28230.kysdfl" is refused |
| Examples.RejectsTrailingLetters | Tests/Unit/DecimalTest.php:39-44 | "2124asd" is refused |
| Examples.AcceptsFinalNewline | src/Decimal.php:9 | the pattern's `$` also accepts one final newline, so "12\n" parses as "12" |
| Examples.ZeroMatch | src/Decimal.php:41-43 | every accepted all-zero text parses to "0" |
| Examples.NegativeZero | src/Decimal.php:41-43 | "-0" parses to "0" |
| Examples.NegativeZeroWithFraction | src/Decimal.php:41-43 | "-000.000" parses to "0" |
| Examples.NegativeZeroWithExponent | src/Decimal.php:41-63 | "-0e5" parses to "0" |
| Examples.ParsesTo | src/Decimal.php:53-63 | a text with an exponent whose value fits the scale parses to the canonical decimal of that value |
| Examples.SevenPointThreeTwoFive | Tests/Unit/DecimalTest.php:49-50 | 7.325 with exponent +2, in either case and with or without '+', parses to 732.5 |
| Examples.PositiveExponent | Tests/Unit/DecimalTest.php:49 | "7.325e2" parses to 732.5 |
| Examples.PositiveExponentUpperCase | Tests/Unit/DecimalTest.php:50 | "7.325E+2" parses to 732.5 |
| Examples.ThreePointFourFourFive | Tests/Unit/DecimalTest.php:51-52 | 3.445 with exponent -10 parses to 0.0000000003445 |
| Examples.NegativeExponent | Tests/Unit/DecimalTest.php:51 | "3.445e-10" parses to 0.0000000003445 |
| Examples.NegativeExponentUpperCase | Tests/Unit/DecimalTest.php:52 | "3.445E-10" parses to 0.0000000003445 |
| Examples.ExponentBeyondLong | src/Decimal.php:58-59 | "1e" followed by any power above PHP_INT_MAX matches the pattern, but parsing fails with bcmath's error |
| Examples.TenToTheNineteenBeyondLong | src/Decimal.php:59 | the power "10000000000000000000" (10^19) is above PHP_INT_MAX, so "1e10000000000000000000" is such a text |
| Examples.PowerBeyondLong | src/Decimal.php:97-101 | power("10000000000000000000") and power("-10000000000000000000") fail with bcmath's error |
| Examples.ExponentResultTexts | Tests/Unit/DecimalTest.php:49-52 | the texts of those results are "732.5" and "0.0000000003445" |
| Examples.OfAt | src/Decimal.php:165-168 | the decimal of a fixed-point literal is canonical and denotes it |
| Examples.SumVector | src/Decimal.php:66-71 | an add whose units sum is the expected units gives the expected decimal |
| Examples.DifferenceVector | src/Decimal.php:73-78 | a substract whose units difference is the expected units gives the expected decimal |
| Examples.ProductVector | src/Decimal.php:80-85 | a multiplyBy whose scaled digit product is the expected units gives the expected decimal |
| Examples.QuotientVector | src/Decimal.php:87-95 | a divideBy whose quotient is exact gives the expected decimal |
| Examples.AddVectorPositive | Tests/Unit/DecimalTest.php:99-101 | 587165.321478924 + 801.00000287463 = 587966.32148179863 |
| Examples.AddVectorMixedSigns | Tests/Unit/DecimalTest.php:103-105 | 854301501.36984 + -4782938523.7145 = -3928637022.34466 |
| Examples.SubstractVectorPositive | Tests/Unit/DecimalTest.php:111-113 | 21436 - 2341.286582738234324 = 19094.713417261765676 |
| Examples.SubstractVectorNegative | Tests/Unit/DecimalTest.php:115-117 | 7236582.124 - -82029384.736273823 = 89265966.860273823 |
| Examples.MultiplyVectorPositive | Tests/Unit/DecimalTest.php:123-125 | 124.20000351 * 9.235 = 1146.98703241485 |
| Examples.MultiplyVectorNegative | Tests/Unit/DecimalTest.php:127-129 | 823756.2536 * -38.09764 = -31383169.197401504 |
| Examples.DivideVectorPositiveByNegative | Tests/Unit/DecimalTest.php:135-137 | 493961.5589674 / -653.14 = -756.28741 |
| Examples.DivideVectorNegativeByNegative | Tests/Unit/DecimalTest.php:139-141 | -953102.1557129 / -952.15 = 1001.000006 |
| Examples.PowerVectorSquare | Tests/Unit/DecimalTest.php:175-176 | 5888557.1254 to the power 2 is 34675105019099.11132516 |
| Examples.IntegerExponentWithFraction | src/Decimal.php:99-101 | "2.0" parses to 2, which counts as an integer, so power("2.0") is power("2") |
| Examples.IntegerExponentWithExponent | src/Decimal.php:99-101 | "1e2" parses to 100, which counts as an integer, so power("1e2") is power("100") |
| Examples.ToIntOfFraction | Tests/Unit/DecimalTest.php:152-156 | "6.5" parses to 6.5, and toInt of it fails |
| Examples.ToIntOfInteger | Tests/Unit/DecimalTest.php:159-163 | toInt of 2342352362 is 2342352362 |
| Examples.DivideByZeroText | Tests/Unit/DecimalTest.php:145-149 | dividing any decimal by "0" fails with division by zero |
| Examples.SquareRootOfMinusOne | Tests/Unit/DecimalTest.php:190-194 | the square root of -1 fails with the negative-radicand error, both as written and corrected |
| Examples.SquareRootVector | src/Decimal.php:109-117 | the square root of the exact square of a non-negative literal whose places fit the scale is that literal |
| Examples.SquareRootIs | src/Decimal.php:115 | a canonical decimal whose units bracket the root of a non-negative value is its square root |
| Examples.SquareRootVectorExample | Tests/Unit/DecimalTest.php:166-170 | the square root of 34675105019099.11132516 is 5888557.1254 |
| Examples.CompareVector | src/Decimal.php:119-154 | the six predicates between two literals whose places fit the scale compare their exact values |
| Examples.CompareMoreThanInteger | Tests/Unit/DecimalTest.php:77 | 8734.23785 is more than 1241 |
| Examples.CompareMoreThanNegative | Tests/Unit/DecimalTest.php:78 | -342.0001 is more than -27365.12412 |
| Examples.CompareMoreThanOrEqualsItself | Tests/Unit/DecimalTest.php:80 | 8734.23785 is more than or equal to itself |
| Examples.CompareMoreThanOrEqualsNegative | Tests/Unit/DecimalTest.php:81 | -342.0001 is more than or equal to -30000 |
| Examples.CompareLessThanLonger | Tests/Unit/DecimalTest.php:83 | 8734.23785 is less than 8734.23785000000000000000001 |
| Examples.CompareLessThanNegative | Tests/Unit/DecimalTest.php:84 | -342.0001 is less than -199.235 |
| Examples.CompareLessThanOrEqualsPadded | Tests/Unit/DecimalTest.php:86 | the text with 31 extra trailing zeros parses to 8734.23785, and 8734.23785 is less than or equal to it |
| Examples.CompareLessThanOrEqualsNegative | Tests/Unit/DecimalTest.php:87 | -342.0001 is less than or equal to -100.012312124124 |
| Examples.CompareEqualsItself | Tests/Unit/DecimalTest.php:89-92 | 8734.23785 equals itself and is not unequal to itself |
| Examples.CompareEqualsNegative | Tests/Unit/DecimalTest.php:90-93 | 8734.23785 does not equal -342.0001 and is unequal to it |

## Left out

- Non-string arguments: `parse` first casts its argument with `(string)`. The model takes the argument as a string after that cast, so integer and float arguments are out of scope (the PHP cast of a float is not modelled).
- DecimalModel.PowerFractional: the floating-point path of `power` (`pow` on `toFloat()`) is not modelled. Its textual answer is the parameter `floatPower`, and the model only states that `construct` parses it.
- `toFloat` and the `(float)`/`(int)` casts are floating-point or machine-width conversions and are not modelled.
- DecimalModel.ToInt: returns an unbounded integer. It does not model PHP's `(int)` on a value beyond the 64-bit range.
- bcmath is modelled by its results on exact values, not by its digit-by-digit algorithms. `bcsqrt` is the exact square root truncated to the scale.
- bcmath's own failures (an exponent beyond PHP_INT_MAX, a zero base raised to a negative power, `bcsqrt` of a negative value) are one error, `BcmathError`. The model follows PHP 8.4's bcmath, where each of them throws; the exception class (`ValueError` or `DivisionByZeroError`) is not distinguished.
- Parser.Parse: follows PHP 8, where `bcpow('10', power)` throws for a power above PHP_INT_MAX. PHP 7's bcmath only warns and still returns a result; that behaviour is not modelled. Memory exhaustion while computing a large but admissible power of ten is not modelled either.
- DecimalModel.PowerNonNegative: promises success only for exponents up to PHP_INT_MAX. For an exponent text of digits above it, with or without a minus, `power` fails with `BcmathError` (DecimalModel.PowerTooLarge), as PHP 8 does; PHP 7's warning and its result are not modelled.
- DecimalModel.PowerNegative: follows PHP 8.4's bcmath, where zero raised to a negative power throws `DivisionByZeroError` (modelled as `BcmathError`). Earlier PHP versions return 0 with a warning; that result is not modelled. Exponents below -PHP_INT_MAX fail with `BcmathError`, as DecimalModel.PowerTooLarge states for their texts.
- The static `SCALE` is the parameter `scale` (200 by default). Changing it at run time between calls is not modelled.
- `construct` is modelled as `new static($value)`. The hook it offers to subclasses, which could mutate the receiver instead, is not part of this model.
- Comparison follows the code: `bccomp` at the scale, which compares values truncated to the scale digits. Values that differ only beyond the scale compare equal. The model states both the truncated order (DecimalModel.CompareTruncated) and the exact order when the fractions fit the scale (DecimalModel.CompareExact).
- Examples: the arithmetic vectors state their operands through `FromScaled` of a fixed-point literal. `Examples.OfAt` states that such a decimal is canonical and denotes the literal, and `Parser.ParseToString` states that parsing its text gives it back. The lessThanOrEquals line with trailing zeros states its receiver as the decimal 8734.23785.
- Examples: the accepted values of `it_accepts_valid_values` and the float cases of `power` and `toFloat` in `Tests/Unit/DecimalTest.php` are not restated. Acceptance is covered for every text by `Grammar.RecogniseExactly`.

## Findings

| source | as written | input that shows it | evidently intended | confidence | as-written member | corrected member |
|---|---|---|---|---|---|---|
| src/Decimal.php:111-115 | squareRoot guards with `lessThan(0)`, which compares at the scale. A negative value smaller in magnitude than 10^-scale truncates to zero, passes the guard and reaches `bcsqrt`, which raises bcmath's own error instead of the LogicException | the text "-0." followed by scale zeros and a final 1, whose value is -10^-(scale+1); the pattern accepts it and it is canonical | every negative value is refused with the LogicException | not executed | DecimalModel.SquareRootAsWritten (shown by DecimalModel.SquareRootGuardGap) | DecimalModel.SquareRoot |
