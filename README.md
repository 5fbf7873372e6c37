# apm DecimalInt in Dafny

A model of the arbitrary-precision signed decimal integer of the `apm` library and of its
literal lexer, with proofs that each operation computes the mathematical integer it stands for.

- `DecimalInt` stores the magnitude as base-10 digits, least significant first, in an array
  (`data`). It also keeps a count of significant digits (`size`) and a sign flag (`negative`).
  The ghost function `Value()` reads it as an integer, and every operation is specified
  against it:
  - construction from a `long`, from a literal and as a power of ten;
  - copy;
  - rendering as decimal text;
  - equality and comparison;
  - addition and subtraction through the shared helper with its carry and borrow loops;
  - schoolbook multiplication with carry rippling;
  - long division by digit descent, giving Java's truncated quotient and remainder;
  - `factorial` and `combinations`.
- `DecimalIntParser` is the finite-state lexer (states START, SIGN, ZERO, BASE, ZEROS and
  DIGITS). It turns a string into a sign, a base and a most-significant-first digit list, or
  rejects it. The model states the literal language declaratively (`Literals.ValidLiteral`,
  `LiteralSign`, `LiteralBase`, `LiteralDigits`, `LiteralValue`). It proves that the state
  machine accepts exactly that language, produces exactly those fields, and terminates under
  the measure "characters left plus states left".

Modules:

| module | file | contents |
|---|---|---|
| `Arith` | `arith.dfy` | Powers; Java's truncating `/` and `%` (`JavaDiv`, `JavaRem`); 32-bit wrap-around; factorial; the binomial coefficient by Pascal's rule and its symmetry and absorption identities. |
| `Digits` | `digits.dfy` | The `Digit` type 0..9; value of least-significant-first digits (`Val`); value of most-significant-first digits in a base (`ValMsd`); the comparison scan; decimal rendering. |
| `Literals` | `literals.dfy` | The literal language, and Java's decimal rendering of an integer (`Show`) with its round trip. |
| `LiteralExamples` | `literal_examples.dfy` | The literals of the test suite, accepted with their values or rejected. |
| `Parser` | `parser.dfy` | The `DecimalIntParser` class. |
| `BaseConversion` | `base_conversion.dfy` | The multiply-with-carry pass that converts base-2 and base-16 digits to decimal. |
| `LongMultiplication` | `multiplication.dfy` | Partial products and carry rippling for `multiply`. |
| `DecimalInts` | `decimal_int.dfy` | The `DecimalInt` class and its operations. |

Representation:
- `Valid()` says that `size` is within the array and that the digit below `size` is nonzero,
  when there is one. Digits 0..9 are enforced by the element type.
- `Canonical()` adds that zero is not negative.
- The two are kept apart because `multiply` sets the sign to the exclusive or of the operand
  flags even when the product is zero (DecimalInt.java:406). Such a negative zero still has
  value 0, and `getSign` reports 0 for it.
- Java exceptions become `Error` values in a `Result`:
  - a malformed literal gives `SyntaxError`;
  - a negative exponent gives `NegativeExponent`;
  - `grow`'s negative size gives `NegativeSize`;
  - division by zero gives `DivisionByZero`.

Behaviour the code has that the comments or the obvious reading do not suggest:
- `factorial(n)` returns 1 for every negative `n`.
- `combinations(n, k)` returns 1 whenever `k < 0` or `k > n`, where the binomial coefficient
  is 0 for `k > n`. For `k > n` the symmetry step replaces `k` with the negative `n - k`; a
  negative `k` with `2k <= n` is left as it is. Either way the loop bound is not positive. The
  model states this behaviour in `Combinations`' contract rather than the textbook value.
- The comment at DecimalInt.java:211 says zero counts as positive. `getSign` in fact returns
  0 for zero, so `compare` gives the sign of the difference in all cases; `Compare` proves
  exactly that.
- `getPowerOfTen(0x7fffffff)` fails with `grow`'s "Negative size" exception, because
  `exponent + 1` wraps around to a negative `int`. `GetPowerOfTen` models the 32-bit addition
  explicitly (`Arith.Wrap32`).

## Model

Paths are relative to the repository root. `DecimalInt.java` and `DecimalIntParser.java`
are under `apm/java/src/de/backson/apm/`; the test suite is
`apm/java/test/de/backson/apm/tests/DecimalIntTest.java`.

| member | source | states |
|---|---|---|
| DecimalInts.DecimalInt.constructor | apm/java/src/de/backson/apm/DecimalInt.java:14-18 | The default constructor gives zero: no digits, not negative. |
| DecimalInts.DecimalInt.FromLong | apm/java/src/de/backson/apm/DecimalInt.java:62-83 | For every `long` v, the result is a valid number whose value is v. It is negative iff v < 0, and its array is shrunk to exactly its significant digits. |
| DecimalInts.DecimalInt.LongDigits | apm/java/src/de/backson/apm/DecimalInt.java:70-80 | Repeated truncating division by ten splits any `long` into at most 19 digits, least significant first. Their value is \|v\| and the top one is nonzero, so the 19-slot buffer always suffices, `Long.MIN_VALUE` included. |
| DecimalInts.LongDivStep | apm/java/src/de/backson/apm/DecimalInt.java:75-79 | One step of the `long` loop: the digit from `Math.abs(val % 10)` is in 0..9; the rest `val / 10` is smaller in magnitude; digits and rest still make up \|v\|; fewer than 19 digits have been written. |
| DecimalInts.LongFits | apm/java/src/de/backson/apm/DecimalInt.java:70-72 | Whenever a nonzero rest remains after c digits of a magnitude ≤ 2^63, c < 19: 19 slots fit every `long`. |
| DecimalInts.DecimalInt.FromString | apm/java/src/de/backson/apm/DecimalInt.java:21-59 | The string constructor succeeds iff the string is a valid literal, and otherwise fails with a syntax error. On success the number is canonical and its value is the literal's sign times its digits read in its base. |
| DecimalInts.DecimalInt.FromLiteral | apm/java/src/de/backson/apm/DecimalInt.java:25-58 | From any sign, base 2/10/16 and digits within the base with no leading zero: a canonical number of value sign · ValMsd(digits, base). An empty digit list gives a zero that is not negative, so "-0" equals "+0". |
| DecimalInts.DecimalInt.AccumulateDigits | apm/java/src/de/backson/apm/DecimalInt.java:36-50 | Feeding n nonzero-led base-2 or base-16 digits into the 2n-slot decimal buffer yields a valid nonzero number whose magnitude is their value. |
| DecimalInts.DecimalInt.MulAddDigit | apm/java/src/de/backson/apm/DecimalInt.java:38-49 | One pass over the buffer multiplies its decimal value by the base and adds the digit, keeping the digits above `size` zero, when the result fits. |
| DecimalInts.DecimalInt.MulAddColumn | apm/java/src/de/backson/apm/DecimalInt.java:40-48 | One column of the pass (`sum = d·base + carry`, word `sum % 10`, carry `sum / 10`, size raised on a nonzero word) keeps the scaling invariant: finished columns plus carry equal base times the old prefix plus the digit. |
| BaseConversion.ScaleStep | apm/java/src/de/backson/apm/DecimalInt.java:41-47 | The scaling invariant advances by one column under the Java column arithmetic. |
| BaseConversion.ScaleFinish | apm/java/src/de/backson/apm/DecimalInt.java:38-49 | At the end of a pass whose result fits, the carry is 0. The buffer then holds base·old + digit, and `size` is one past its highest nonzero digit. |
| LongMultiplication.MulStepFits | apm/java/src/de/backson/apm/DecimalInt.java:388-389 | Adding the digit product a[i]·b[j] at position i+j moves the partial product one column on, and the partial product stays below 10^(\|a\|+\|b\|), so the carry can always be absorbed. |
| DecimalInts.NextDigitFits | apm/java/src/de/backson/apm/DecimalInt.java:37-48 | After k+1 digits the value is base times the value of the first k plus the next digit, and it stays below 10^(2n). The 2n-slot buffer therefore suffices for the whole conversion. |
| Arith.SmallBasePowerFits | apm/java/src/de/backson/apm/DecimalInt.java:37 | For bases 2..16 and n ≥ 1, base^n < 10^(2n); this is why the buffer has 2n slots. |
| Digits.ValReversed | apm/java/src/de/backson/apm/DecimalInt.java:27-34 | The base-10 path copies the digit list in reverse order, and the reversed digits, read least significant first, have the value of the list read most significant first. |
| DecimalInts.DecimalInt.Grow | apm/java/src/de/backson/apm/DecimalInt.java:86-96 | Capacity becomes the larger of the old capacity and n. Existing digits are kept, new slots are zero, and size and sign are unchanged. A new array is allocated only when capacity grows. |
| DecimalInts.DecimalInt.Shrink | apm/java/src/de/backson/apm/DecimalInt.java:99-103 | The array becomes exactly the significant digits, with size and sign unchanged. |
| DecimalInts.DecimalInt.GetSign | apm/java/src/de/backson/apm/DecimalInt.java:116-123 | The sign (-1, 0 or +1) of the value, including 0 for a negative zero. |
| DecimalInts.DecimalInt.Copy | apm/java/src/de/backson/apm/DecimalInt.java:126-132 | A fresh number with a fresh array holding the significant digits, the same size and sign, and so the same value. |
| DecimalInts.DecimalInt.ToString | apm/java/src/de/backson/apm/DecimalInt.java:135-151 | The text is Java's decimal rendering of the value: "0" for zero, otherwise an optional '-' and the digits most significant first without leading zeros. |
| Literals.RenderIsShow | apm/java/src/de/backson/apm/DecimalInt.java:145-148 | Rendering trimmed digits from the top gives the canonical decimal text of their value. |
| Literals.SignedRender | apm/java/src/de/backson/apm/DecimalInt.java:140-148 | A '-' before the rendered digits of a negative number gives the text of the signed value. |
| Literals.ShowNatDigits | apm/java/src/de/backson/apm/DecimalInt.java:135-151 | The decimal rendering of n is nonempty, made of decimal digit characters, has no leading zero when n > 0, and reads back to n. |
| Literals.ShowRoundTrip | apm/java/test/de/backson/apm/tests/DecimalIntTest.java:117-120 | `toString` of any integer is a valid base-10 literal whose value is that integer, so the string constructor reads `toString` output back to an equal number. |
| DecimalInts.DecimalInt.ReadBack | apm/java/test/de/backson/apm/tests/DecimalIntTest.java:117-120 | Rendering any valid number with `ToString` and parsing the text with `FromString` succeeds, and gives a canonical number of the same value. |
| DecimalInts.DecimalInt.Equals | apm/java/src/de/backson/apm/DecimalInt.java:154-171 | Two numbers are equal iff their values are equal. A negative zero equals zero. |
| DecimalInts.DecimalInt.GetPowerOfTen | apm/java/src/de/backson/apm/DecimalInt.java:174-183 | It fails iff the exponent is negative, which gives NegativeExponent, or is 0x7fffffff, where `exponent + 1` wraps and gives NegativeSize. Otherwise the result has value 10^e in e+1 digits. |
| Arith.Wrap32 | apm/java/src/de/backson/apm/DecimalInt.java:179 | Java 32-bit `int` addition: the result is an `int`, agrees with the true sum when that is an `int`, and differs from it by a multiple of 2^32. |
| DecimalInts.DecimalInt.Lte | apm/java/src/de/backson/apm/DecimalInt.java:185-187 | True iff lhs ≤ rhs as integers. |
| DecimalInts.DecimalInt.Lt | apm/java/src/de/backson/apm/DecimalInt.java:189-191 | True iff lhs < rhs. |
| DecimalInts.DecimalInt.Gte | apm/java/src/de/backson/apm/DecimalInt.java:193-195 | True iff lhs ≥ rhs. |
| DecimalInts.DecimalInt.Gt | apm/java/src/de/backson/apm/DecimalInt.java:197-199 | True iff lhs > rhs. |
| DecimalInts.DecimalInt.Eq | apm/java/src/de/backson/apm/DecimalInt.java:201-203 | True iff lhs = rhs. |
| DecimalInts.DecimalInt.Neq | apm/java/src/de/backson/apm/DecimalInt.java:205-207 | True iff lhs ≠ rhs. |
| DecimalInts.DecimalInt.Compare | apm/java/src/de/backson/apm/DecimalInt.java:209-228 | The sign of lhs − rhs, so negatives order by decreasing magnitude and a negative zero equals zero. |
| DecimalInts.DecimalInt.CompareMagnitudes | apm/java/src/de/backson/apm/DecimalInt.java:230-255 | The sign of \|lhs\| − \|rhs\|. |
| Digits.SizeDecides | apm/java/src/de/backson/apm/DecimalInt.java:233-236 | With no leading zeros, fewer digits means a smaller magnitude. |
| Digits.CompareFromSign | apm/java/src/de/backson/apm/DecimalInt.java:238-254 | Scanning equal-length digit strings from the top, the first differing digit decides, and no difference means equal: the scan returns the sign of the difference of the prefixes. |
| DecimalInts.DecimalInt.AddHelper | apm/java/src/de/backson/apm/DecimalInt.java:307-369 | The value is lhs + sign·rhs, and the result is canonical whenever lhs is. This covers both zero shortcuts. |
| DecimalInts.DecimalInt.AddNonZero | apm/java/src/de/backson/apm/DecimalInt.java:325-367 | For nonzero operands, the result is canonical with value lhs ± \|rhs\|. This covers equal signs, the larger magnitude first, and equal magnitudes with opposite signs giving a non-negative zero. |
| DecimalInts.DecimalInt.WordsResult | apm/java/src/de/backson/apm/DecimalInt.java:325-361 | A fresh valid number with the given sign, whose magnitude is the sum, or the difference of the larger and smaller magnitudes. |
| DecimalInts.SameSignSum | apm/java/src/de/backson/apm/DecimalInt.java:331-343 | For operands of equal sign, the sum has the sum of magnitudes and the sign of lhs. |
| DecimalInts.LargerFirstSum | apm/java/src/de/backson/apm/DecimalInt.java:344-361 | For opposite signs, the sum has the difference of magnitudes and the sign of the larger operand. |
| DecimalInts.DecimalInt.Add | apm/java/src/de/backson/apm/DecimalInt.java:372-374 | The value is lhs + rhs, canonical when lhs is; the operands are unchanged. |
| DecimalInts.DecimalInt.Subtract | apm/java/src/de/backson/apm/DecimalInt.java:377-379 | The value is lhs − rhs, canonical when lhs is; the operands are unchanged. |
| DecimalInts.DecimalInt.AddWords | apm/java/src/de/backson/apm/DecimalInt.java:286-303 | Into a distinct destination with capacity above both sizes: a valid result whose magnitude is the sum of the magnitudes. |
| DecimalInts.DecimalInt.AddColumnAt | apm/java/src/de/backson/apm/DecimalInt.java:290-301 | One addition column keeps the invariant that finished columns plus carry·10^i equal the two prefixes' sum, with the carry in 0..1. |
| DecimalInts.DecimalInt.SubtractWords | apm/java/src/de/backson/apm/DecimalInt.java:258-283 | With \|larger\| ≥ \|smaller\|: a valid result whose magnitude is their difference. |
| DecimalInts.DecimalInt.SubtractColumnAt | apm/java/src/de/backson/apm/DecimalInt.java:263-281 | One subtraction column keeps the invariant that finished columns plus borrow·10^i equal the prefixes' difference, with the borrow in -1..0. |
| DecimalInts.ColumnStep | apm/java/src/de/backson/apm/DecimalInt.java:263-281 | A column computed by the Java carry or borrow rule extends the column invariant. |
| DecimalInts.AddFinish | apm/java/src/de/backson/apm/DecimalInt.java:286-303 | With capacity above both sizes, the addition ends with carry 0, and the significant digits hold the sum. |
| DecimalInts.BorrowFinish | apm/java/src/de/backson/apm/DecimalInt.java:258-283 | With \|larger\| ≥ \|smaller\|, the subtraction ends with borrow 0, and the significant digits hold the difference. |
| DecimalInts.SumFits | apm/java/src/de/backson/apm/DecimalInt.java:325 | Two magnitudes shorter than the capacity `max(size)+1` have a sum below 10^capacity. |
| DecimalInts.DecimalInt.Multiply | apm/java/src/de/backson/apm/DecimalInt.java:382-409 | The value is lhs·rhs in `lhs.size + rhs.size` slots. The magnitude is the product of magnitudes and the flag is the exclusive or of the flags, so zero may come out negative. The size is 0 iff a factor is zero. |
| DecimalInts.DecimalInt.MultiplyMagnitudes | apm/java/src/de/backson/apm/DecimalInt.java:383-403 | The magnitude is the product of the operand magnitudes, with no negative flag, and size 0 iff a factor is zero. |
| DecimalInts.DecimalInt.MultiplyRows | apm/java/src/de/backson/apm/DecimalInt.java:387-403 | Adding every row of digit products into a zeroed buffer leaves the full partial product, with the digits above `size` zero. |
| DecimalInts.DecimalInt.MultiplyRow | apm/java/src/de/backson/apm/DecimalInt.java:388-402 | Row i adds a[i]·b·10^i to the partial product. |
| DecimalInts.DecimalInt.RippleCarry | apm/java/src/de/backson/apm/DecimalInt.java:390-401 | Rippling a carry c from position k adds c·10^k to the buffer, when that fits. The loop ends with no carry left and `size` one past the highest nonzero digit. |
| DecimalInts.DecimalInt.RippleDigit | apm/java/src/de/backson/apm/DecimalInt.java:394-400 | One ripple step (word `sum % 10`, carry `sum / 10`, size raised on a nonzero word) keeps the ripple invariant. |
| LongMultiplication.ProductFits | apm/java/src/de/backson/apm/DecimalInt.java:383-384 | The product of an m-digit and an n-digit magnitude is below 10^(m+n), so `lhs.size + rhs.size` slots suffice. |
| LongMultiplication.MulPartialRow | apm/java/src/de/backson/apm/DecimalInt.java:387-389 | Finishing row i's columns gives the partial product of the first i+1 rows. |
| LongMultiplication.MulPartialDone | apm/java/src/de/backson/apm/DecimalInt.java:387-403 | After all rows the partial product is Val(a)·Val(b). |
| LongMultiplication.RippleStep | apm/java/src/de/backson/apm/DecimalInt.java:394-400 | A ripple step with the Java carry rule extends the ripple invariant. |
| LongMultiplication.RippleFinish | apm/java/src/de/backson/apm/DecimalInt.java:390-401 | When the target fits the buffer, rippling ends with carry 0 and the buffer holding the target. |
| DecimalInts.ProductSign | apm/java/src/de/backson/apm/DecimalInt.java:406 | Magnitude product with the exclusive-or flag equals the signed product. |
| DecimalInts.ProductZero | apm/java/src/de/backson/apm/DecimalInt.java:382-409 | The trimmed product is empty iff a factor is empty. |
| DecimalInts.DecimalInt.Divide | apm/java/src/de/backson/apm/DecimalInt.java:413-479 | It fails iff the divisor is zero. Otherwise the quotient is Java's truncated `lhs / rhs` and is canonical, the remainder is Java's `lhs % rhs`, and the remainder is canonical when lhs is. |
| DecimalInts.SmallQuotient | apm/java/src/de/backson/apm/DecimalInt.java:419-421 | If \|lhs\| < \|rhs\|, the truncated quotient is 0 and the remainder is lhs, which is the shortcut's result. |
| DecimalInts.DecimalInt.DivideLarge | apm/java/src/de/backson/apm/DecimalInt.java:423-478 | For \|lhs\| ≥ \|rhs\| > 0: the quotient is canonical with value JavaDiv(lhs, rhs), and the remainder lhs − q·rhs is JavaRem(lhs, rhs). |
| DecimalInts.DecimalInt.Quotient | apm/java/src/de/backson/apm/DecimalInt.java:423-474 | The digit descent yields a canonical number of magnitude \|lhs\| div \|rhs\| with the exclusive or of the flags. |
| DecimalInts.QuotientRange | apm/java/src/de/backson/apm/DecimalInt.java:424-427 | For \|lhs\| ≥ \|rhs\| > 0, the quotient is at least 1 and below 10^(lhs.size − rhs.size + 1). So it has at most maxDigit = lhs.size − rhs.size + 1 digits, which is the upper estimate of the digit count that the descent starts from. |
| DecimalInts.DecimalInt.InitialGuess | apm/java/src/de/backson/apm/DecimalInt.java:425-430 | The start of the descent: a single 9 at position maxDigit−1 with zeros below. The descent invariant holds there: the quotient q satisfies q < guess + 10^(maxDigit−1), and the guess without its current digit (here 0) is at most q. The guess itself may lie above or below q. |
| DecimalInts.StartGuess | apm/java/src/de/backson/apm/DecimalInt.java:426-430 | A 9 at position digit above zeros has value 9·10^digit, and for every q < 10^(digit+1) it satisfies the descent invariant: q < 9·10^digit + 10^digit and the digits above `digit` contribute at most q. |
| DecimalInts.DecimalInt.CheckGuess | apm/java/src/de/backson/apm/DecimalInt.java:437-438 | The comparison of rhs·guess with \|lhs\| tells whether the guess is above, at or below the quotient. |
| DecimalInts.DivCompare | apm/java/src/de/backson/apm/DecimalInt.java:437-442 | d·m > l means m is above l div d; d·m < l means m is at most l div d; equality means m is l div d. |
| DecimalInts.DecimalInt.Search | apm/java/src/de/backson/apm/DecimalInt.java:442-474 | The descent loop terminates, and after it the guess is exactly the quotient. |
| DecimalInts.DecimalInt.QuotientStep | apm/java/src/de/backson/apm/DecimalInt.java:443-470 | One pass either finishes at the quotient or keeps the descent invariant. It strictly lowers the measure 10·digit + data[digit]. |
| DecimalInts.DecimalInt.LowerDigit | apm/java/src/de/backson/apm/DecimalInt.java:446-448 | Decrementing the current digit of a guess above the quotient keeps the descent invariant (q < guess + 10^digit), or, when the digit reaches zero, leaves the digits above it settled on the quotient's. |
| DecimalInts.DecimalInt.DropTopZero | apm/java/src/de/backson/apm/DecimalInt.java:455-456 | A top digit that became zero is dropped from the size. |
| DecimalInts.DecimalInt.NextDigit | apm/java/src/de/backson/apm/DecimalInt.java:457-468 | Moving one position down and setting that digit to nine starts the next descent step. |
| DecimalInts.LowerStep | apm/java/src/de/backson/apm/DecimalInt.java:446 | The sequence-level fact behind LowerDigit. |
| DecimalInts.NextStep | apm/java/src/de/backson/apm/DecimalInt.java:457-468 | The sequence-level fact behind NextDigit. |
| DecimalInts.SettledDone | apm/java/src/de/backson/apm/DecimalInt.java:448-451 | When every position is settled, the guess is valid and equals the quotient. |
| DecimalInts.QuotientValue | apm/java/src/de/backson/apm/DecimalInt.java:433 | The quotient magnitude with the exclusive-or flag has the value of Java's truncated division. |
| DecimalInts.RemainderValue | apm/java/src/de/backson/apm/DecimalInt.java:476-477 | lhs − rhs·(lhs / rhs) is Java's `lhs % rhs`. |
| Arith.JavaDivRem | apm/java/src/de/backson/apm/DecimalInt.java:413-479 | Truncating division: a = b·(a/b) + a%b. \|a%b\| < \|b\|, the remainder is zero or has the dividend's sign, and \|a/b\| = \|a\| div \|b\|. |
| Arith.JavaDivRemTen | apm/java/src/de/backson/apm/DecimalInt.java:76-77 | `Math.abs(v % 10)` is the last decimal digit of \|v\|, and `v / 10` drops it while keeping the sign. |
| DecimalInts.DecimalInt.Factorial | apm/java/src/de/backson/apm/DecimalInt.java:482-488 | The result is canonical with value n! for n ≥ 0, and 1 for n < 0. |
| DecimalInts.FactorialStep | apm/java/src/de/backson/apm/DecimalInt.java:485 | Multiplying (i−1)! by i gives i!. |
| DecimalInts.DecimalInt.Combinations | apm/java/src/de/backson/apm/DecimalInt.java:491-507 | The result is canonical with value C(n, k) for 0 ≤ k ≤ n, and 1 otherwise. |
| DecimalInts.DecimalInt.CombinationsPass | apm/java/src/de/backson/apm/DecimalInt.java:500-504 | Multiplying C(n−k+i−1, i−1) by n−k+i and dividing by i gives C(n−k+i, i). |
| DecimalInts.CombinationsStep | apm/java/src/de/backson/apm/DecimalInt.java:500-504 | The truncating division in each pass is exact, and the pass moves one step along the binomial row. |
| DecimalInts.CombinationsDone | apm/java/src/de/backson/apm/DecimalInt.java:493-506 | After the symmetry step k' = n−k when 2k > n, the loop's result C(n, k') when k' ≥ 1 (else 1) is C(n, k) for 0 ≤ k ≤ n, and 1 otherwise. |
| Arith.ChooseSymmetric | apm/java/src/de/backson/apm/DecimalInt.java:493-494 | C(n, k) = C(n, n−k). |
| Arith.ChooseAbsorption | apm/java/src/de/backson/apm/DecimalInt.java:499-504 | (k+1)·C(n+1, k+1) = (n+1)·C(n, k), which makes each division exact. |
| Parser.DecimalIntParser.constructor | apm/java/src/de/backson/apm/DecimalIntParser.java:13-15 | A parser over s starts in START at index 0, with sign +1, base 10 and no digits. |
| Parser.DecimalIntParser.ParseString | apm/java/src/de/backson/apm/DecimalIntParser.java:29-32 | Parsing a new string succeeds iff it is a valid literal, whatever the previous parse left. On success sign, base and digits are the literal's, and the machine ends in ZERO, ZEROS or DIGITS. |
| Parser.DecimalIntParser.Parse | apm/java/src/de/backson/apm/DecimalIntParser.java:42-84 | After resetting the fields, the machine runs to the end of the string and terminates. It succeeds iff the string is a valid literal, and then holds its sign, its base and its digits with leading zeros dropped. |
| Parser.DecimalIntParser.Accept | apm/java/src/de/backson/apm/DecimalIntParser.java:76-83 | At the end of the input: accept iff the state is ZERO, ZEROS or DIGITS, which is exactly when the string is a valid literal. The fields then match the literal. |
| Parser.DecimalIntParser.StateStart | apm/java/src/de/backson/apm/DecimalIntParser.java:86-111 | From START, a sign goes to SIGN, a '0' to ZERO, and anything else to DIGITS without consuming. The state stays consistent with the literal's prefix and the measure decreases. |
| Parser.DecimalIntParser.StateSign | apm/java/src/de/backson/apm/DecimalIntParser.java:113-126 | From SIGN, a '0' is consumed into ZERO, and anything else goes to DIGITS. The state stays consistent and the measure decreases. |
| Parser.DecimalIntParser.StateZero | apm/java/src/de/backson/apm/DecimalIntParser.java:128-153 | From ZERO, 'b'/'B' selects base 2 and 'x'/'X' base 16 (into BASE), another '0' goes to ZEROS, and anything else to DIGITS. The state stays consistent and the measure decreases. |
| Parser.DecimalIntParser.StateBase | apm/java/src/de/backson/apm/DecimalIntParser.java:155-157 | From BASE, go to ZEROS. The state stays consistent and the measure decreases. |
| Parser.DecimalIntParser.StateZeros | apm/java/src/de/backson/apm/DecimalIntParser.java:159-170 | From ZEROS, leading zeros are skipped and anything else goes to DIGITS. The state stays consistent and the measure decreases. |
| Parser.DecimalIntParser.StateDigits | apm/java/src/de/backson/apm/DecimalIntParser.java:172-208 | In DIGITS, a digit of the base, in either letter case, is appended and consumed. Any other character is rejected, and then the string is not a valid literal. |
| Parser.DigitAccepted | apm/java/src/de/backson/apm/DecimalIntParser.java:205-207 | Appending a digit of the base advances the DIGITS invariant: digits appear in string order, most significant first. |
| Parser.DigitRejected | apm/java/src/de/backson/apm/DecimalIntParser.java:201-203 | A character that is not a digit of the base, reached in DIGITS, makes the string invalid. |
| Literals.DigitsWithinBase | apm/java/src/de/backson/apm/DecimalIntParser.java:172-203 | Every digit of a valid literal is in [0, base). |
| Literals.NoLeadingZero | apm/java/src/de/backson/apm/DecimalIntParser.java:159-170 | The digit list of a valid literal is empty or starts with a nonzero digit. |
| LiteralExamples.NoBody | apm/java/test/de/backson/apm/tests/DecimalIntTest.java:132-138 | "", "+", "-", "0x", "0X", "0b" and "0B" are rejected. |
| LiteralExamples.BadDigit | apm/java/test/de/backson/apm/tests/DecimalIntTest.java:139-143 | "0-", "F", "0f" and "xf" are rejected. |
| LiteralExamples.DoublePrefix | apm/java/test/de/backson/apm/tests/DecimalIntTest.java:141 | "0xxf" is rejected. |
| LiteralExamples.NotADigit | apm/java/src/de/backson/apm/DecimalIntParser.java:201-203 | A body character that is not a digit of the base makes a literal invalid. |
| LiteralExamples.ReadLiteral | apm/java/src/de/backson/apm/DecimalIntParser.java:159-208 | A body of leading zeros followed by digits of the base is a valid literal. Its value is the sign times those digits. |
| LiteralExamples.ZeroBody | apm/java/src/de/backson/apm/DecimalInt.java:53-58 | A signed or unsigned run of zeros is a valid literal of value 0. |
| LiteralExamples.Zeros | apm/java/test/de/backson/apm/tests/DecimalIntTest.java:92-95 | "0", "0000", "+0" and "-0" are valid and denote 0. |
| LiteralExamples.Decimal | apm/java/test/de/backson/apm/tests/DecimalIntTest.java:98 | "0099" denotes 99. |
| LiteralExamples.HexadecimalZeros | apm/java/test/de/backson/apm/tests/DecimalIntTest.java:109 | "0x00FF" denotes 255. |
| LiteralExamples.HexadecimalCase | apm/java/test/de/backson/apm/tests/DecimalIntTest.java:108 | "0XFf" denotes 255. |
| LiteralExamples.NegativeHexadecimal | apm/java/test/de/backson/apm/tests/DecimalIntTest.java:104 | "-0x10" denotes -16. |
| LiteralExamples.Binary | apm/java/test/de/backson/apm/tests/DecimalIntTest.java:113 | "0b0000101010" denotes 42. |

## Left out

- `getSize` and `isNegative` (DecimalInt.java:106-113) are plain accessors; the model reads the
  `size` and `negative` fields directly.
- `equals(Object)`'s identity and `instanceof` tests are not modelled. `Equals` takes a `DecimalInt`
  and compares values.
- Java's `null` array for zero: the model uses an empty array instead. As a result, the
  null-array exception that `copy` raises on such a zero (through `Arrays.copyOf` on `null`) is
  not reproduced; `Copy` returns a zero instead.
- Grow: takes a natural number. `grow`'s "Negative size" exception is modelled where it can be
  reached, through GetPowerOfTen's wrapped `exponent + 1`.
- The allocation mechanics of `Arrays.copyOf` are not modelled. `Grow` and `Shrink` allocate a
  new zero-filled array and copy into it.
- Parser.DecimalIntParser.constructor: does not parse. The Java constructor
  (DecimalIntParser.java:13-15) calls `parse(s)` and throws on a malformed literal. Here the
  constructor only stores `s` with the fields in their start state, and parsing is the
  separate `Parse` call, which `FromString` makes right after construction.
- FromString: the string constructor is a static method returning a `Result`,
  because a Dafny constructor cannot fail. The parse is an explicit `Parse` call after
  constructing the parser, where Java parses inside the parser's constructor.
- Exception classes and message texts are not modelled; the `Error` constructor identifies the
  failure.
- The parser's "Illegal internal state" exception (DecimalIntParser.java:71-72) cannot be
  reached, because every state has a handler, so it is not modelled.
- Factorial: requires `n < 0x7fffffff`. With `n = Integer.MAX_VALUE` the Java loop counter
  overflows and the loop does not end.
- Combinations: requires `-2^30 <= k < 2^30` and `-2^30 <= n`, so that `2*k` and `n-k+i` do not
  overflow `int`. Overflowing inputs are not modelled.
- Divide: each guess's remainder inside the descent loop is computed and discarded, as in
  the Java (`CheckGuess`). No contract speaks about those values; only the remainder computed
  after the descent is returned and specified.
- The split of `addHelper`, `multiply`, `divide` and the string constructor into several
  methods (`AddNonZero`, `WordsResult`, `MultiplyRows`, `Quotient`, `Search`, `QuotientStep`,
  ...) follows the Java code's own blocks. The arithmetic on each is the Java arithmetic.
- FromLiteral: does not model the overflow of `size*2` (DecimalInt.java:37) in `int`. A
  base-2 or base-16 literal with 2^30 or more significant digits makes Java allocate a
  negative-size array and throw; the model succeeds. Literals of that length are not modelled.
- AddNonZero: does not model the overflow of `Math.max(lhs.getSize(), rhs.getSize()) + 1`
  (DecimalInt.java:325) in `int`. Operands with 2^31 − 1 digits are not modelled.
- MultiplyMagnitudes: does not model the overflow of `lhs.getSize() + rhs.getSize()`
  (DecimalInt.java:383) in `int`. Operands whose sizes sum to 2^31 or more are not modelled.
- Java `byte` and `int` widths: digits are 0..9 by type, and intermediate sums stay at most
  9·16 + carry. Neither overflows, so no wrap-around is modelled there.
- `Test.java` (the interactive driver) and the JUnit test class are not part of this model. The test
  suite's literal examples are restated as lemmas in `LiteralExamples`.
