# Exact decimal addition on text

A model of `main.cpp`, a calculator that adds two decimal numbers given as
text (such as `-12.50` and `3.7`) exactly, digit by digit, with no floating
point anywhere. The model covers six functions:

- `isValidDouble`: the grammar check on the input tokens.
- `addIntegerStrings`: carry addition of two unsigned digit strings.
- `subtractIntegerStrings`: borrow subtraction of two unsigned digit strings.
- `stripSign`: removes one leading sign.
- `compareAbs`: numeric comparison of two magnitudes.
- `addStrings`: brings both operands to the same number of fraction digits,
  adds or subtracts them, and writes the result in canonical form.

It also covers the check `processFile` makes before it asks for a sum.

Each C++ function is a Dafny method with the same loops over `string`
(`seq<char>`) buffers. Each method is proved against pure specification
functions:

- `Digits.Val` is the number a digit string denotes.
- `Literal.ValueAt(s, k)` is the signed value of a literal times 10^k.
- `Literal.Value` is its exact rational value.
- `Literal.Canonical` is the canonical text of a number: no `+`, no
  superfluous leading zeros, no trailing fraction zeros, no lone point and no
  `-0`.
- `DigitArith.Add` and `DigitArith.Sub` are the digit sequences the carry and
  borrow loops produce, read from the front.

Modules, leaf to root:

| file | module | contents |
|---|---|---|
| `digits.dfy` | `Digits` | digit strings, `Val`, and the library operations the source uses: `std::reverse`, `std::remove`, `find`, `find_first_not_of` and string `<` |
| `literal.dfy` | `Literal` | the literal grammar, `isValidDouble`, `stripSign`, values, and the uniqueness of the canonical form |
| `compare.dfy` | `Magnitude` | fraction padding and `compareAbs` |
| `digit_arith.dfy` | `DigitArith` | `addIntegerStrings` and `subtractIntegerStrings` |
| `adder.dfy` | `Adder` | `addStrings`, its phases, the algebra of the sum, and the validation gate |

`addStrings` is a single C++ function. The model splits it into methods, one
per block of source lines, so that each block carries its own contract:

| method | lines | block |
|---|---|---|
| `AlignOperands` | 129-147 | signs, fraction padding and dot removal |
| `SignedSum` | 149-169 | the add or compare-and-subtract dispatch |
| `WriteResult` | 171-188 | point insertion, zero trimming and the sign |

`WriteResult` itself calls `PlacePoint`, `TrimLeadingZeros` and
`TrimFraction`.

Three behaviours of `main.cpp` worth knowing:

- `addIntegerStrings` keeps leading zeros of its operands: `"007"` plus
  `"1"` is `"008"`. The length postcondition of `AddIntegerStrings` says so.
- `isValidDouble` accepts `"0"` and `"-0"`.
- An invalid pair is reported without saying which token failed.

## Model

| member | source | states |
|---|---|---|
| Literal.IsValidDouble | main.cpp:10-33 | the result is true exactly when the text is a valid literal: non-empty, an optional sign, digits with at most one point, a digit before the point and a digit after it if there is a point |
| Literal.ValidLiteralIff | main.cpp:10-33 | the grammar is equivalent to the five conditions taken one by one: non-empty, only digits and points after the sign, at most one point, some digit before the first point (or anywhere, when there is none), and a digit right after each point |
| Literal.ValidLiteralSound | main.cpp:17-31 | a valid literal meets each of those conditions |
| Literal.ValidLiteralComplete | main.cpp:17-31 | a text meeting each of those conditions is a valid literal |
| Literal.ScanStart | main.cpp:13-15 | before the loop, the empty prefix has been read with all three flags false |
| Literal.ScanDigit | main.cpp:19-21 | a digit extends the prefix read and sets `hasDigitsBefore` or `hasDigitsAfter` depending on `hasDot` |
| Literal.ScanPoint | main.cpp:22-24 | a second point means the text is no magnitude, so false is right; a first point sets `hasDot` |
| Literal.ScanOther | main.cpp:25-27 | any other character means the text is no magnitude |
| Literal.ScanDone | main.cpp:30-32 | after the whole text, it is valid exactly when `hasDigitsBefore` holds and not (`hasDot` without `hasDigitsAfter`) |
| Literal.StripSign | main.cpp:80-89 | '-' is dropped and reported negative; '+' is dropped and reported positive; anything else, including the empty text, is returned unchanged and positive; on a valid literal the rest is a valid magnitude and the sign times its value is the literal's value |
| Literal.CanonicalUnique | main.cpp:171-188 | two canonical literals with the same value at a common scale are the same text |
| Literal.CanonicalZero | main.cpp:188 | the only canonical literal whose digits denote zero is "0" |
| Literal.ValueFromScaled | main.cpp:136-147 | the exact value of a literal is its value at any scale k, at least its fraction length, divided by 10^k |
| Literal.ValueAtProduct | main.cpp:142-143 | the value at scale k is the signed digits times 10^(k - fraction length) |
| Literal.MagValSplit | main.cpp:146-147 | the digits with the point removed denote integer part times 10^fraction length plus fraction |
| Magnitude.PadFraction | main.cpp:105-108 | a point is added if missing and zeros are appended until there are maxDec fraction digits; without its point the text denotes the magnitude times 10^maxDec |
| Magnitude.PaddedValue | main.cpp:110-112 | a magnitude padded to k fraction digits, with its point removed, denotes the magnitude at scale k |
| Magnitude.Normalized | main.cpp:115-118 | stripping leading zeros and replacing an empty text by "0" gives digits without superfluous zeros and the same value |
| Magnitude.OrderOfNormalized | main.cpp:120-122 | on digit strings without superfluous zeros, longer-is-larger then string order is exactly numeric order |
| Magnitude.CompareAbs | main.cpp:94-123 | the result is 1, 0 or -1 as the first magnitude is larger than, equal to or smaller than the second, both read at the larger fraction length; so it ignores leading and trailing fraction zeros and swapping the operands negates it |
| Digits.LexLessIsValLess | main.cpp:122 | on digit strings of equal length, string order `<` is numeric order, in both directions |
| Digits.LengthOrdersValue | main.cpp:120 | without superfluous zeros, a shorter digit string denotes a smaller number |
| Digits.StripLeadingZerosValue | main.cpp:115-116 | erasing leading zeros keeps a digit string and its value |
| Digits.RemoveDotsConcat | main.cpp:111-112 | removing dots from a concatenation removes them from each part |
| Digits.ValConcat | main.cpp:142-143 | digits x followed by y denote x times 10^|y| plus y |
| DigitArith.AddIntegerStrings | main.cpp:38-52 | the result is the sequence `Add` describes, all digits; its value is the sum of the operands' values; its length is the longer operand's length, plus one exactly when the sum reaches 10 to that length, and then the first digit is '1' |
| DigitArith.AddLoopStep | main.cpp:44-48 | one turn of the loop keeps the invariant: the digits still to come, then the reversed buffer, are the whole sum |
| DigitArith.AddLoopDone | main.cpp:43-50 | when both indices are exhausted and the carry is 0, the reversed buffer is the whole sum |
| DigitArith.AddVal | main.cpp:43-49 | the digits the loop produces from the first na and nb digits and carry c denote those two prefixes plus c |
| DigitArith.AddLength | main.cpp:43-49 | with a carry of at most 1, that output has the longer prefix's length or one more, and the extra digit is '1' |
| DigitArith.AddSpec | main.cpp:38-52 | the whole sum denotes the sum of the values, with the length and leading-'1' facts of `AddIntegerStrings` |
| DigitArith.BorrowOut | main.cpp:63-67 | the borrow out of one column is at most 1, and the digit pushed, plus the subtrahend digit and the borrow in, equals the minuend digit plus 10 times the borrow out |
| DigitArith.SubtractIntegerStrings | main.cpp:57-75 | for a minuend not below the subtrahend, the result is all digits and denotes the difference; it is no longer than the minuend; it has no superfluous leading zeros when the minuend is non-empty, and is empty when the minuend is empty |
| DigitArith.SubLoopStep | main.cpp:63-69 | one turn of the borrow loop keeps the invariant: the digits still to come, then the reversed buffer, are the whole difference, and the final borrow is unchanged |
| DigitArith.SubLoopDone | main.cpp:62-70 | when the minuend is exhausted, the reversed buffer is all digits and denotes the difference; it is no longer than the minuend, and empty exactly when the minuend is |
| DigitArith.SubVal | main.cpp:62-70 | the digits from the first na minuend digits, the subtrahend digits level with them and borrow bw, plus those subtrahend digits and bw, equal the minuend prefix plus 10^na if a borrow is left |
| DigitArith.HighDigitsZero | main.cpp:63 | subtrahend digits beyond the minuend's length are zeros when the subtrahend is below 10 to that length, so ignoring them loses nothing |
| DigitArith.SubSpec | main.cpp:57-70 | a minuend no smaller than the subtrahend leaves no final borrow, and the difference digits denote the difference |
| DigitArith.PopStep | main.cpp:71-72 | popping a trailing '0' of the buffer while more than one digit is left keeps the value of the reversed buffer |
| DigitArith.PopDone | main.cpp:71-73 | when the popping stops, the reversed buffer has no superfluous leading zeros |
| Adder.AddStrings | main.cpp:128-190 | on two valid literals, the result is canonical; it has no more fraction digits than the operands; at that scale its value is the sum of theirs; and its exact value is the sum of their values |
| Adder.AlignOperands | main.cpp:129-147 | the scale is the larger fraction length; each operand becomes its sign flag, which is set exactly when the operand begins with '-' (so "-0" counts as negative), and a non-empty digit string whose signed value is the operand's value at that scale |
| Adder.SplitOperand | main.cpp:130-137 | `stripSign` leaves the unsigned part and the sign, and the point search yields the number of fraction digits |
| Adder.ScaledDigits | main.cpp:140-147 | padding one operand to k fraction digits and removing its point gives a non-empty digit string denoting its magnitude at scale k |
| Adder.SignedSum | main.cpp:149-169 | the signed result equals the signed sum of the two signed magnitudes, whichever of add, "0" or subtract is taken; the result is a non-empty digit string |
| Adder.PlacePoint | main.cpp:171-176 | the text is a valid magnitude with exactly maxDec fraction digits whose digits denote the input digits |
| Adder.TrimLeadingZeros | main.cpp:178-180 | the integer part loses its superfluous zeros and keeps its value; the fraction and the denoted number are unchanged |
| Adder.TrimStep | main.cpp:179-180 | the erased character is a superfluous leading zero of the integer part |
| Adder.TrimFraction | main.cpp:182-186 | the integer part is unchanged; the fraction no longer ends in '0' and is no longer; at the old scale the number is the same |
| Adder.PopZero | main.cpp:184 | the popped '0' is the last fraction digit, and the fraction is still the shorter one followed by zeros |
| Adder.FractionValue | main.cpp:184-185 | dropping trailing fraction zeros, and the point with the last of them, keeps the number at the old scale |
| Adder.ZeroText | main.cpp:188 | a valid magnitude without superfluous zeros at either end denotes zero only as "0" |
| Adder.SignedResult | main.cpp:188 | putting '-' in front of a negative result other than "0" gives a canonical literal whose value at scale k is the signed magnitude |
| Adder.WriteResult | main.cpp:171-188 | the written result is canonical, has at most maxDec fraction digits, and at scale maxDec denotes the signed digits |
| Adder.SumValue | main.cpp:128-190 | a sum exact at the common scale is exact as rational numbers too |
| Adder.SumUnique | main.cpp:128-190 | the canonical sum is determined by the operands |
| Adder.SumCommutes | main.cpp:152-155 | swapping the operands gives the same text |
| Adder.SumIdentity | main.cpp:152-168 | adding a literal of value zero to a canonical literal returns it unchanged |
| Adder.SumInverse | main.cpp:156-161 | operands of opposite values add up to exactly "0", never "-0" |
| Adder.ZeroValue | main.cpp:188 | the only canonical literal of value zero is "0" |
| Adder.ProcessPair | main.cpp:205-209 | a pair is reported invalid exactly when either token fails `isValidDouble`; otherwise the sum is reported |

## Left out

- `processFile` is not modelled beyond its validation gate: opening the
  file, reading tokens with `>>` and printing to `cout`/`cerr` are I/O.
  `ProcessPair` models one pair with its two outcomes.
- `main` is not modelled: it prompts on the console and reads a file name.
- `isdigit` is modelled as the ASCII test `'0' <= c <= '9'`. The locale
  behaviour of the C library is not modelled.
- Adder.AddStrings: requires both operands to be valid literals. That is the
  only way `processFile` calls it. Its behaviour on other text is not
  modelled. An empty operand is read as zero digits, so `addStrings("", "")`
  returns the empty text, which is no literal. A character other than a digit
  or a point would enter the column arithmetic as `c - '0'`.
- DigitArith.AddIntegerStrings and DigitArith.SubtractIntegerStrings require
  all-digit operands. Their only caller passes padded magnitudes with the
  point removed. `Digits.DigitVal` maps any other character to 0, where C++
  would take `c - '0'`.
- The C++ integer widths are not modelled. `int` indices, `size_t` sizes and
  the `int` casts of fraction counts are unbounded integers. The source
  overflows them only for strings longer than 2^31 characters.
- The in-place `insert`, `erase` and `pop_back` on one buffer are modelled
  as building new sequences. The values are the same.
