/**
 * `addStrings`: the exact sum of two decimal literals, computed on their
 * digits and written in canonical form, and the check `processFile` makes
 * before it asks for a sum.
 *
 * The operands are brought to the same number of fraction digits and read
 * as natural numbers (their values times 10^maxDec); equal signs add those
 * numbers, different signs subtract the smaller from the larger; the digits
 * of the result get their point back, lose superfluous zeros at both ends,
 * and get a '-' unless they are zero.
 */
module Adder {
  import opened Digits
  import opened Literal
  import opened Magnitude
  import opened DigitArith

  /** The scale both operands are brought to: the larger number of fraction digits. */
  function SumScale(a: string, b: string): nat {
    Max(Scale(a), Scale(b))
  }

  /**
   * r is the sum of the literals a and b, in canonical form: at the common
   * scale its value is the sum of theirs, and it needs no more fraction
   * digits than they have.
   */
  predicate IsSum(a: string, b: string, r: string) {
    && ValidLiteral(a) && ValidLiteral(b) && Canonical(r)
    && Scale(r) <= SumScale(a, b)
    && ValueAt(r, SumScale(a, b)) == ValueAt(a, SumScale(a, b)) + ValueAt(b, SumScale(a, b))
  }

  // ---------------------------------------------------------------------
  // Unsigned texts built from integer and fraction digits
  // ---------------------------------------------------------------------

  /** Integer digits i, then a point and the fraction digits f when there are any. */
  function Join(i: string, f: string): string {
    if f == [] then i else i + ['.'] + f
  }

  lemma JoinParts(i: string, f: string)
    requires AllDigits(i) && AllDigits(f) && |i| > 0
    ensures var t := Join(i, f);
      && IntPart(t) == i && FracPart(t) == f && ValidUnsigned(t)
      && HasDot(t) == (f != []) && MagDigits(t) == i + f
  {
    if f == [] {
      PartsOfDigits(i);
      assert i + f == i;
    } else {
      PartsOfPointed(i, f);
    }
  }

  /** A valid unsigned text is the `Join` of its parts. */
  lemma JoinShape(t: string)
    requires ValidUnsigned(t)
    ensures t == Join(IntPart(t), FracPart(t))
  {
    UnsignedShape(t);
    if FracPart(t) == [] {
      assert t == IntPart(t) + [];
    }
  }

  /** With its point removed, a padded magnitude keeps all its digits. */
  lemma PaddedLength(s: string, t: string, n: nat)
    requires Padded(s, t, n)
    ensures |RemoveDots(t)| == |IntPart(s)| + FracLen(s) + n
  {
    ValZeros(n);
    PartsOfPointed(IntPart(s), FracPart(s) + Zeros(n));
  }

  // ---------------------------------------------------------------------
  // Lines 149-169: the signed sum of the scaled magnitudes
  // ---------------------------------------------------------------------

  /**
   * Equal signs add the magnitudes and keep the sign; different signs
   * compare them, give "0" when they are equal, and otherwise subtract the
   * smaller from the larger and take the sign of the larger.
   */
  method SignedSum(A: string, B: string, negA: bool, negB: bool) returns (result: string, resultNegative: bool)
    requires AllDigits(A) && AllDigits(B) && |A| > 0 && |B| > 0
    ensures AllDigits(result) && |result| > 0
    ensures Signed(resultNegative, Val(result)) == Signed(negA, Val(A)) + Signed(negB, Val(B))
  {
    if negA == negB {
      result := AddIntegerStrings(A, B);
      resultNegative := negA;
    } else {
      PartsOfDigits(A);
      PartsOfDigits(B);
      var cmp := CompareAbs(A, B);
      if cmp == 0 {
        result := "0";
        resultNegative := false;
        assert Val(result) == 10 * Val([]) + DigitVal('0');
      } else if cmp > 0 {
        result := SubtractIntegerStrings(A, B);
        resultNegative := negA;
      } else {
        result := SubtractIntegerStrings(B, A);
        resultNegative := negB;
      }
    }
  }

  // ---------------------------------------------------------------------
  // Lines 171-176: the decimal point goes back in
  // ---------------------------------------------------------------------

  /**
   * When there are fraction digits, the digits are widened with leading
   * zeros to more than k digits and a point is put before the last k: the
   * text denotes the digits read as a number divided by 10^k.
   */
  method PlacePoint(d: string, k: nat) returns (s: string)
    requires AllDigits(d) && |d| > 0
    ensures ValidUnsigned(s) && FracLen(s) == k && MagVal(s) == Val(d)
  {
    s := d;
    if k > 0 {
      if |s| <= k {
        ValLeadingZeros(k - |s| + 1, s);
        ValZeros(k - |s| + 1);
        s := Zeros(k - |s| + 1) + s;
      }
      ghost var i, f := s[..|s| - k], s[|s| - k..];
      assert s == i + f;
      s := s[..|s| - k] + ['.'] + s[|s| - k..];
      JoinParts(i, f);
    } else {
      JoinParts(s, []);
      assert Join(s, []) == s + [] == s;
    }
  }

  // ---------------------------------------------------------------------
  // Lines 178-180: leading zeros of the integer part
  // ---------------------------------------------------------------------

  /**
   * Leading '0's are erased while another digit of the integer part follows:
   * the integer part ends up without superfluous zeros, with the same value,
   * and the fraction is untouched.
   */
  method TrimLeadingZeros(s: string) returns (t: string)
    requires ValidUnsigned(s)
    ensures ValidUnsigned(t) && NoLeadingZeros(IntPart(t))
    ensures FracPart(t) == FracPart(s) && Val(IntPart(t)) == Val(IntPart(s))
    ensures MagVal(t) == MagVal(s)
  {
    ghost var f := FracPart(s);
    ghost var i := IntPart(s);
    JoinShape(s);
    t := s;
    while |t| > 1 && t[0] == '0' && t[1] != '.'
      invariant AllDigits(i) && |i| > 0 && t == Join(i, f) && Val(i) == Val(IntPart(s))
      decreases |t|
    {
      TrimStep(i, f);
      t, i := t[1..], i[1..];
    }
    JoinParts(i, f);
    ValConcat(i, f);
    ValConcat(IntPart(s), f);
  }

  /** One pass of that loop: the erased character is a superfluous zero of the integer part. */
  lemma TrimStep(i: string, f: string)
    requires AllDigits(i) && |i| > 0
    requires var t := Join(i, f); |t| > 1 && t[0] == '0' && t[1] != '.'
    ensures |i| > 1 && Join(i, f)[1..] == Join(i[1..], f) && Val(i[1..]) == Val(i)
  {
    if f != [] {
      var t := i + ['.'] + f;
      assert t[1] == if |i| > 1 then i[1] else '.';
      assert t[1..] == i[1..] + ['.'] + f;
    }
    DropZero(i);
  }

  /** A leading '0' adds nothing to the value. */
  lemma DropZero(i: string)
    requires |i| > 0 && i[0] == '0'
    ensures Val(i[1..]) == Val(i)
  {
    var c, t := i[0], i[1..];
    assert i == [c] + t;
    ValCons(c, t);
    assert DigitVal(c) * Pow10(|t|) == 0;
  }

  // ---------------------------------------------------------------------
  // Lines 182-186: trailing zeros of the fraction
  // ---------------------------------------------------------------------

  /**
   * If the text has a point, trailing '0's are popped, then the point
   * itself when no fraction digit is left: the integer part is untouched,
   * the fraction no longer ends in '0', and the number is the same.
   */
  method TrimFraction(s: string) returns (t: string)
    requires ValidUnsigned(s)
    ensures ValidUnsigned(t) && IntPart(t) == IntPart(s)
    ensures FracLen(t) <= FracLen(s) && NoTrailingZeros(FracPart(t))
    ensures MagAt(t, FracLen(s)) == MagVal(s)
  {
    ghost var i, f := IntPart(s), FracPart(s);
    JoinShape(s);
    JoinParts(i, f);
    t := s;
    if IndexOf(t, '.') < |t| {
      ghost var g := f;
      assert f == g + Zeros(0);
      while t[|t| - 1] == '0'
        invariant AllDigits(g) && |g| <= |f| && t == i + ['.'] + g && f == g + Zeros(|f| - |g|)
        decreases |t|
      {
        PopZero(i, g, f);
        t, g := t[..|t| - 1], g[..|g| - 1];
      }
      assert t[|t| - 1] == if g == [] then '.' else g[|g| - 1];
      if t[|t| - 1] == '.' {
        t := t[..|t| - 1];
      }
      assert t == Join(i, g) && NoTrailingZeros(g);
      FractionValue(i, g, f);
    } else {
      assert f == [] && t == Join(i, f);
      FractionValue(i, f, f);
    }
  }

  /** One pass of that loop: the popped '0' is the last fraction digit. */
  lemma PopZero(i: string, g: string, f: string)
    requires AllDigits(g) && |g| <= |f| && f == g + Zeros(|f| - |g|)
    requires var t := i + ['.'] + g; t[|t| - 1] == '0'
    ensures g != [] && (i + ['.'] + g)[..|i| + |g|] == i + ['.'] + g[..|g| - 1]
    ensures f == g[..|g| - 1] + Zeros(|f| - |g| + 1)
  {
    var t := i + ['.'] + g;
    assert t[|t| - 1] == if g == [] then '.' else g[|g| - 1];
    assert g == g[..|g| - 1] + ['0'];
    assert Zeros(1) + Zeros(|f| - |g|) == Zeros(|f| - |g| + 1);
  }

  /** Dropping trailing zeros keeps the number: the text with fraction g denotes the one with fraction f. */
  lemma FractionValue(i: string, g: string, f: string)
    requires AllDigits(i) && AllDigits(g) && |i| > 0 && |g| <= |f| && f == g + Zeros(|f| - |g|)
    ensures var t, s := Join(i, g), Join(i, f);
      && ValidUnsigned(t) && IntPart(t) == i && FracPart(t) == g && FracLen(t) <= FracLen(s)
      && ValidUnsigned(s) && MagAt(t, FracLen(s)) == MagVal(s)
  {
    var t := Join(i, g);
    ValZeros(|f| - |g|);
    JoinParts(i, g);
    JoinParts(i, f);
    MagAtProduct(t, |f|);
    AppendedZeros(i, g, |f| - |g|);
  }

  /** Zeros appended to the fraction multiply the digits by a power of ten. */
  lemma AppendedZeros(i: string, g: string, m: nat)
    ensures Val(i + (g + Zeros(m))) == Val(i + g) * Pow10(m)
  {
    assert i + (g + Zeros(m)) == (i + g) + Zeros(m);
    ValTrailingZeros(i + g, m);
  }

  // ---------------------------------------------------------------------
  // Line 188: the sign
  // ---------------------------------------------------------------------

  /** Digits without superfluous zeros at either end denote zero only as "0". */
  lemma ZeroText(s: string)
    requires ValidUnsigned(s) && NoLeadingZeros(IntPart(s)) && NoTrailingZeros(FracPart(s))
    requires MagVal(s) == 0
    ensures s == "0"
  {
    var i, f := IntPart(s), FracPart(s);
    ValConcat(i, f);
    assert Val(i) == 0 && Val(f) == 0;
    assert Val("0") == 10 * Val([]) + DigitVal('0');
    NoLeadingZerosUnique(i, "0");
    ValZeroIff(f);
    JoinShape(s);
  }

  /**
   * `if (resultNegative && result != "0") result = "-" + result`: the
   * trimmed digits with the sign in front is a canonical literal whose
   * value at scale k is the signed magnitude.
   */
  lemma SignedResult(s: string, neg: bool, k: nat, v: nat)
    requires ValidUnsigned(s) && NoLeadingZeros(IntPart(s)) && NoTrailingZeros(FracPart(s))
    requires FracLen(s) <= k && MagAt(s, k) == v
    ensures var r := if neg && s != "0" then "-" + s else s;
      && Canonical(r) && Scale(r) == FracLen(s) && ValueAt(r, k) == Signed(neg, v)
  {
    SignedText(s, neg);
    if s == "0" {
      PartsOfDigits(s);
      assert Val(s) == 10 * Val([]) + DigitVal('0');
    } else if MagVal(s) == 0 {
      ZeroText(s);
    }
    MagAtProduct(s, k);
  }

  /** The sign goes in front of the digits exactly when the digits are not "0". */
  lemma SignedText(s: string, neg: bool)
    requires ValidUnsigned(s)
    ensures var r := if neg && s != "0" then "-" + s else s;
      && |r| > 0 && r[0] != '+' && Body(r) == s && Negative(r) == (neg && s != "0")
  {
    assert IntPart(s) == s[..IndexOf(s, '.')];
    assert IsDigit(s[0]);
  }

  // ---------------------------------------------------------------------
  // addStrings
  // ---------------------------------------------------------------------

  /**
   * `addStrings` on two valid literals: the result is the canonical text
   * of their exact sum.
   */
  method AddStrings(a: string, b: string) returns (r: string)
    requires ValidLiteral(a) && ValidLiteral(b)
    ensures IsSum(a, b, r)
    ensures Value(r) == Value(a) + Value(b)
  {
    var A, negA, B, negB, maxDec := AlignOperands(a, b);
    var result, resultNegative := SignedSum(A, B, negA, negB);
    r := WriteResult(result, resultNegative, maxDec);
    SumValue(a, b, r);
  }

  /**
   * Lines 129-147: the signs are stripped, both magnitudes are padded to
   * the larger number of fraction digits and their points removed. Each
   * operand is then its sign and a digit string: its value times 10^maxDec.
   */
  method AlignOperands(a: string, b: string) returns (A: string, negA: bool, B: string, negB: bool, maxDec: nat)
    requires ValidLiteral(a) && ValidLiteral(b)
    ensures maxDec == SumScale(a, b)
    ensures negA == Negative(a) && negB == Negative(b)
    ensures AllDigits(A) && |A| > 0 && ValueAt(a, maxDec) == Signed(negA, Val(A))
    ensures AllDigits(B) && |B| > 0 && ValueAt(b, maxDec) == Signed(negB, Val(B))
  {
    var x, decA, y, decB;
    x, negA, decA := SplitOperand(a);
    y, negB, decB := SplitOperand(b);
    maxDec := Max(decA, decB);
    A := ScaledDigits(x, maxDec);
    B := ScaledDigits(y, maxDec);
    OperandValue(a, maxDec, A);
    OperandValue(b, maxDec, B);
  }

  /** One operand's `stripSign` and its count of fraction digits. */
  method SplitOperand(s: string) returns (num: string, neg: bool, dec: nat)
    requires ValidLiteral(s)
    ensures num == Body(s) && neg == Negative(s) && dec == Scale(s) && ValidUnsigned(num)
  {
    num, neg := StripSign(s);
    var dot := IndexOf(num, '.');
    dec := if dot == |num| then 0 else |num| - dot - 1;
  }

  /** One operand padded with zeros to k fraction digits and its point removed: its magnitude at scale k. */
  method ScaledDigits(num: string, k: nat) returns (d: string)
    requires ValidUnsigned(num) && FracLen(num) <= k
    ensures AllDigits(d) && |d| > 0 && Val(d) == MagAt(num, k)
  {
    d := PadFraction(num, k);
    PaddedLength(num, d, k - FracLen(num));
    d := RemoveDots(d);
  }

  /**
   * Lines 171-188: the point goes back in, superfluous zeros go at both
   * ends, and a '-' goes in front of a negative result other than "0". The
   * text is canonical and denotes the signed digits divided by 10^maxDec.
   */
  method WriteResult(d: string, negative: bool, maxDec: nat) returns (r: string)
    requires AllDigits(d) && |d| > 0
    ensures Canonical(r) && Scale(r) <= maxDec && ValueAt(r, maxDec) == Signed(negative, Val(d))
  {
    var result := PlacePoint(d, maxDec);
    result := TrimLeadingZeros(result);
    result := TrimFraction(result);
    SignedResult(result, negative, maxDec, Val(d));
    r := if negative && result != "0" then "-" + result else result;
  }

  /**
   * An operand scaled to k fraction digits, with the point removed, is its magnitude at scale k.
   * Dafny proves it unaided; stated apart to keep `AlignOperands` cheap.
   */
  lemma OperandValue(s: string, k: nat, d: string)
    requires ValidLiteral(s) && Scale(s) <= k && AllDigits(d) && Val(d) == MagAt(Body(s), k)
    ensures ValueAt(s, k) == Signed(Negative(s), Val(d))
  {
  }

  /** At a common scale the sum is exact, so the real values add up as well. */
  lemma SumValue(a: string, b: string, r: string)
    requires IsSum(a, b, r)
    ensures Value(r) == Value(a) + Value(b)
  {
    var k := SumScale(a, b);
    ValueFromScaled(a, k);
    ValueFromScaled(b, k);
    ValueFromScaled(r, k);
    DivideSum(ValueAt(a, k), ValueAt(b, k), Pow10(k));
  }

  /** Division distributes over a sum; a hint for the solver, proved unaided. */
  lemma DivideSum(x: int, y: int, q: int)
    requires q > 0
    ensures (x + y) as real / q as real == x as real / q as real + y as real / q as real
  {
  }

  // ---------------------------------------------------------------------
  // What the canonical sum gives
  // ---------------------------------------------------------------------

  /** The sum is determined by the operands: two results for the same pair are the same text. */
  lemma SumUnique(a: string, b: string, r: string, r': string)
    requires IsSum(a, b, r) && IsSum(a, b, r')
    ensures r == r'
  {
    CanonicalUnique(r, r', SumScale(a, b));
  }

  /** Swapping the operands gives the same text. */
  lemma SumCommutes(a: string, b: string, r: string, r': string)
    requires IsSum(a, b, r) && IsSum(b, a, r')
    ensures r == r'
  {
    CanonicalUnique(r, r', SumScale(a, b));
  }

  /** Adding a literal that denotes zero to a canonical literal gives it back. */
  lemma SumIdentity(a: string, z: string, r: string)
    requires Canonical(a) && IsSum(a, z, r) && Sig(z) == 0
    ensures r == a
  {
    var k := SumScale(a, z);
    ValueAtProduct(z, k);
    CanonicalUnique(r, a, k);
  }

  /** Operands of opposite value, such as "-1.50" and "1.5", add up to exactly "0". */
  lemma SumInverse(a: string, b: string, r: string)
    requires IsSum(a, b, r) && Value(b) == -Value(a)
    ensures r == "0"
  {
    SumValue(a, b, r);
    ZeroValue(r);
  }

  /** The only canonical literal of value zero is "0". */
  lemma ZeroValue(r: string)
    requires Canonical(r) && Value(r) == 0.0
    ensures r == "0"
  {
    var p := Pow10(Scale(r)) as real;
    assert Sig(r) as real == Value(r) * p;
    CanonicalZero(r);
  }

  // ---------------------------------------------------------------------
  // The check in processFile (lines 205-209)
  // ---------------------------------------------------------------------

  datatype Outcome = Invalid | Sum(text: string)

  /**
   * One pair of inputs: when either fails `isValidDouble` the pair is
   * reported invalid, otherwise its sum is reported.
   */
  method ProcessPair(a: string, b: string) returns (o: Outcome)
    ensures o.Invalid? <==> !(ValidLiteral(a) && ValidLiteral(b))
    ensures o.Sum? ==> IsSum(a, b, o.text)
  {
    var ok := IsValidDouble(a);
    if ok {
      ok := IsValidDouble(b);
    }
    if !ok {
      return Invalid;
    }
    var s := AddStrings(a, b);
    o := Sum(s);
  }
}
