/**
 * Decimal literals: the grammar `isValidDouble` accepts, the sign handling of
 * `stripSign`, the exact value a literal denotes and the canonical form that
 * `addStrings` produces.
 *
 * A literal is an optional sign followed by an unsigned part. The unsigned
 * part is split at its first '.' into an integer part and a fraction part.
 * Its value is the digits of both parts read as one natural number and
 * divided by 10 to the number of fraction digits; `ValueAt(s, k)` is that
 * value (with its sign) multiplied by 10^k, an exact integer whenever k is at
 * least the number of fraction digits.
 */
module Literal {
  import opened Digits

  // ---------------------------------------------------------------------
  // Sign
  // ---------------------------------------------------------------------

  /** 1 when the text starts with one sign character, else 0. */
  function SignLen(s: string): nat {
    if |s| > 0 && (s[0] == '+' || s[0] == '-') then 1 else 0
  }

  /** The text after at most one leading sign. */
  function Body(s: string): string {
    s[SignLen(s)..]
  }

  predicate Negative(s: string) {
    |s| > 0 && s[0] == '-'
  }

  // ---------------------------------------------------------------------
  // Unsigned magnitudes
  // ---------------------------------------------------------------------

  /** The characters before the first '.', or all of them when there is none. */
  function IntPart(t: string): string {
    t[..IndexOf(t, '.')]
  }

  /** The characters after the first '.', or nothing when there is none. */
  function FracPart(t: string): string {
    var d := IndexOf(t, '.');
    if d < |t| then t[d + 1..] else []
  }

  predicate HasDot(t: string) {
    IndexOf(t, '.') < |t|
  }

  /** Digits with at most one '.', anywhere: the strings `compareAbs` is written for. */
  predicate IsMagnitude(t: string) {
    AllDigits(IntPart(t)) && AllDigits(FracPart(t))
  }

  /** The unsigned part of a valid literal: digits before the point, and digits after it if there is one. */
  predicate ValidUnsigned(t: string) {
    IsMagnitude(t) && |IntPart(t)| > 0 && (HasDot(t) ==> |FracPart(t)| > 0)
  }

  /** The grammar `isValidDouble` decides. */
  predicate ValidLiteral(s: string) {
    |s| > 0 && ValidUnsigned(Body(s))
  }

  /** The number of fraction digits: the `dec` of the source. */
  function FracLen(t: string): nat {
    |FracPart(t)|
  }

  /** The digits of a magnitude with its point removed. */
  function MagDigits(t: string): string {
    IntPart(t) + FracPart(t)
  }

  /** The magnitude times 10^FracLen(t), an exact natural number. */
  function MagVal(t: string): nat
    requires IsMagnitude(t)
  {
    Val(MagDigits(t))
  }

  /**
   * The magnitude times 10^k, for a k no smaller than its fraction length:
   * its digits followed by k - FracLen(t) zeros.
   */
  function MagAt(t: string, k: nat): nat
    requires IsMagnitude(t) && FracLen(t) <= k
    decreases k
  {
    if k == FracLen(t) then MagVal(t) else 10 * MagAt(t, k - 1)
  }

  // ---------------------------------------------------------------------
  // Signed literals
  // ---------------------------------------------------------------------

  /** The number of fraction digits of a literal. */
  function Scale(s: string): nat {
    FracLen(Body(s))
  }

  /** The number a magnitude v carries with sign neg: -v or v. */
  function Signed(neg: bool, v: nat): int {
    if neg then -(v as int) else v
  }

  /** The signed value times 10^Scale(s). */
  function Sig(s: string): int
    requires ValidLiteral(s)
  {
    Signed(Negative(s), MagVal(Body(s)))
  }

  /** The signed value of the literal times 10^k. */
  function ValueAt(s: string, k: nat): int
    requires ValidLiteral(s) && Scale(s) <= k
  {
    Signed(Negative(s), MagAt(Body(s), k))
  }

  /** The real number the literal denotes. */
  function Value(s: string): real
    requires ValidLiteral(s)
  {
    Sig(s) as real / Pow10(Scale(s)) as real
  }

  /** Fraction digits that do not end in '0'. */
  predicate NoTrailingZeros(f: string) {
    f == [] || f[|f| - 1] != '0'
  }

  /**
   * The canonical text of a number: no '+', an integer part without
   * superfluous leading zeros, no trailing zeros after the point (and so no
   * point without digits after it), and no '-' on zero.
   */
  predicate Canonical(s: string) {
    && ValidLiteral(s)
    && s[0] != '+'
    && NoLeadingZeros(IntPart(Body(s)))
    && NoTrailingZeros(FracPart(Body(s)))
    && (Negative(s) ==> MagVal(Body(s)) != 0)
  }

  // ---------------------------------------------------------------------
  // 1. Validation (isValidDouble)
  // ---------------------------------------------------------------------

  /**
   * The state of the `isValidDouble` loop after it has read the first n
   * characters of the unsigned part t without returning: they are digits
   * around at most one point, and the three flags say whether the point, a
   * digit before it and a digit after it were among them.
   */
  predicate Scanned(t: string, n: int, hasDigitsBefore: bool, hasDigitsAfter: bool, hasDot: bool) {
    && 0 <= n <= |t|
    && var d := IndexOf(t, '.');
    && hasDot == (d < n)
    && hasDigitsBefore == (d > 0 && n > 0)
    && hasDigitsAfter == (d + 1 < n)
    && AllDigits(t[..if d < n then d else n])
    && (d < n ==> AllDigits(t[d + 1..n]))
  }

  lemma ScanStart(t: string)
    ensures Scanned(t, 0, false, false, false)
  {
  }

  /** Reading a digit sets the flag for the side of the point it is on. */
  lemma ScanDigit(t: string, n: int, before: bool, after: bool, dot: bool)
    requires Scanned(t, n, before, after, dot) && n < |t| && IsDigit(t[n])
    ensures Scanned(t, n + 1, before || !dot, after || dot, dot)
  {
    var d := IndexOf(t, '.');
    if d < n {
      assert t[d + 1..n + 1] == t[d + 1..n] + [t[n]];
    } else {
      assert t[..n + 1] == t[..n] + [t[n]];
    }
  }

  /** Reading a point: the first one is recorded, a second one makes the text invalid. */
  lemma ScanPoint(t: string, n: int, before: bool, after: bool, dot: bool)
    requires Scanned(t, n, before, after, dot) && n < |t| && t[n] == '.'
    ensures dot ==> !IsMagnitude(t)
    ensures !dot ==> Scanned(t, n + 1, before, after, true)
  {
    var d := IndexOf(t, '.');
    IndexOfFirst(t, '.');
    if dot {
      assert FracPart(t)[n - d - 1] == '.';
    }
  }

  /** Reading anything else makes the text invalid. */
  lemma ScanOther(t: string, n: int, before: bool, after: bool, dot: bool)
    requires Scanned(t, n, before, after, dot) && n < |t| && !IsDigit(t[n]) && t[n] != '.'
    ensures !IsMagnitude(t)
  {
    var d := IndexOf(t, '.');
    if n < d {
      assert IntPart(t)[n] == t[n];
    } else {
      assert FracPart(t)[n - d - 1] == t[n];
    }
  }

  /** At the end of the text, the flags decide the grammar. */
  lemma ScanDone(t: string, before: bool, after: bool, dot: bool)
    requires Scanned(t, |t|, before, after, dot)
    ensures ValidUnsigned(t) == (before && !(dot && !after))
  {
    var d := IndexOf(t, '.');
    assert IntPart(t) == t[..if d < |t| then d else |t|];
    assert d < |t| ==> FracPart(t) == t[d + 1..|t|];
  }

  /**
   * `isValidDouble`: one pass over the characters after an optional sign,
   * tracking whether a point, a digit before it and a digit after it were seen.
   */
  method IsValidDouble(s: string) returns (ok: bool)
    ensures ok == ValidLiteral(s)
  {
    if |s| == 0 {
      return false;
    }
    var i := 0;
    if s[i] == '+' || s[i] == '-' {
      i := i + 1;
    }
    ghost var k, t := i, Body(s);
    assert k == SignLen(s);
    var hasDigitsBefore, hasDigitsAfter, hasDot := false, false, false;
    ScanStart(t);
    while i < |s|
      invariant k <= i <= |s| && |t| == |s| - k
      invariant Scanned(t, i - k, hasDigitsBefore, hasDigitsAfter, hasDot)
    {
      var c := s[i];
      ghost var n := i - k;
      assert c == t[n];
      if IsDigit(c) {
        ScanDigit(t, n, hasDigitsBefore, hasDigitsAfter, hasDot);
        if !hasDot {
          hasDigitsBefore := true;
        } else {
          hasDigitsAfter := true;
        }
      } else if c == '.' {
        ScanPoint(t, n, hasDigitsBefore, hasDigitsAfter, hasDot);
        if hasDot {
          return false;
        }
        hasDot := true;
      } else {
        ScanOther(t, n, hasDigitsBefore, hasDigitsAfter, hasDot);
        return false;
      }
      i := i + 1;
    }
    ScanDone(t, hasDigitsBefore, hasDigitsAfter, hasDot);
    if !hasDigitsBefore {
      return false;
    }
    if hasDot && !hasDigitsAfter {
      return false;
    }
    return true;
  }

  // The grammar of `isValidDouble` stated condition by condition, on the
  // characters from index k (the first one after the sign) on.

  predicate OnlyDigitsAndPoints(s: string, k: nat) {
    forall j :: k <= j < |s| ==> IsDigit(s[j]) || s[j] == '.'
  }

  predicate AtMostOnePoint(s: string, k: nat) {
    forall i, j :: k <= i < j < |s| && s[i] == '.' ==> s[j] != '.'
  }

  predicate DigitBeforePoint(s: string, k: nat) {
    exists j :: k <= j < |s| && IsDigit(s[j]) && forall i :: k <= i < j ==> s[i] != '.'
  }

  predicate DigitAfterPoint(s: string, k: nat) {
    forall j :: k <= j < |s| && s[j] == '.' ==> j + 1 < |s| && IsDigit(s[j + 1])
  }

  /**
   * The grammar as a list of conditions: non-empty; after at most one sign
   * only digits and points; at most one point; a digit with no point before
   * it; and a digit right after the point.
   */
  lemma ValidLiteralIff(s: string)
    ensures ValidLiteral(s) <==>
      && |s| > 0
      && OnlyDigitsAndPoints(s, SignLen(s))
      && AtMostOnePoint(s, SignLen(s))
      && DigitBeforePoint(s, SignLen(s))
      && DigitAfterPoint(s, SignLen(s))
  {
    if ValidLiteral(s) {
      ValidLiteralSound(s);
    } else if |s| > 0 && OnlyDigitsAndPoints(s, SignLen(s)) && AtMostOnePoint(s, SignLen(s))
      && DigitBeforePoint(s, SignLen(s)) && DigitAfterPoint(s, SignLen(s))
    {
      ValidLiteralComplete(s);
    }
  }

  lemma ValidLiteralSound(s: string)
    requires ValidLiteral(s)
    ensures OnlyDigitsAndPoints(s, SignLen(s)) && AtMostOnePoint(s, SignLen(s))
    ensures DigitBeforePoint(s, SignLen(s)) && DigitAfterPoint(s, SignLen(s))
  {
    var k, t := SignLen(s), Body(s);
    var d := IndexOf(t, '.');
    var I, F := IntPart(t), FracPart(t);
    forall j | k <= j < |s|
      ensures j < k + d ==> IsDigit(s[j])
      ensures j == k + d ==> s[j] == '.'
      ensures j > k + d ==> IsDigit(s[j])
    {
      if j < k + d {
        assert s[j] == I[j - k];
      } else if j > k + d {
        assert s[j] == F[j - k - d - 1];
      } else {
        assert s[j] == t[d];
      }
    }
    assert s[k] == I[0];
  }

  lemma ValidLiteralComplete(s: string)
    requires |s| > 0 && OnlyDigitsAndPoints(s, SignLen(s)) && AtMostOnePoint(s, SignLen(s))
    requires DigitBeforePoint(s, SignLen(s)) && DigitAfterPoint(s, SignLen(s))
    ensures ValidLiteral(s)
  {
    var k, t := SignLen(s), Body(s);
    var d := IndexOf(t, '.');
    var I, F := IntPart(t), FracPart(t);
    IndexOfFirst(t, '.');
    forall j | 0 <= j < d
      ensures IsDigit(I[j])
    {
      assert I[j] == t[j] == s[j + k];
    }
    if d < |t| {
      assert s[k + d] == '.';
      forall j | 0 <= j < |F|
        ensures IsDigit(F[j])
      {
        assert F[j] == s[j + k + d + 1];
      }
    }
    var w :| k <= w < |s| && IsDigit(s[w]) && forall i :: k <= i < w ==> s[i] != '.';
  }

  // ---------------------------------------------------------------------
  // 4. Strip sign (stripSign)
  // ---------------------------------------------------------------------

  /**
   * `stripSign`: drop one leading '+' or '-' and report whether it was '-'.
   * On the empty string the source reads the terminating NUL at index 0,
   * which is neither sign, so the string comes back unchanged.
   */
  method StripSign(s: string) returns (num: string, isNegative: bool)
    ensures |s| > 0 && s[0] == '-' ==> num == s[1..] && isNegative
    ensures |s| > 0 && s[0] == '+' ==> num == s[1..] && !isNegative
    ensures (|s| == 0 || (s[0] != '+' && s[0] != '-')) ==> num == s && !isNegative
    ensures ValidLiteral(s) ==> ValidUnsigned(num)
    ensures ValidLiteral(s) ==> Sig(s) == Signed(isNegative, MagVal(num))
  {
    num := s;
    isNegative := false;
    if |num| > 0 && num[0] == '+' {
      num := num[1..];
    } else if |num| > 0 && num[0] == '-' {
      num := num[1..];
      isNegative := true;
    }
  }

  // ---------------------------------------------------------------------
  // The shape of a literal and the uniqueness of the canonical form
  // ---------------------------------------------------------------------

  /** A valid unsigned part is its integer part, then a point and the fraction if there is one. */
  lemma UnsignedShape(t: string)
    requires ValidUnsigned(t)
    ensures t == IntPart(t) + (if FracPart(t) == [] then [] else ['.'] + FracPart(t))
  {
    var d := IndexOf(t, '.');
    if d < |t| {
      assert t == t[..d] + [t[d]] + t[d + 1..];
    }
  }

  /** A literal without '+' is its '-' if negative, then its unsigned part. */
  lemma SignShape(s: string)
    requires |s| > 0 && s[0] != '+'
    ensures s == (if Negative(s) then "-" else "") + Body(s)
  {
  }

  /** The value of a magnitude splits into integer part and fraction part. */
  lemma MagValSplit(t: string)
    requires IsMagnitude(t)
    ensures MagVal(t) == Val(IntPart(t)) * Pow10(FracLen(t)) + Val(FracPart(t))
    ensures Val(FracPart(t)) < Pow10(FracLen(t))
  {
    ValConcat(IntPart(t), FracPart(t));
    ValBound(FracPart(t));
  }

  /** The only canonical text of zero is "0". */
  lemma CanonicalZero(s: string)
    requires Canonical(s) && MagVal(Body(s)) == 0
    ensures s == "0"
  {
    var t := Body(s);
    var I, F := IntPart(t), FracPart(t);
    ValZeroIff(MagDigits(t));
    assert F == [];
    assert I[0] == MagDigits(t)[0];
    assert I == "0";
    UnsignedShape(t);
    SignShape(s);
  }

  lemma MulCancel(a: nat, b: nat, p: nat)
    requires p > 0 && a * p == b * p
    ensures a == b
  {
    if a < b {
      LeadingDigitOrder(a, b, p, 0, 0);
    } else if b < a {
      LeadingDigitOrder(b, a, p, 0, 0);
    }
  }

  /** Multiplication is associative; a hint for the solver, proved unaided. */
  lemma MulAssoc(a: int, b: int, c: int)
    ensures a * (b * c) == (a * b) * c
  {
  }

  /** Quotient and remainder by p are unique. */
  lemma DivModUnique(a: nat, b: nat, c: nat, e: nat, p: nat)
    requires b < p && e < p && a * p + b == c * p + e
    ensures a == c && b == e
  {
    if a < c {
      LeadingDigitOrder(a, c, p, b, e);
    } else if c < a {
      LeadingDigitOrder(c, a, p, e, b);
    }
  }

  lemma {:induction false} Pow10Multiple(n: nat, a: nat)
    requires n > 0
    ensures (a * Pow10(n)) % 10 == 0
  {
    assert a * Pow10(n) == (a * Pow10(n - 1)) * 10;
  }

  /** In a canonical literal with fraction digits, the value is not a multiple of 10. */
  lemma CanonicalLastDigit(s: string)
    requires Canonical(s) && Scale(s) > 0
    ensures MagVal(Body(s)) % 10 != 0
  {
    var t := Body(s);
    var D := MagDigits(t);
    assert D[|D| - 1] == FracPart(t)[|FracPart(t)| - 1];
  }

  /**
   * If two magnitudes agree at a common scale, the one with more fraction
   * digits is a multiple of 10 (so it cannot be canonical).
   */
  lemma ScaleMismatch(x: string, y: string, k: nat)
    requires ValidLiteral(x) && ValidLiteral(y) && Scale(x) < Scale(y) <= k
    requires MagVal(Body(x)) * Pow10(k - Scale(x)) == MagVal(Body(y)) * Pow10(k - Scale(y))
    ensures MagVal(Body(y)) % 10 == 0
  {
    var mx, my := MagVal(Body(x)), MagVal(Body(y));
    var e, py := Scale(y) - Scale(x), Pow10(k - Scale(y));
    Pow10Add(e, k - Scale(y));
    assert Pow10(k - Scale(x)) == Pow10(e) * py;
    MulAssoc(mx, Pow10(e), py);
    MulCancel(mx * Pow10(e), my, py);
    Pow10Multiple(e, mx);
  }

  /** Scaling a magnitude to k fraction digits multiplies it by 10^(k - FracLen(t)). */
  lemma {:induction false} MagAtProduct(t: string, k: nat)
    requires IsMagnitude(t) && FracLen(t) <= k
    ensures MagAt(t, k) == MagVal(t) * Pow10(k - FracLen(t))
    decreases k
  {
    if k > FracLen(t) {
      MagAtProduct(t, k - 1);
      MulShift(MagVal(t), Pow10(k - 1 - FracLen(t)));
    }
  }

  /** The signed value at scale k is the signed value at its own scale times 10^(k - Scale(s)). */
  lemma ValueAtProduct(s: string, k: nat)
    requires ValidLiteral(s) && Scale(s) <= k
    ensures ValueAt(s, k) == Sig(s) * Pow10(k - Scale(s))
  {
    MagAtProduct(Body(s), k);
    var m: int, p: int := MagVal(Body(s)), Pow10(k - Scale(s));
    assert (-m) * p == -(m * p);
  }

  /**
   * Two canonical literals with the same value are the same text: the
   * canonical form of a number is unique.
   */
  lemma CanonicalUnique(x: string, y: string, k: nat)
    requires Canonical(x) && Canonical(y) && Scale(x) <= k && Scale(y) <= k
    requires ValueAt(x, k) == ValueAt(y, k)
    ensures x == y
  {
    var tx, ty := Body(x), Body(y);
    var ax, ay := MagAt(tx, k), MagAt(ty, k);
    MagAtProduct(tx, k);
    MagAtProduct(ty, k);
    if MagVal(tx) == 0 || MagVal(ty) == 0 {
      assert ax == 0 || ay == 0;
      assert ax == 0 && ay == 0;
      MulCancel(MagVal(tx), 0, Pow10(k - Scale(x)));
      MulCancel(MagVal(ty), 0, Pow10(k - Scale(y)));
      CanonicalZero(x);
      CanonicalZero(y);
    } else {
      assert ax > 0 && ay > 0;
      assert Negative(x) == Negative(y) && ax == ay;
      if Scale(x) < Scale(y) {
        ScaleMismatch(x, y, k);
        CanonicalLastDigit(y);
        assert false;
      } else if Scale(y) < Scale(x) {
        ScaleMismatch(y, x, k);
        CanonicalLastDigit(x);
        assert false;
      } else {
        MulCancel(MagVal(tx), MagVal(ty), Pow10(k - Scale(x)));
        CanonicalSameScale(x, y);
      }
    }
  }

  lemma CanonicalSameScale(x: string, y: string)
    requires Canonical(x) && Canonical(y) && Scale(x) == Scale(y)
    requires Negative(x) == Negative(y) && MagVal(Body(x)) == MagVal(Body(y))
    ensures x == y
  {
    var tx, ty := Body(x), Body(y);
    MagValSplit(tx);
    MagValSplit(ty);
    DivModUnique(Val(IntPart(tx)), Val(FracPart(tx)), Val(IntPart(ty)), Val(FracPart(ty)), Pow10(Scale(x)));
    NoLeadingZerosUnique(IntPart(tx), IntPart(ty));
    ValInjective(FracPart(tx), FracPart(ty));
    UnsignedShape(tx);
    UnsignedShape(ty);
    SignShape(x);
    SignShape(y);
  }

  /** The real value of a literal is its value at any scale k divided by 10^k. */
  lemma ValueFromScaled(s: string, k: nat)
    requires ValidLiteral(s) && Scale(s) <= k
    ensures Value(s) == ValueAt(s, k) as real / Pow10(k) as real
  {
    var f := Scale(s);
    Pow10Add(f, k - f);
    var x, y, z := Sig(s), Pow10(k - f), Pow10(f);
    ValueAtProduct(s, k);
    assert Pow10(k) == z * y;
    RealCancel(x, y, z);
  }

  lemma RealCancel(x: int, y: int, z: int)
    requires y > 0 && z > 0
    ensures x as real / z as real == (x * y) as real / (z * y) as real
  {
    var a, q, p := x as real, y as real, z as real;
    assert (x * y) as real == a * q;
    assert (z * y) as real == p * q;
    assert (a * q) / (p * q) * (p * q) == a * q;
    assert (a / p) * (p * q) == a * q;
  }
}
