/**
 * Aligning two magnitudes on a common number of fraction digits, and
 * `compareAbs`, which compares two magnitudes by the numbers they denote.
 */
module Magnitude {
  import opened Digits
  import opened Literal

  /** A magnitude is its integer part, then a point and the fraction if it has a point. */
  lemma MagnitudeShape(t: string)
    ensures HasDot(t) ==> t == IntPart(t) + ['.'] + FracPart(t)
    ensures !HasDot(t) ==> t == IntPart(t) && FracPart(t) == []
  {
    var d := IndexOf(t, '.');
    if d < |t| {
      assert t == t[..d] + [t[d]] + t[d + 1..];
    } else {
      assert t[..d] == t;
    }
  }

  /** Digits followed by a point and more digits: the point splits the two parts. */
  lemma PartsOfPointed(i: string, f: string)
    requires AllDigits(i) && AllDigits(f)
    ensures IntPart(i + ['.'] + f) == i && FracPart(i + ['.'] + f) == f
    ensures IsMagnitude(i + ['.'] + f) && HasDot(i + ['.'] + f)
    ensures RemoveDots(i + ['.'] + f) == i + f
  {
    var t := i + ['.'] + f;
    IndexOfConcat(i, '.', f);
    assert t[..|i|] == i && t[|i| + 1..] == f;
    RemoveDotsConcat(i + ['.'], f);
    RemoveDotsConcat(i, ['.']);
    RemoveDotsNone(i);
    RemoveDotsNone(f);
  }

  /** A string of digits alone is a magnitude with no fraction, worth its digits. */
  lemma PartsOfDigits(t: string)
    requires AllDigits(t)
    ensures IntPart(t) == t && FracPart(t) == [] && IsMagnitude(t)
    ensures MagVal(t) == Val(t) && MagAt(t, 0) == Val(t)
  {
    IndexOfNone(t, '.');
    assert t[..|t|] == t && t + [] == t;
    assert MagDigits(t) == t;
  }

  /** t is the magnitude s with a point and n zeros appended to its fraction. */
  predicate Padded(s: string, t: string, n: nat) {
    IsMagnitude(s) && t == IntPart(s) + ['.'] + (FracPart(s) + Zeros(n))
  }

  /** Where the point of a padded magnitude is, and how long it is. */
  lemma PaddedPoint(s: string, t: string, n: nat)
    requires Padded(s, t, n)
    ensures IndexOf(t, '.') == |IntPart(s)| && |t| == |IntPart(s)| + 1 + FracLen(s) + n
  {
    ValZeros(n);
    PartsOfPointed(IntPart(s), FracPart(s) + Zeros(n));
  }

  /** With its point removed, a magnitude padded to k fraction digits is its value times 10^k. */
  lemma PaddedValue(s: string, t: string, n: nat, k: nat)
    requires Padded(s, t, n) && k == FracLen(s) + n
    ensures AllDigits(RemoveDots(t)) && Val(RemoveDots(t)) == MagAt(s, k)
  {
    var i, f := IntPart(s), FracPart(s);
    ValZeros(n);
    PartsOfPointed(i, f + Zeros(n));
    assert i + (f + Zeros(n)) == (i + f) + Zeros(n);
    ValTrailingZeros(i + f, n);
    MagAtProduct(s, k);
    assert k - FracLen(s) == n;
  }

  lemma PaddedStart(s: string)
    requires IsMagnitude(s)
    ensures var t := if HasDot(s) then s else s + ['.'];
      Padded(s, t, 0) && |t| - IndexOf(t, '.') - 1 == FracLen(s)
  {
    MagnitudeShape(s);
    assert FracPart(s) + Zeros(0) == FracPart(s);
    PaddedPoint(s, if HasDot(s) then s else s + ['.'], 0);
  }

  /** Appending a '0' to a padded magnitude pads its fraction by one more zero. */
  lemma PaddedStep(s: string, t: string, n: nat)
    requires Padded(s, t, n)
    ensures Padded(s, t + ['0'], n + 1)
    ensures |t + ['0']| - IndexOf(t + ['0'], '.') - 1 == FracLen(s) + n + 1
  {
    assert FracPart(s) + Zeros(n) + ['0'] == FracPart(s) + Zeros(n + 1);
    PaddedPoint(s, t + ['0'], n + 1);
  }

  /**
   * `if (dot == npos) A += '.'; while (fraction digits < maxDec) A += '0';`:
   * the magnitude gets a point and is padded with zeros up to maxDec
   * fraction digits. With the point removed, it is the number scaled by
   * 10^maxDec.
   */
  method PadFraction(s: string, maxDec: nat) returns (t: string)
    requires IsMagnitude(s) && FracLen(s) <= maxDec
    ensures Padded(s, t, maxDec - FracLen(s))
    ensures AllDigits(RemoveDots(t)) && Val(RemoveDots(t)) == MagAt(s, maxDec)
  {
    PaddedStart(s);
    t := s;
    if IndexOf(t, '.') == |t| {
      t := t + ['.'];
    }
    ghost var n: nat := 0;
    while |t| - IndexOf(t, '.') - 1 < maxDec
      invariant Padded(s, t, n) && |t| - IndexOf(t, '.') - 1 == FracLen(s) + n <= maxDec
      decreases maxDec - n
    {
      PaddedStep(s, t, n);
      t, n := t + ['0'], n + 1;
    }
    PaddedValue(s, t, n, maxDec);
  }

  /** The three-way comparison `compareAbs` reports: 1, 0 or -1. */
  function Compare(x: nat, y: nat): (c: int)
    ensures c == 1 || c == 0 || c == -1
    ensures (c == 0) == (x == y) && (c > 0) == (x > y)
  {
    if x > y then 1 else if x == y then 0 else -1
  }

  /**
   * `erase(0, find_first_not_of('0'))` followed by `if (A.empty()) A = "0"`:
   * the digits without superfluous leading zeros, with the same value.
   */
  lemma Normalized(s: string)
    requires AllDigits(s)
    ensures var z := StripLeadingZeros(s);
      var n := if z == [] then "0" else z;
      AllDigits(n) && NoLeadingZeros(n) && Val(n) == Val(s)
  {
    StripLeadingZerosValue(s);
    assert Val("0") == 10 * Val("") + DigitVal('0');
  }

  /**
   * `compareAbs`: the magnitudes are aligned on the larger number of
   * fraction digits, their points removed and leading zeros stripped; then
   * the longer digit string is the larger number, and equal lengths are
   * compared as strings. The result compares the numbers the magnitudes
   * denote.
   */
  method CompareAbs(a: string, b: string) returns (c: int)
    requires IsMagnitude(a) && IsMagnitude(b)
    ensures c == Compare(MagAt(a, Max(FracLen(a), FracLen(b))), MagAt(b, Max(FracLen(a), FracLen(b))))
  {
    var dotA, dotB := IndexOf(a, '.'), IndexOf(b, '.');
    var decA := if dotA == |a| then 0 else |a| - dotA - 1;
    var decB := if dotB == |b| then 0 else |b| - dotB - 1;
    var maxDec := Max(decA, decB);
    assert decA == FracLen(a) && decB == FracLen(b);

    var A := PadFraction(a, maxDec);
    var B := PadFraction(b, maxDec);
    A := RemoveDots(A);
    B := RemoveDots(B);

    Normalized(A);
    Normalized(B);
    A := StripLeadingZeros(A);
    B := StripLeadingZeros(B);
    if A == [] {
      A := "0";
    }
    if B == [] {
      B := "0";
    }

    OrderOfNormalized(A, B);
    if |A| != |B| {
      c := if |A| > |B| then 1 else -1;
    } else if A == B {
      c := 0;
    } else {
      c := if LexLess(B, A) then 1 else -1;
    }
  }

  /**
   * The last three lines of `compareAbs`: on digit strings without leading
   * zeros, the longer one is the larger number and equal lengths compare as
   * strings, so this decision is the numeric comparison.
   */
  lemma OrderOfNormalized(A: string, B: string)
    requires AllDigits(A) && AllDigits(B) && NoLeadingZeros(A) && NoLeadingZeros(B)
    ensures Compare(Val(A), Val(B)) ==
      if |A| != |B| then (if |A| > |B| then 1 else -1)
      else if A == B then 0
      else if LexLess(B, A) then 1 else -1
  {
    if |A| > |B| {
      LengthOrdersValue(B, A);
    } else if |A| < |B| {
      LengthOrdersValue(A, B);
    } else {
      LexLessIsValLess(B, A);
      LexLessIsValLess(A, B);
      if Val(A) == Val(B) {
        ValInjective(A, B);
      }
    }
  }
}
