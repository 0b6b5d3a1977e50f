/**
 * Unsigned decimal digit strings and their numeric value.
 *
 * The calculator keeps every number as text. This module gives such text its
 * meaning: `Val` reads a string of ASCII digits as a natural number (most
 * significant digit first), and the lemmas below are the facts about `Val`
 * that the carry/borrow loops and the magnitude comparison rely on. It also
 * holds the sequence operations the source borrows from the C++ library
 * (`std::reverse`, `std::remove`, `std::string::find`, the `<` of
 * `std::string`), written as plain functions on sequences.
 */
module Digits {

  /** `isdigit` restricted to the ASCII digits. */
  predicate IsDigit(c: char) {
    '0' <= c <= '9'
  }

  function DigitVal(c: char): nat {
    if IsDigit(c) then c as int - '0' as int else 0
  }

  /** The character `d + '0'` that the loops push for a digit value `d`. */
  function DigitChar(d: nat): (c: char)
    requires d < 10
    ensures IsDigit(c) && DigitVal(c) == d
  {
    ('0' as int + d) as char
  }

  predicate AllDigits(s: string) {
    forall i :: 0 <= i < |s| ==> IsDigit(s[i])
  }

  function Max(x: int, y: int): int {
    if x < y then y else x
  }

  function Pow10(n: nat): (p: nat)
    ensures p >= 1
  {
    if n == 0 then 1 else 10 * Pow10(n - 1)
  }

  function Zeros(n: nat): string {
    seq(n, _ => '0')
  }

  /** The natural number a digit string denotes, most significant digit first. */
  function Val(s: string): nat {
    if s == [] then 0 else 10 * Val(s[..|s| - 1]) + DigitVal(s[|s| - 1])
  }

  /** A digit string without superfluous leading zeros: "0" or a string not starting with '0'. */
  predicate NoLeadingZeros(s: string) {
    |s| >= 1 && (|s| == 1 || s[0] != '0')
  }

  /** `std::reverse`, read as a function: the last element comes first. */
  function Reverse(s: string): (r: string)
    ensures |r| == |s|
    ensures AllDigits(s) ==> AllDigits(r)
  {
    if s == [] then [] else [s[|s| - 1]] + Reverse(s[..|s| - 1])
  }

  /** `std::string::find(c)`: the first index holding `c`, or `|s|` (npos) when there is none. */
  function IndexOf(s: string, c: char): (k: nat)
    ensures k <= |s|
    ensures k < |s| ==> s[k] == c
  {
    if s == [] then 0 else if s[0] == c then 0 else 1 + IndexOf(s[1..], c)
  }

  /** `s.erase(std::remove(s.begin(), s.end(), '.'), s.end())`: `s` without its dots, order kept. */
  function RemoveDots(s: string): string {
    if s == [] then [] else (if s[0] == '.' then [] else [s[0]]) + RemoveDots(s[1..])
  }

  /** `s.erase(0, s.find_first_not_of('0'))`: `s` without its leading zeros. */
  function StripLeadingZeros(s: string): string {
    if s != [] && s[0] == '0' then StripLeadingZeros(s[1..]) else s
  }

  /** The `<` of `std::string` on the character codes: lexicographic order. */
  predicate LexLess(x: string, y: string) {
    if x == [] then y != []
    else if y == [] then false
    else x[0] < y[0] || (x[0] == y[0] && LexLess(x[1..], y[1..]))
  }

  // ---------------------------------------------------------------------
  // Powers of ten
  // ---------------------------------------------------------------------

  lemma {:induction false} Pow10Add(m: nat, n: nat)
    ensures Pow10(m + n) == Pow10(m) * Pow10(n)
  {
    if n > 0 {
      Pow10Add(m, n - 1);
      calc {
        Pow10(m + n);
        10 * Pow10(m + n - 1);
        10 * (Pow10(m) * Pow10(n - 1));
        Pow10(m) * (10 * Pow10(n - 1));
      }
    }
  }

  lemma Pow10Monotone(m: nat, n: nat)
    requires m <= n
    ensures Pow10(m) <= Pow10(n)
  {
    Pow10Add(m, n - m);
  }

  /** Multiplication regroups; a hint for the solver, proved unaided. */
  lemma MulShift(a: int, b: int)
    ensures 10 * (a * b) == a * (10 * b)
  {
  }

  /** The leading digit decides: a smaller leading digit gives a smaller number. */
  lemma LeadingDigitOrder(dx: nat, dy: nat, p: nat, u: nat, v: nat)
    requires dx < dy && u < p
    ensures dx * p + u < dy * p + v
  {
    assert (dx + 1) * p <= dy * p;
  }

  // ---------------------------------------------------------------------
  // The value of a digit string
  // ---------------------------------------------------------------------

  lemma ValSnoc(s: string, c: char)
    ensures Val(s + [c]) == 10 * Val(s) + DigitVal(c)
  {
    assert (s + [c])[..|s|] == s;
  }

  /** Place value: the digits of `x` count `Pow10(|y|)` times when `y` follows them. */
  lemma {:induction false} ValConcat(x: string, y: string)
    ensures Val(x + y) == Val(x) * Pow10(|y|) + Val(y)
  {
    if y == [] {
      assert x + y == x;
    } else {
      var y', c := y[..|y| - 1], y[|y| - 1];
      assert y == y' + [c];
      assert x + y == (x + y') + [c];
      ValConcat(x, y');
      ValSnoc(x + y', c);
      ValSnoc(y', c);
      var vx, vy', p' := Val(x), Val(y'), Pow10(|y'|);
      assert Pow10(|y|) == 10 * p';
      assert Val(x + y) == 10 * (vx * p' + vy') + DigitVal(c);
      MulShift(vx, p');
    }
  }

  /** Prepending one digit adds its place value. */
  lemma ValCons(c: char, s: string)
    ensures Val([c] + s) == DigitVal(c) * Pow10(|s|) + Val(s)
  {
    ValConcat([c], s);
    ValSingle(c);
  }

  lemma ValSingle(c: char)
    ensures Val([c]) == DigitVal(c)
  {
    assert [c][..0] == [];
  }

  /** A digit string of length n denotes a number below 10^n. */
  lemma {:induction false} ValBound(s: string)
    ensures Val(s) < Pow10(|s|)
  {
    if s != [] {
      ValBound(s[..|s| - 1]);
    }
  }

  lemma {:induction false} ValZeros(n: nat)
    ensures AllDigits(Zeros(n)) && Val(Zeros(n)) == 0
  {
    if n > 0 {
      assert Zeros(n)[..n - 1] == Zeros(n - 1);
      ValZeros(n - 1);
    }
  }

  /** Leading zeros do not change the value. */
  lemma ValLeadingZeros(n: nat, s: string)
    ensures Val(Zeros(n) + s) == Val(s)
  {
    ValZeros(n);
    ValConcat(Zeros(n), s);
  }

  /** Trailing zeros scale the value by a power of ten. */
  lemma ValTrailingZeros(s: string, n: nat)
    ensures Val(s + Zeros(n)) == Val(s) * Pow10(n)
  {
    ValZeros(n);
    ValConcat(s, Zeros(n));
  }

  /** A string whose digits are all '0' has value 0, and conversely. */
  lemma {:induction false} ValZeroIff(s: string)
    requires AllDigits(s)
    ensures Val(s) == 0 <==> forall i :: 0 <= i < |s| ==> s[i] == '0'
  {
    if s != [] {
      var s' := s[..|s| - 1];
      ValZeroIff(s');
      assert forall i :: 0 <= i < |s'| ==> s'[i] == s[i];
    }
  }

  /** Two digit strings of one length that denote one number are the same string. */
  lemma {:induction false} ValInjective(x: string, y: string)
    requires AllDigits(x) && AllDigits(y) && |x| == |y|
    requires Val(x) == Val(y)
    ensures x == y
  {
    if x != [] {
      var n := |x| - 1;
      assert Val(x) % 10 == DigitVal(x[n]) && Val(y) % 10 == DigitVal(y[n]);
      assert Val(x[..n]) == Val(x) / 10 && Val(y[..n]) == Val(y) / 10;
      ValInjective(x[..n], y[..n]);
      assert x == x[..n] + [x[n]] && y == y[..n] + [y[n]];
    }
  }

  /** A digit string with a non-zero first digit is at least 10^(n-1). */
  lemma ValLowerBound(s: string)
    requires AllDigits(s) && |s| >= 1 && s[0] != '0'
    ensures Val(s) >= Pow10(|s| - 1)
  {
    assert s == [s[0]] + s[1..];
    ValCons(s[0], s[1..]);
  }

  /** Without leading zeros, a shorter digit string denotes a smaller number. */
  lemma LengthOrdersValue(x: string, y: string)
    requires AllDigits(x) && AllDigits(y) && NoLeadingZeros(x) && NoLeadingZeros(y)
    requires |x| < |y|
    ensures Val(x) < Val(y)
  {
    ValBound(x);
    ValLowerBound(y);
    Pow10Monotone(|x|, |y| - 1);
  }

  /** Without leading zeros, the digit string of a number is unique. */
  lemma NoLeadingZerosUnique(x: string, y: string)
    requires AllDigits(x) && AllDigits(y) && NoLeadingZeros(x) && NoLeadingZeros(y)
    requires Val(x) == Val(y)
    ensures x == y
  {
    if |x| < |y| {
      LengthOrdersValue(x, y);
    } else if |y| < |x| {
      LengthOrdersValue(y, x);
    } else {
      ValInjective(x, y);
    }
  }

  /** On digit strings of equal length, the order of `std::string` is the numeric order. */
  lemma {:induction false} LexLessIsValLess(x: string, y: string)
    requires AllDigits(x) && AllDigits(y) && |x| == |y|
    ensures LexLess(x, y) <==> Val(x) < Val(y)
  {
    if x != [] {
      var x', y' := x[1..], y[1..];
      assert x == [x[0]] + x' && y == [y[0]] + y';
      ValCons(x[0], x');
      ValCons(y[0], y');
      ValBound(x');
      ValBound(y');
      var p := Pow10(|x'|);
      var dx, dy := DigitVal(x[0]), DigitVal(y[0]);
      assert Val(x) == dx * p + Val(x') && Val(y) == dy * p + Val(y');
      if dx < dy {
        LeadingDigitOrder(dx, dy, p, Val(x'), Val(y'));
        assert x[0] < y[0];
      } else if dy < dx {
        LeadingDigitOrder(dy, dx, p, Val(y'), Val(x'));
        assert y[0] < x[0];
      } else {
        LexLessIsValLess(x', y');
        assert LexLess(x, y) == LexLess(x', y');
      }
    }
  }

  // ---------------------------------------------------------------------
  // The library sequence operations
  // ---------------------------------------------------------------------

  lemma ReverseSnoc(s: string, c: char)
    ensures Reverse(s + [c]) == [c] + Reverse(s)
  {
    assert (s + [c])[..|s|] == s;
  }

  lemma {:induction false} RemoveDotsNone(s: string)
    requires forall i :: 0 <= i < |s| ==> s[i] != '.'
    ensures RemoveDots(s) == s
  {
    if s != [] {
      RemoveDotsNone(s[1..]);
    }
  }

  lemma {:induction false} RemoveDotsConcat(x: string, y: string)
    ensures RemoveDots(x + y) == RemoveDots(x) + RemoveDots(y)
  {
    if x != [] {
      assert (x + y)[1..] == x[1..] + y;
      RemoveDotsConcat(x[1..], y);
    } else {
      assert x + y == y;
    }
  }

  lemma {:induction false} StripLeadingZerosValue(s: string)
    requires AllDigits(s)
    ensures AllDigits(StripLeadingZeros(s))
    ensures Val(StripLeadingZeros(s)) == Val(s)
    ensures StripLeadingZeros(s) == [] || StripLeadingZeros(s)[0] != '0'
  {
    if s != [] && s[0] == '0' {
      StripLeadingZerosValue(s[1..]);
      assert s == Zeros(1) + s[1..];
      ValLeadingZeros(1, s[1..]);
    }
  }

  /** No occurrence of `c` comes before the one `find` reports. */
  lemma {:induction false} IndexOfFirst(s: string, c: char)
    ensures forall i :: 0 <= i < IndexOf(s, c) ==> s[i] != c
  {
    if s != [] && s[0] != c {
      IndexOfFirst(s[1..], c);
    }
  }

  lemma {:induction false} IndexOfConcat(x: string, c: char, y: string)
    requires forall i :: 0 <= i < |x| ==> x[i] != c
    ensures IndexOf(x + [c] + y, c) == |x|
  {
    if x != [] {
      assert (x + [c] + y)[1..] == x[1..] + [c] + y;
      IndexOfConcat(x[1..], c, y);
    }
  }

  lemma IndexOfNone(x: string, c: char)
    requires forall i :: 0 <= i < |x| ==> x[i] != c
    ensures IndexOf(x, c) == |x|
  {
  }
}
