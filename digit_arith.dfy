/**
 * Unsigned digit-string arithmetic: `addIntegerStrings` and
 * `subtractIntegerStrings`. Both walk the operands from the last digit to the
 * first with one index per operand, push one result digit per turn onto a
 * buffer (so the buffer holds the result least significant digit first) and
 * reverse the buffer at the end.
 *
 * Each loop is specified by a recursive function of the same indices that
 * reads the walk the other way round: the digits of the result still to
 * come, for the digits in front of the indices and the carry (or borrow) in
 * hand, followed by the digit this turn pushes. The loop invariant says that
 * those digits, followed by the reversed buffer, are the whole result; the
 * lemmas say what the whole result denotes.
 */
module DigitArith {
  import opened Digits

  /**
   * The value of the digit at position n - 1 of s, the one an index n - 1
   * reads; 0 once the index has run past the front of s.
   */
  function Digit(s: string, n: int): (d: nat)
    requires n <= |s|
    ensures d < 10
  {
    if n >= 1 then DigitVal(s[n - 1]) else 0
  }

  /** The first n digits are ten times the first n - 1, plus digit n. */
  lemma TakeStep(s: string, n: int, m: int)
    requires 0 <= n <= |s| && m == Max(n - 1, 0)
    ensures Val(s[..n]) == 10 * Val(s[..m]) + Digit(s, n)
  {
    if n >= 1 {
      assert s[..n][..n - 1] == s[..n - 1];
    }
  }

  /** Concatenation is associative; a hint for the solver, proved unaided. */
  lemma AppendAssoc(x: string, y: string, z: string)
    ensures x + y + z == x + (y + z)
  {
  }

  // ---------------------------------------------------------------------
  // addIntegerStrings
  // ---------------------------------------------------------------------

  /**
   * The digits `addIntegerStrings` still produces when the first na digits
   * of a and the first nb digits of b are unread and the carry c is in
   * hand: nothing once both are used up and no carry is left; otherwise the
   * digits for the rest and the new carry, then the units digit of the
   * carry plus the two digits read (0 for an operand used up).
   */
  function Add(a: string, b: string, na: int, nb: int, c: nat): (r: string)
    requires 0 <= na <= |a| && 0 <= nb <= |b|
    ensures AllDigits(r)
    decreases na + nb, c
  {
    if na == 0 && nb == 0 && c == 0 then []
    else
      var sum := c + Digit(a, na) + Digit(b, nb);
      Add(a, b, Max(na - 1, 0), Max(nb - 1, 0), sum / 10) + [DigitChar(sum % 10)]
  }

  /** The digits still produced denote the sum of the unread digits and the carry. */
  lemma {:induction false} AddVal(a: string, b: string, na: int, nb: int, c: nat)
    requires 0 <= na <= |a| && 0 <= nb <= |b|
    ensures Val(Add(a, b, na, nb, c)) == Val(a[..na]) + Val(b[..nb]) + c
    decreases na + nb, c
  {
    if na == 0 && nb == 0 && c == 0 {
      assert a[..na] == [] && b[..nb] == [];
    } else {
      var na', nb' := Max(na - 1, 0), Max(nb - 1, 0);
      var x, y := Digit(a, na), Digit(b, nb);
      var sum := c + x + y;
      var rest := Add(a, b, na', nb', sum / 10);
      assert Add(a, b, na, nb, c) == rest + [DigitChar(sum % 10)];
      ValSnoc(rest, DigitChar(sum % 10));
      AddVal(a, b, na', nb', sum / 10);
      TakeStep(a, na, na');
      TakeStep(b, nb, nb');
      AddColumn(Val(Add(a, b, na, nb, c)), Val(rest), Val(a[..na]), Val(a[..na']),
                Val(b[..nb]), Val(b[..nb']), x, y, c, sum);
    }
  }

  /**
   * One column of the addition in numbers: if the columns to its left
   * balance with the carry passed on, then with this column's digit they
   * balance with the carry taken in.
   */
  lemma AddColumn(vs: int, vr: int, va: int, va': int, vb: int, vb': int,
                  x: int, y: int, c: int, sum: nat)
    requires sum == c + x + y && vs == 10 * vr + sum % 10
    requires va == 10 * va' + x && vb == 10 * vb' + y && vr == va' + vb' + sum / 10
    ensures vs == va + vb + c
  {
  }

  /**
   * With a carry of at most one, there are as many digits still to come as
   * the longer unread part has, or one more, and then the first is '1'.
   */
  lemma {:induction false} AddLength(a: string, b: string, na: int, nb: int, c: nat)
    requires 0 <= na <= |a| && 0 <= nb <= |b| && c <= 1
    ensures var r := Add(a, b, na, nb, c);
      && Max(na, nb) <= |r| <= Max(na, nb) + 1
      && (|r| == Max(na, nb) + 1 ==> r[0] == '1')
    decreases na + nb, c
  {
    if !(na == 0 && nb == 0 && c == 0) {
      var sum := c + Digit(a, na) + Digit(b, nb);
      AddLength(a, b, Max(na - 1, 0), Max(nb - 1, 0), sum / 10);
      if na == 0 && nb == 0 {
        assert Add(a, b, na, nb, c) == [] + ['1'];
      }
    }
  }

  /**
   * The sum of two digit strings denotes the sum of their values, has
   * exactly as many digits as the longer one, and one more (a leading '1')
   * exactly when the sum does not fit in that many digits.
   */
  lemma AddSpec(a: string, b: string)
    ensures var r := Add(a, b, |a|, |b|, 0);
      && Val(r) == Val(a) + Val(b)
      && |r| == Max(|a|, |b|) + (if Val(a) + Val(b) < Pow10(Max(|a|, |b|)) then 0 else 1)
      && (|r| == Max(|a|, |b|) + 1 ==> r[0] == '1')
  {
    assert a[..|a|] == a && b[..|b|] == b;
    var r := Add(a, b, |a|, |b|, 0);
    AddVal(a, b, |a|, |b|, 0);
    AddLength(a, b, |a|, |b|, 0);
    var m := Max(|a|, |b|);
    if |r| == m {
      ValBound(r);
    } else {
      ValLowerBound(r);
      assert |r| - 1 == m;
    }
  }

  /**
   * The state of the addition loop: the first na digits of a and the first
   * nb digits of b unread, carry c in hand, and buffer rev. The digits still
   * to come, followed by the reversed buffer, are the whole sum.
   */
  predicate AddLoop(a: string, b: string, na: int, nb: int, c: nat, rev: string) {
    && 0 <= na <= |a| && 0 <= nb <= |b|
    && Add(a, b, na, nb, c) + Reverse(rev) == Add(a, b, |a|, |b|, 0)
  }

  /**
   * One turn of the addition loop, reading digit x of a and digit y of b
   * (0 for an operand used up) and adding the carry, keeps its state.
   */
  lemma AddLoopStep(a: string, b: string, na: int, nb: int, c: nat, rev: string,
                    x: nat, y: nat, sum: nat, d: nat, na': int, nb': int, c': nat, rev': string)
    requires AddLoop(a, b, na, nb, c, rev) && (na >= 1 || nb >= 1 || c != 0)
    requires x == Digit(a, na) && y == Digit(b, nb) && sum == c + x + y
    requires na' == Max(na - 1, 0) && nb' == Max(nb - 1, 0)
    requires c' == sum / 10 && d == sum % 10 && rev' == rev + [DigitChar(d)]
    ensures AddLoop(a, b, na', nb', c', rev')
  {
    var rest := Add(a, b, na', nb', c');
    assert Add(a, b, na, nb, c) == rest + [DigitChar(d)];
    ReverseSnoc(rev, DigitChar(d));
    AppendAssoc(rest, [DigitChar(d)], Reverse(rev));
  }

  /** When the addition loop stops, the reversed buffer is the whole sum. */
  lemma AddLoopDone(a: string, b: string, na: int, nb: int, c: nat, rev: string)
    requires AddLoop(a, b, na, nb, c, rev) && na == 0 && nb == 0 && c == 0
    ensures Reverse(rev) == Add(a, b, |a|, |b|, 0)
  {
    PrependEmpty(Add(a, b, na, nb, c), Reverse(rev));
  }

  /** The empty text is a left unit; a hint for the solver, proved unaided. */
  lemma PrependEmpty(x: string, y: string)
    requires x == []
    ensures x + y == y
  {
  }

  /** The empty text is a right unit; a hint for the solver, proved unaided. */
  lemma AppendEmpty(x: string, y: string)
    requires y == []
    ensures x + y == x
  {
  }

  /**
   * `addIntegerStrings`: schoolbook addition with a carry. The result is the
   * sum, has exactly as many digits as the longer operand, and one more (a
   * leading '1') exactly when the sum does not fit in that many digits.
   * Leading zeros of the operands are kept.
   */
  method AddIntegerStrings(a: string, b: string) returns (r: string)
    requires AllDigits(a) && AllDigits(b)
    ensures r == Add(a, b, |a|, |b|, 0)
    ensures AllDigits(r)
    ensures Val(r) == Val(a) + Val(b)
    ensures |r| == Max(|a|, |b|) + (if Val(a) + Val(b) < Pow10(Max(|a|, |b|)) then 0 else 1)
    ensures |r| == Max(|a|, |b|) + 1 ==> r[0] == '1'
  {
    var rev: string := [];
    var carry: nat := 0;
    var i, j := |a| - 1, |b| - 1;
    AppendEmpty(Add(a, b, i + 1, j + 1, carry), Reverse(rev));
    while i >= 0 || j >= 0 || carry != 0
      invariant -1 <= i && -1 <= j && AddLoop(a, b, i + 1, j + 1, carry, rev)
      decreases i + j + 2, carry
    {
      ghost var i0, j0, c0, rev0 := i, j, carry, rev;
      var x: nat := if i >= 0 then DigitVal(a[i]) else 0;
      var y: nat := if j >= 0 then DigitVal(b[j]) else 0;
      var sum: nat := carry + x + y;
      i, j := if i >= 0 then i - 1 else i, if j >= 0 then j - 1 else j;
      var digit := sum % 10;
      carry := sum / 10;
      rev := rev + [DigitChar(digit)];
      AddLoopStep(a, b, i0 + 1, j0 + 1, c0, rev0, x, y, sum, digit, i + 1, j + 1, carry, rev);
    }
    AddLoopDone(a, b, i + 1, j + 1, carry, rev);
    AddSpec(a, b);
    r := Reverse(rev);
  }

  // ---------------------------------------------------------------------
  // subtractIntegerStrings
  // ---------------------------------------------------------------------

  /** One column of the subtraction: the digit pushed when y and the borrow bw are taken from x. */
  function DiffDigit(x: nat, y: nat, bw: nat): (d: nat)
    requires x < 10 && y < 10 && bw <= 1
    ensures d < 10
  {
    if x - bw - y < 0 then x - bw - y + 10 else x - bw - y
  }

  /** The borrow that column leaves: 1 exactly when the difference went below zero. */
  function BorrowOut(x: nat, y: nat, bw: nat): (b: nat)
    requires x < 10 && y < 10 && bw <= 1
    ensures b <= 1
    ensures DiffDigit(x, y, bw) + y + bw == x + 10 * b
  {
    if x - bw - y < 0 then 1 else 0
  }

  /**
   * The digits `subtractIntegerStrings` still pushes when the first na
   * digits of the minuend a are unread, the subtrahend index stands at
   * nb - 1 and the borrow bw is in hand: one per unread minuend digit,
   * subtracting the subtrahend digit read with it (0 once the subtrahend
   * index has run past its front).
   */
  function Sub(a: string, b: string, na: int, nb: int, bw: nat): (r: string)
    requires 0 <= na <= |a| && nb <= |b| && bw <= 1
    ensures AllDigits(r) && |r| == na
    decreases na
  {
    if na == 0 then []
    else
      var x, y := Digit(a, na), Digit(b, nb);
      Sub(a, b, na - 1, nb - 1, BorrowOut(x, y, bw)) + [DigitChar(DiffDigit(x, y, bw))]
  }

  /** The borrow left when the subtraction of `Sub` has used up the minuend. */
  function Borrow(a: string, b: string, na: int, nb: int, bw: nat): (r: nat)
    requires 0 <= na <= |a| && nb <= |b| && bw <= 1
    ensures r <= 1
    decreases na
  {
    if na == 0 then bw
    else
      var x, y := Digit(a, na), Digit(b, nb);
      Borrow(a, b, na - 1, nb - 1, BorrowOut(x, y, bw))
  }

  /**
   * The k digits of s in front of position n (positions n - k to n - 1),
   * without those that would lie in front of s: the subtrahend digits that
   * k turns of the subtraction loop read from index n - 1 down.
   */
  function Window(s: string, n: int, k: nat): (t: string)
    requires n <= |s|
  {
    s[Max(n - k, 0)..Max(n, 0)]
  }

  /** A window is ten times the window one shorter in front of its last digit, plus that digit. */
  lemma WindowStep(s: string, n: int, k: nat)
    requires n <= |s| && k >= 1
    ensures Val(Window(s, n, k)) == 10 * Val(Window(s, n - 1, k - 1)) + Digit(s, n)
  {
    if n >= 1 {
      var w := Window(s, n - 1, k - 1);
      assert Window(s, n, k) == w + [s[n - 1]];
      assert Window(s, n, k)[..|w|] == w;
    }
  }

  /**
   * The difference digits plus the subtrahend digits read plus the borrow
   * taken in are the minuend digits read plus the borrow left over, which
   * is worth 10^na.
   */
  lemma {:induction false} SubVal(a: string, b: string, na: int, nb: int, bw: nat)
    requires 0 <= na <= |a| && nb <= |b| && bw <= 1
    ensures Val(Sub(a, b, na, nb, bw)) + Val(Window(b, nb, na)) + bw
      == Val(a[..na]) + (if Borrow(a, b, na, nb, bw) == 1 then Pow10(na) else 0)
    decreases na
  {
    if na == 0 {
      assert Window(b, nb, na) == [] && a[..na] == [];
    } else {
      var x, y := Digit(a, na), Digit(b, nb);
      var bw', d := BorrowOut(x, y, bw), DiffDigit(x, y, bw);
      var rest := Sub(a, b, na - 1, nb - 1, bw');
      assert Sub(a, b, na, nb, bw) == rest + [DigitChar(d)];
      ValSnoc(rest, DigitChar(d));
      SubVal(a, b, na - 1, nb - 1, bw');
      TakeStep(a, na, na - 1);
      WindowStep(b, nb, na);
      var hi := if Borrow(a, b, na - 1, nb - 1, bw') == 1 then Pow10(na - 1) else 0;
      var h := if Borrow(a, b, na, nb, bw) == 1 then Pow10(na) else 0;
      assert h == 10 * hi;
      SubColumn(Val(Sub(a, b, na, nb, bw)), Val(rest), Val(Window(b, nb, na)), Val(Window(b, nb - 1, na - 1)),
                Val(a[..na]), Val(a[..na - 1]), h, hi, x, y, d, bw, bw');
    }
  }

  /**
   * One column of the subtraction in numbers: if the columns to its left
   * balance, the column's digit, the subtrahend digit and the borrow taken
   * in balance the minuend digit and the borrow passed on, then with this
   * column all balance.
   */
  lemma SubColumn(vs: int, vr: int, vw: int, vw': int, va: int, va': int, h: int, hi: int,
                  x: int, y: int, d: int, bw: int, bw': int)
    requires vs == 10 * vr + d && vw == 10 * vw' + y && va == 10 * va' + x && h == 10 * hi
    requires d + y + bw == x + 10 * bw' && vr + vw' + bw' == va' + hi
    ensures vs + vw + bw == va + h
  {
  }

  /** A number below 10^n is unchanged when only its n least significant digits are kept. */
  lemma HighDigitsZero(s: string, n: nat)
    requires AllDigits(s) && Val(s) < Pow10(n)
    ensures Val(Window(s, |s|, n)) == Val(s)
  {
    if n < |s| {
      var k := |s| - n;
      WindowSuffix(s, k);
      SplitValue(s, k);
      NoHighPart(Val(s[..k]), Pow10(n), Val(s[k..]), Val(s));
    } else {
      assert Window(s, |s|, n) == s[0..|s|] == s;
    }
  }

  /** Splitting a number's digits at k separates its high and low parts. */
  lemma SplitValue(s: string, k: nat)
    requires k <= |s|
    ensures Val(s) == Val(s[..k]) * Pow10(|s| - k) + Val(s[k..])
  {
    var hi, lo := s[..k], s[k..];
    assert s == hi + lo;
    ValConcat(hi, lo);
  }

  /** The window of the last |s| - k digits is the suffix from k. */
  lemma WindowSuffix(s: string, k: nat)
    requires k <= |s|
    ensures Window(s, |s|, |s| - k) == s[k..]
  {
    assert Max(|s| - (|s| - k), 0) == k && Max(|s|, 0) == |s|;
  }

  /** A number below p that is x times p plus w is w. */
  lemma NoHighPart(x: nat, p: nat, w: nat, v: nat)
    requires v == x * p + w && v < p
    ensures v == w
  {
    MulAtLeast(x, p);
  }

  /** A positive multiple of p is at least p; a hint for the solver, proved unaided. */
  lemma MulAtLeast(x: nat, p: nat)
    ensures x >= 1 ==> x * p >= p
  {
  }

  /**
   * A minuend no smaller than the subtrahend leaves no borrow, and the
   * difference digits denote the difference.
   */
  lemma SubSpec(a: string, b: string)
    requires AllDigits(a) && AllDigits(b) && Val(b) <= Val(a)
    ensures var r := Sub(a, b, |a|, |b|, 0);
      Borrow(a, b, |a|, |b|, 0) == 0 && Val(r) == Val(a) - Val(b)
  {
    assert a[..|a|] == a;
    var r, p := Sub(a, b, |a|, |b|, 0), Pow10(|a|);
    SubVal(a, b, |a|, |b|, 0);
    ValBound(a);
    HighDigitsZero(b, |a|);
    ValBound(r);
    var h := if Borrow(a, b, |a|, |b|, 0) == 1 then p else 0;
    NoBorrow(Val(r), Val(Window(b, |b|, |a|)), Val(a), Val(b), p, h);
  }

  /**
   * In numbers: a difference below p plus the subtrahend that makes the
   * minuend, itself below p, plus a borrow worth 0 or p leaves no borrow.
   */
  lemma NoBorrow(vr: int, vw: int, va: int, vb: int, p: int, h: int)
    requires vr + vw == va + h && vw == vb && 0 <= vb <= va < p && 0 <= vr < p
    requires h == 0 || h == p
    ensures h == 0 && vr == va - vb
  {
  }

  /**
   * The state of the subtraction loop: the first na minuend digits unread,
   * the subtrahend index level with the minuend index, borrow bw in hand,
   * and buffer rev. The digits still to come, followed by the reversed
   * buffer, are the whole difference, and the final borrow is the one the
   * whole subtraction leaves.
   */
  predicate SubLoop(a: string, b: string, na: int, nb: int, bw: nat, rev: string) {
    && 0 <= na <= |a| && nb - na == |b| - |a| && bw <= 1
    && Sub(a, b, na, nb, bw) + Reverse(rev) == Sub(a, b, |a|, |b|, 0)
    && Borrow(a, b, na, nb, bw) == Borrow(a, b, |a|, |b|, 0)
  }

  /**
   * One turn of the subtraction loop, taking subtrahend digit y and the
   * borrow from minuend digit x, keeps its state.
   */
  lemma SubLoopStep(a: string, b: string, na: int, nb: int, bw: nat, rev: string,
                    x: nat, y: nat, d: nat, na': int, nb': int, bw': nat, rev': string)
    requires SubLoop(a, b, na, nb, bw, rev) && na >= 1
    requires x == Digit(a, na) && y == Digit(b, nb) && d == DiffDigit(x, y, bw)
    requires na' == na - 1 && nb' == nb - 1
    requires bw' == BorrowOut(x, y, bw) && rev' == rev + [DigitChar(d)]
    ensures SubLoop(a, b, na', nb', bw', rev')
  {
    var rest := Sub(a, b, na', nb', bw');
    assert Sub(a, b, na, nb, bw) == rest + [DigitChar(d)];
    ReverseSnoc(rev, DigitChar(d));
    AppendAssoc(rest, [DigitChar(d)], Reverse(rev));
  }

  /**
   * The state of the zero-popping loop: the buffer (least significant digit
   * first) denotes v, is no longer than the minuend's n digits and is empty
   * only when n is 0.
   */
  predicate Popping(n: nat, rev: string, v: nat) {
    && AllDigits(Reverse(rev)) && Val(Reverse(rev)) == v
    && |rev| <= n && (n > 0 ==> |rev| >= 1) && (n == 0 ==> rev == [])
  }

  /**
   * When the subtraction loop stops, with a minuend no smaller than the
   * subtrahend, the buffer holds the difference, one digit per minuend digit.
   */
  lemma SubLoopDone(a: string, b: string, na: int, nb: int, bw: nat, rev: string)
    requires AllDigits(a) && AllDigits(b) && Val(b) <= Val(a)
    requires SubLoop(a, b, na, nb, bw, rev) && na == 0
    ensures Popping(|a|, rev, Val(a) - Val(b))
  {
    PrependEmpty(Sub(a, b, na, nb, bw), Reverse(rev));
    SubSpec(a, b);
  }

  /**
   * Popping a trailing '0' of the reversed buffer drops a leading zero of
   * the result, which keeps its value.
   */
  lemma PopStep(n: nat, rev: string, v: nat)
    requires Popping(n, rev, v) && |rev| > 1 && rev[|rev| - 1] == '0'
    ensures Popping(n, rev[..|rev| - 1], v)
  {
    var t := Reverse(rev[..|rev| - 1]);
    assert Reverse(rev) == Zeros(1) + t;
    assert t == Reverse(rev)[1..];
    ValLeadingZeros(1, t);
  }

  /** When no '0' is left to pop, the reversed buffer has no leading zeros. */
  lemma PopDone(n: nat, rev: string, v: nat)
    requires Popping(n, rev, v) && !(|rev| > 1 && rev[|rev| - 1] == '0')
    ensures var r := Reverse(rev);
      && AllDigits(r) && Val(r) == v && |r| <= n
      && (n > 0 ==> NoLeadingZeros(r)) && (n == 0 ==> r == [])
  {
    if |rev| > 0 {
      assert Reverse(rev)[0] == rev[|rev| - 1];
    }
  }

  /**
   * `subtractIntegerStrings`: schoolbook subtraction with a borrow, for a
   * minuend no smaller than the subtrahend. The result is the difference,
   * written without leading zeros ("0" for zero); an empty minuend gives
   * the empty string.
   */
  method SubtractIntegerStrings(a: string, b: string) returns (r: string)
    requires AllDigits(a) && AllDigits(b) && Val(b) <= Val(a)
    ensures AllDigits(r)
    ensures Val(r) == Val(a) - Val(b)
    ensures |r| <= |a|
    ensures |a| > 0 ==> NoLeadingZeros(r)
    ensures |a| == 0 ==> r == []
  {
    var rev: string := [];
    var borrow: nat := 0;
    var i, j := |a| - 1, |b| - 1;
    AppendEmpty(Sub(a, b, i + 1, j + 1, borrow), Reverse(rev));
    while i >= 0
      invariant SubLoop(a, b, i + 1, j + 1, borrow, rev)
    {
      ghost var i0, j0, bw, rev0 := i, j, borrow, rev;
      ghost var x: nat, y: nat := DigitVal(a[i]), if j >= 0 then DigitVal(b[j]) else 0;
      var diff := DigitVal(a[i]) - borrow - (if j >= 0 then DigitVal(b[j]) else 0);
      if diff < 0 {
        diff := diff + 10;
        borrow := 1;
      } else {
        borrow := 0;
      }
      assert diff == DiffDigit(x, y, bw) && borrow == BorrowOut(x, y, bw);
      rev := rev + [DigitChar(diff)];
      i, j := i - 1, j - 1;
      SubLoopStep(a, b, i0 + 1, j0 + 1, bw, rev0, x, y, diff, i + 1, j + 1, borrow, rev);
    }
    SubLoopDone(a, b, i + 1, j + 1, borrow, rev);
    ghost var n, v := |a|, Val(a) - Val(b);
    while |rev| > 1 && rev[|rev| - 1] == '0'
      invariant Popping(n, rev, v)
    {
      PopStep(n, rev, v);
      rev := rev[..|rev| - 1];
    }
    PopDone(n, rev, v);
    r := Reverse(rev);
  }
}
