/** Decimal numerals: the zero-padded fields Go's time formatting writes, and
    the two integer parsers the handlers use on form values (strconv.Atoi
    for items, fmt.Sscanf with "%d" for task rewards). */
module Numerals {
  import opened Outcomes
  import Text

  const MinInt64: int := -0x8000_0000_0000_0000
  const MaxInt64: int := 0x7fff_ffff_ffff_ffff

  predicate IsDigit(c: char) { '0' <= c <= '9' }

  predicate AllDigits(s: string) { forall i :: 0 <= i < |s| ==> IsDigit(s[i]) }

  function DigitChar(d: nat): (c: char)
    requires d < 10
    ensures IsDigit(c)
  {
    ('0' as int + d) as char
  }

  function DigitValue(c: char): (d: nat)
    requires IsDigit(c)
    ensures d < 10 && DigitChar(d) == c
  {
    c as int - '0' as int
  }

  function Pow10(w: nat): (p: nat)
    ensures p >= 1
  {
    if w == 0 then 1 else 10 * Pow10(w - 1)
  }

  /** The decimal digits of n, zero-padded on the left to at least w
      characters (Go's appendInt(b, n, w) as used by time.Format). */
  function Digits(n: nat, w: nat): (s: string)
    ensures |s| >= 1 && AllDigits(s)
    decreases n + w
  {
    if n < 10 && w <= 1 then [DigitChar(n)]
    else Digits(n / 10, if w == 0 then 0 else w - 1) + [DigitChar(n % 10)]
  }

  /** The value of a string of decimal digits. */
  function Num(s: string): (n: nat)
    requires AllDigits(s)
    ensures n < Pow10(|s|)
  {
    if |s| == 0 then 0 else 10 * Num(s[..|s| - 1]) + DigitValue(s[|s| - 1])
  }

  /** A number below 10^w is written in exactly w digits. */
  lemma {:induction false} DigitsWidth(n: nat, w: nat)
    requires w >= 1 && n < Pow10(w)
    ensures |Digits(n, w)| == w
    decreases w
  {
    if !(n < 10 && w <= 1) {
      assert w >= 2;
      DigitsWidth(n / 10, w - 1);
    }
  }

  /** Reading back a formatted number gives the number. */
  lemma {:induction false} NumDigits(n: nat, w: nat)
    ensures Num(Digits(n, w)) == n
    decreases n + w
  {
    if !(n < 10 && w <= 1) {
      var w' := if w == 0 then 0 else w - 1;
      var s := Digits(n, w);
      NumDigits(n / 10, w');
      assert s[..|s| - 1] == Digits(n / 10, w');
    }
  }

  /** Formatting a digit string's value at its own width gives it back. */
  lemma {:induction false} DigitsNum(s: string)
    requires |s| >= 1 && AllDigits(s)
    ensures Digits(Num(s), |s|) == s
    decreases |s|
  {
    var init, last := s[..|s| - 1], s[|s| - 1];
    var n := Num(s);
    assert n / 10 == Num(init) && n % 10 == DigitValue(last);
    if |s| == 1 {
      assert Num(init) == 0;
      assert s == [last];
    } else {
      DigitsNum(init);
      assert Digits(n, |s|) == Digits(Num(init), |s| - 1) + [DigitChar(DigitValue(last))];
      assert s == init + [last];
    }
  }

  /** Equal-width numerals compare as text exactly as their values compare
      as numbers. */
  lemma {:induction false} DigitsOrder(n: nat, m: nat, w: nat)
    requires w >= 1 && n < Pow10(w) && m < Pow10(w)
    ensures Text.Less(Digits(n, w), Digits(m, w)) <==> n < m
    decreases w
  {
    if w == 1 {
      assert Pow10(1) == 10;
      assert Digits(n, w) == [DigitChar(n)] && Digits(m, w) == [DigitChar(m)];
      DigitLess(n, m);
    } else {
      HeadBelow(n, w);
      HeadBelow(m, w);
      DigitsWidth(n / 10, w - 1);
      DigitsWidth(m / 10, w - 1);
      DigitsOrder(n / 10, m / 10, w - 1);
      var hn, hm := Digits(n / 10, w - 1), Digits(m / 10, w - 1);
      var ln, lm := [DigitChar(n % 10)], [DigitChar(m % 10)];
      assert Digits(n, w) == hn + ln && Digits(m, w) == hm + lm;
      Text.LessAppend(hn, hm, ln, lm);
      DigitLess(n % 10, m % 10);
      if hn == hm {
        NumDigits(n / 10, w - 1);
        NumDigits(m / 10, w - 1);
      }
      QuotientOrder(n, m);
    }
  }

  /** One-digit numerals compare as their digits. */
  lemma DigitLess(a: nat, b: nat)
    requires a < 10 && b < 10
    ensures Text.Less([DigitChar(a)], [DigitChar(b)]) <==> a < b
  {
    assert [DigitChar(a)][1..] == [] && [DigitChar(b)][1..] == [];
  }

  /** Dropping the last digit of a w-digit number leaves a (w-1)-digit one. */
  lemma HeadBelow(n: nat, w: nat)
    requires w >= 2 && n < Pow10(w)
    ensures n / 10 < Pow10(w - 1)
  {
    assert Pow10(w) == 10 * Pow10(w - 1);
  }

  /** Numbers compare by all but their last digit first, then by it. */
  lemma QuotientOrder(n: nat, m: nat)
    ensures n / 10 < m / 10 ==> n < m
    ensures n / 10 == m / 10 ==> (n < m <==> n % 10 < m % 10)
  {
  }

  /** Equal-width numerals are equal exactly when their values are. */
  lemma DigitsInjective(n: nat, m: nat, w: nat)
    requires Digits(n, w) == Digits(m, w)
    ensures n == m
  {
    NumDigits(n, w);
    NumDigits(m, w);
  }

  function CheckRange(v: int): (r: Option<int>)
    ensures r.Some? <==> MinInt64 <= v <= MaxInt64
    ensures r.Some? ==> r.value == v
  {
    if MinInt64 <= v <= MaxInt64 then Some(v) else None
  }

  /** strconv.Atoi on a 64-bit platform: an optional sign, then one or more
      decimal digits and nothing else, within the range of int. */
  function Atoi(s: string): (r: Option<int>)
    ensures r.Some? ==> MinInt64 <= r.value <= MaxInt64
  {
    if |s| == 0 then None
    else if s[0] == '+' || s[0] == '-' then
      if |s| >= 2 && AllDigits(s[1..]) then
        var v: int := Num(s[1..]);
        CheckRange(if s[0] == '-' then -v else v)
      else None
    else if AllDigits(s) then CheckRange(Num(s))
    else None
  }

  /** Atoi accepts the plain decimal numeral of every int it can return. */
  lemma AtoiDigits(n: nat)
    requires n <= MaxInt64
    ensures Atoi(Digits(n, 1)) == Some(n)
  {
    var s := Digits(n, 1);
    NumDigits(n, 1);
    assert IsDigit(s[0]);
  }

  /** strconv.Itoa: a minus sign for a negative number, then its digits. */
  function Itoa(i: int): (s: string)
    ensures |s| >= 1 && (s[0] == '-' <==> i < 0)
  {
    if i < 0 then "-" + Digits(-i, 1) else Digits(i, 1)
  }

  /** Atoi reads back the numeral of every int, negative ones included. */
  lemma AtoiItoa(i: int)
    requires MinInt64 <= i <= MaxInt64
    ensures Atoi(Itoa(i)) == Some(i)
  {
    if i < 0 {
      AtoiMinus(-i);
    } else {
      AtoiDigits(i);
    }
  }

  lemma AtoiMinus(n: int)
    requires 1 <= n <= -MinInt64
    ensures Atoi("-" + Digits(n, 1)) == Some(-n)
  {
    var d := Digits(n, 1);
    var s := "-" + d;
    assert s[0] == '-' && |s| >= 2;
    assert s[1..] == d;
    NumDigits(n, 1);
    assert Num(s[1..]) == n;
    assert CheckRange(-n) == Some(-n);
  }

  /** The white space fmt skips before a number (its isSpace table),
      newline excepted: Sscanf fails on a newline there. */
  predicate IsScanSpace(c: char)
  {
    var u := c as int;
    (0x09 <= u <= 0x0d && u != 0x0a) || u == 0x20 || u == 0x85 || u == 0xa0 || u == 0x1680
    || (0x2000 <= u <= 0x200a) || u == 0x2028 || u == 0x2029 || u == 0x202f || u == 0x205f
    || u == 0x3000
  }

  /** The length of the leading run of decimal digits of s. */
  function DigitRun(s: string): (k: nat)
    ensures k <= |s| && AllDigits(s[..k]) && (k < |s| ==> !IsDigit(s[k]))
  {
    if |s| == 0 || !IsDigit(s[0]) then 0
    else
      var k := 1 + DigitRun(s[1..]);
      assert s[..k] == [s[0]] + s[1..][..k - 1];
      k
  }

  /** fmt.Sscanf(s, "%d", &v) with v an int: skip white space, read an
      optional sign and a run of digits, and ignore whatever follows. */
  function ScanInt(s: string): (r: Option<int>)
    ensures r.Some? ==> MinInt64 <= r.value <= MaxInt64
  {
    if |s| > 0 && IsScanSpace(s[0]) then ScanInt(s[1..])
    else
      var signed := |s| > 0 && (s[0] == '+' || s[0] == '-');
      var body := if signed then s[1..] else s;
      var k := DigitRun(body);
      if k == 0 then None
      else
        var v: int := Num(body[..k]);
        CheckRange(if signed && s[0] == '-' then -v else v)
  }

  /** Sscanf reads the decimal numeral of every int, whatever text follows
      it that does not start with a digit. */
  lemma ScanIntDigits(n: nat, rest: string)
    requires n <= MaxInt64
    requires |rest| == 0 || !IsDigit(rest[0])
    ensures ScanInt(Digits(n, 1) + rest) == Some(n)
  {
    var d := Digits(n, 1);
    var s := d + rest;
    NumDigits(n, 1);
    assert IsDigit(s[0]) && !IsScanSpace(s[0]);
    assert s[..|d|] == d;
    DigitRunOf(d, rest);
  }

  lemma {:induction false} DigitRunOf(d: string, rest: string)
    requires AllDigits(d)
    requires |rest| == 0 || !IsDigit(rest[0])
    ensures DigitRun(d + rest) == |d|
    decreases |d|
  {
    if |d| > 0 {
      assert (d + rest)[1..] == d[1..] + rest;
      DigitRunOf(d[1..], rest);
    } else {
      assert d + rest == rest;
    }
  }
}
