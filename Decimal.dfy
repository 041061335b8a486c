/** Decimal text of integers, as `std::to_string(int)` and `operator<<` on an
    integer write it: an optional '-' followed by the digits of the magnitude,
    without leading zeros. The parsing half is not in the C++ code; it is the
    partner that shows the text determines the number, which is what makes the
    UTXO key and the transaction text unambiguous. */
module Decimal {

  import opened Options

  predicate IsDigit(c: char) {
    '0' <= c <= '9'
  }

  function DigitChar(d: nat): (c: char)
    requires d < 10
    ensures IsDigit(c) && DigitValue(c) == d
  {
    ['0', '1', '2', '3', '4', '5', '6', '7', '8', '9'][d]
  }

  function DigitValue(c: char): nat
    requires IsDigit(c)
  {
    (c as int - '0' as int) as nat
  }

  /** The smaller of two naturals, as `substr` clamps a length to what is
      left of the string. */
  function Min(a: nat, b: nat): (m: nat)
    ensures m <= a && m <= b && (m == a || m == b)
  {
    if a <= b then a else b
  }

  /** The digits of `n`, most significant first. */
  function NatToDecimal(n: nat): (r: string)
    ensures |r| > 0
    ensures forall i :: 0 <= i < |r| ==> IsDigit(r[i])
    ensures ParseNat(r) == n
    decreases n
  {
    if n < 10 then [DigitChar(n)]
    else
      var prefix := NatToDecimal(n / 10);
      var r := prefix + [DigitChar(n % 10)];
      assert r[..|r| - 1] == prefix;
      r
  }

  /** The value of a string of digits, read most significant first. */
  function ParseNat(s: string): nat
    requires forall i :: 0 <= i < |s| ==> IsDigit(s[i])
  {
    if s == [] then 0 else ParseNat(s[..|s| - 1]) * 10 + DigitValue(s[|s| - 1])
  }

  /** `std::to_string(i)` for an integer `i`. */
  function IntToDecimal(i: int): (r: string)
    ensures |r| > 0
    ensures forall k :: 0 <= k < |r| ==> r[k] == '-' || IsDigit(r[k])
    ensures ParseInt(r) == i
  {
    var digits := NatToDecimal(if i < 0 then -i else i);
    ParseDigitsOfDigits(digits);
    if i < 0 then
      var r := "-" + digits;
      assert r[1..] == digits;
      r
    else digits
  }

  /** Reads the text `IntToDecimal` writes; any other character counts as 0. */
  function ParseInt(s: string): int {
    if |s| > 0 && s[0] == '-' then -(ParseDigits(s[1..]) as int) else ParseDigits(s)
  }

  /** `ParseNat` extended to every string, so that `ParseInt` is total. */
  function ParseDigits(s: string): nat {
    if s == [] then 0
    else ParseDigits(s[..|s| - 1]) * 10 + (if IsDigit(s[|s| - 1]) then DigitValue(s[|s| - 1]) else 0)
  }

  lemma {:induction false} ParseDigitsOfDigits(s: string)
    requires forall i :: 0 <= i < |s| ==> IsDigit(s[i])
    ensures ParseDigits(s) == ParseNat(s)
  {
    if s != [] {
      ParseDigitsOfDigits(s[..|s| - 1]);
    }
  }

  /** The position of the last occurrence of `c` in `s`, if any. */
  function LastIndexOf(s: string, c: char): (r: Option<nat>)
    ensures r.Some? ==> r.value < |s| && s[r.value] == c && c !in s[r.value + 1..]
    ensures r.None? ==> c !in s
  {
    if s == [] then None
    else if s[|s| - 1] == c then Some(|s| - 1)
    else
      var r := LastIndexOf(s[..|s| - 1], c);
      assert r.Some? ==> s[r.value + 1..] == s[..|s| - 1][r.value + 1..] + [s[|s| - 1]];
      assert r.None? ==> s == s[..|s| - 1] + [s[|s| - 1]];
      r
  }

  /** A separator that the decimal text of an integer never contains. */
  predicate NotInDecimal(sep: char) {
    sep != '-' && !IsDigit(sep)
  }

  /** Characters appended after the last `c` do not move it. */
  lemma {:induction false} LastIndexOfSkips(x: string, y: string, c: char)
    requires c !in y
    ensures LastIndexOf(x + y, c) == LastIndexOf(x, c)
  {
    if y == [] {
      assert x + y == x;
    } else {
      var xy := x + y;
      assert xy[|xy| - 1] == y[|y| - 1];
      assert xy[..|xy| - 1] == x + y[..|y| - 1];
      LastIndexOfSkips(x, y[..|y| - 1], c);
    }
  }

  /** Text ending in `sep` followed by a decimal integer is split at that `sep`
      by `LastIndexOf`, whatever the text before it contains. */
  lemma LastSeparatorBeforeDecimal(p: string, sep: char, i: int)
    requires NotInDecimal(sep)
    ensures LastIndexOf(p + [sep] + IntToDecimal(i), sep) == Some(|p|)
  {
    var d := IntToDecimal(i);
    assert forall k :: 0 <= k < |d| ==> d[k] != sep;
    LastIndexOfSkips(p + [sep], d, sep);
  }

  /** The integer after the last `sep` of `s`, if `s` contains `sep`. */
  function TrailingInt(s: string, sep: char): Option<int> {
    match LastIndexOf(s, sep)
    case None => None
    case Some(p) => Some(ParseInt(s[p + 1..]))
  }

  lemma TrailingIntRoundTrip(p: string, sep: char, i: int)
    requires NotInDecimal(sep)
    ensures TrailingInt(p + [sep] + IntToDecimal(i), sep) == Some(i)
  {
    var s := p + [sep] + IntToDecimal(i);
    LastSeparatorBeforeDecimal(p, sep, i);
    assert s[|p| + 1..] == IntToDecimal(i);
  }
}
