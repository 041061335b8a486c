/** Fixed-width lowercase hexadecimal text, as an `ostream` writes a number
    with `std::hex << std::setw(w) << std::setfill('0')` when the number has
    at most `w` hex digits, and the reading back that shows the text loses
    nothing. Both hash encoders of the ledger are built from this. */
module Hex {

  /** One byte of a digest, as `(int)hash[i]` reads an `unsigned char`. */
  type Byte = x: nat | x < 256

  predicate IsHexDigit(c: char) {
    '0' <= c <= '9' || 'a' <= c <= 'f'
  }

  predicate IsHex(s: string) {
    forall i :: 0 <= i < |s| ==> IsHexDigit(s[i])
  }

  function HexDigit(v: nat): (c: char)
    requires v < 16
    ensures IsHexDigit(c) && HexValue(c) == v
  {
    "0123456789abcdef"[v]
  }

  function HexValue(c: char): nat
    requires IsHexDigit(c)
  {
    if c <= '9' then (c as int - '0' as int) as nat else (c as int - 'a' as int + 10) as nat
  }

  function Pow16(w: nat): (p: nat)
    ensures p > 0
  {
    if w == 0 then 1 else 16 * Pow16(w - 1)
  }

  /** The value of a hex string, most significant digit first. */
  function ParseHex(s: string): nat
    requires IsHex(s)
  {
    if s == [] then 0 else ParseHex(s[..|s| - 1]) * 16 + HexValue(s[|s| - 1])
  }

  /** `v` written with exactly `width` lowercase hex digits, zero-padded on
      the left; reading the text back gives `v`. */
  function ToHexFixed(v: nat, width: nat): (r: string)
    requires v < Pow16(width)
    ensures |r| == width && IsHex(r)
    ensures ParseHex(r) == v
  {
    if width == 0 then ""
    else
      var prefix := ToHexFixed(v / 16, width - 1);
      var r := prefix + [HexDigit(v % 16)];
      assert r[..|r| - 1] == prefix;
      r
  }

  /** The other direction: every hex string of width `w` is the text of
      exactly one value below 16^w. */
  lemma {:induction false} HexTextRoundTrip(s: string)
    requires IsHex(s)
    ensures ParseHex(s) < Pow16(|s|)
    ensures ToHexFixed(ParseHex(s), |s|) == s
  {
    if s != [] {
      var prefix := s[..|s| - 1];
      HexTextRoundTrip(prefix);
      var v := ParseHex(s);
      assert v / 16 == ParseHex(prefix) && v % 16 == HexValue(s[|s| - 1]);
      assert s == prefix + [s[|s| - 1]];
    }
  }

  /** Zero is written as `width` '0' digits. */
  lemma {:induction false} ZeroHexText(width: nat)
    ensures forall i :: 0 <= i < width ==> ToHexFixed(0, width)[i] == '0'
  {
    if width > 0 {
      ZeroHexText(width - 1);
    }
  }

  /** Two hex digits per byte, in order: the loop of the UTXO transaction id
      encoder written as a function of the digest. */
  function DigestToHex(d: seq<Byte>): (r: string)
    ensures |r| == 2 * |d| && IsHex(r)
    ensures HexToBytes(r) == d
  {
    if d == [] then ""
    else
      var prefix := DigestToHex(d[..|d| - 1]);
      var r := prefix + ToHexFixed(d[|d| - 1], 2);
      assert r[..|r| - 2] == prefix;
      assert d == d[..|d| - 1] + [d[|d| - 1]];
      r
  }

  /** Reads back two hex digits per byte. */
  function HexToBytes(s: string): seq<Byte>
    requires IsHex(s) && |s| % 2 == 0
  {
    if s == [] then []
    else
      var last := ParseHex(s[|s| - 2..]);
      HexTextRoundTrip(s[|s| - 2..]);
      HexToBytes(s[..|s| - 2]) + [last]
  }
}
