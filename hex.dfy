/**
 * Lower-case hexadecimal rendering of a byte string (what a Node.js
 * `Buffer` produces for `toString('hex')`) and a strict decoder for it.
 */
module Hex {
  import opened Wrappers

  type byte = x: int | 0 <= x < 256

  predicate IsLowerHexChar(c: char) {
    '0' <= c <= '9' || 'a' <= c <= 'f'
  }

  predicate IsLowerHex(s: string) {
    forall k :: 0 <= k < |s| ==> IsLowerHexChar(s[k])
  }

  /** The lower-case hex digit of a nibble. */
  function HexDigit(d: nat): (c: char)
    requires d < 16
    ensures IsLowerHexChar(c)
  {
    if d < 10 then ('0' as int + d) as char else ('a' as int + d - 10) as char
  }

  /** The nibble a hex digit stands for; either case is accepted. */
  function HexValue(c: char): (r: Option<nat>)
    ensures r.Some? <==> (IsLowerHexChar(c) || 'A' <= c <= 'F')
    ensures r.Some? ==> r.value < 16
  {
    if '0' <= c <= '9' then Some(c as int - '0' as int)
    else if 'a' <= c <= 'f' then Some(c as int - 'a' as int + 10)
    else if 'A' <= c <= 'F' then Some(c as int - 'A' as int + 10)
    else None
  }

  /** Two digits per byte, high nibble first. */
  function HexEncode(bytes: seq<byte>): (s: string)
    ensures |s| == 2 * |bytes|
    ensures IsLowerHex(s)
  {
    if |bytes| == 0 then []
    else [HexDigit(bytes[0] / 16), HexDigit(bytes[0] % 16)] + HexEncode(bytes[1..])
  }

  /** Decodes pairs of hex digits; an odd length or a non-hex character is an error. */
  function HexDecode(s: string): (r: Option<seq<byte>>)
    ensures r.Some? ==> |s| == 2 * |r.value|
    decreases |s|
  {
    if |s| == 0 then Some([])
    else if |s| == 1 then None
    else match (HexValue(s[0]), HexValue(s[1]), HexDecode(s[2..]))
      case (Some(hi), Some(lo), Some(rest)) => Some([hi * 16 + lo] + rest)
      case _ => None
  }

  lemma HexValueOfDigit(d: nat)
    requires d < 16
    ensures HexValue(HexDigit(d)) == Some(d)
  {
  }

  lemma DigitOfHexValue(c: char)
    requires IsLowerHexChar(c)
    ensures HexDigit(HexValue(c).value) == c
  {
  }

  /** Decoding the rendering of a byte string returns that byte string. */
  lemma {:induction false} HexRoundTrip(bytes: seq<byte>)
    ensures HexDecode(HexEncode(bytes)) == Some(bytes)
  {
    if |bytes| > 0 {
      var b := bytes[0];
      var s := HexEncode(bytes);
      assert s[0] == HexDigit(b / 16) && s[1] == HexDigit(b % 16);
      assert s[2..] == HexEncode(bytes[1..]);
      HexValueOfDigit(b / 16);
      HexValueOfDigit(b % 16);
      HexRoundTrip(bytes[1..]);
      assert [b / 16 * 16 + b % 16] + bytes[1..] == bytes;
    }
  }

  /** Conversely, a lower-case hex string that decodes is the rendering of what it decodes to. */
  lemma {:induction false} HexEncodeOfDecode(s: string)
    requires IsLowerHex(s)
    requires HexDecode(s).Some?
    ensures HexEncode(HexDecode(s).value) == s
    decreases |s|
  {
    if |s| > 0 {
      var hi, lo := HexValue(s[0]).value, HexValue(s[1]).value;
      var b := hi * 16 + lo;
      assert b / 16 == hi && b % 16 == lo;
      DigitOfHexValue(s[0]);
      DigitOfHexValue(s[1]);
      assert IsLowerHex(s[2..]);
      HexEncodeOfDecode(s[2..]);
      assert s == [s[0], s[1]] + s[2..];
    }
  }
}
