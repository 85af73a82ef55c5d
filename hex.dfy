/**
 * Lower-case hexadecimal encoding of byte buffers (Go's hex.EncodeToString),
 * with the decoder that undoes it.
 */
module Hex {

  import opened Common

  predicate IsLowerHex(c: char) {
    '0' <= c <= '9' || 'a' <= c <= 'f'
  }

  predicate AllLowerHex(s: string) {
    forall k :: 0 <= k < |s| ==> IsLowerHex(s[k])
  }

  function HexDigit(v: nat): (c: char)
    requires v < 16
    ensures IsLowerHex(c)
  {
    if v < 10 then ('0' as int + v) as char else ('a' as int + v - 10) as char
  }

  function HexValue(c: char): (v: nat)
    requires IsLowerHex(c)
    ensures v < 16 && HexDigit(v) == c
  {
    if c <= '9' then c as int - '0' as int else c as int - 'a' as int + 10
  }

  /** Two characters per byte, high nibble first. */
  function HexEncode(bs: seq<Byte>): (s: string)
    ensures |s| == 2 * |bs|
    ensures AllLowerHex(s)
    ensures forall i :: 0 <= i < |bs| ==> s[2 * i] == HexDigit(bs[i] / 16) && s[2 * i + 1] == HexDigit(bs[i] % 16)
  {
    if bs == [] then []
    else [HexDigit(bs[0] / 16), HexDigit(bs[0] % 16)] + HexEncode(bs[1..])
  }

  /** hex.DecodeString restricted to lower case: None on odd length or a non-hex character. */
  function HexDecode(s: string): Option<seq<Byte>>
    decreases |s|
  {
    if s == [] then Some([])
    else if |s| < 2 || !IsLowerHex(s[0]) || !IsLowerHex(s[1]) then None
    else match HexDecode(s[2..])
      case None => None
      case Some(rest) => Some([HexValue(s[0]) * 16 + HexValue(s[1])] + rest)
  }

  /** Decoding an encoding gives the bytes back: no two buffers share a token. */
  lemma {:induction false} HexRoundTrip(bs: seq<Byte>)
    ensures HexDecode(HexEncode(bs)) == Some(bs)
  {
    if bs != [] {
      var s := HexEncode(bs);
      assert s == [HexDigit(bs[0] / 16), HexDigit(bs[0] % 16)] + HexEncode(bs[1..]);
      assert s[2..] == HexEncode(bs[1..]);
      HexRoundTrip(bs[1..]);
      HexValueOfDigit(bs[0] / 16);
      HexValueOfDigit(bs[0] % 16);
      assert HexValue(s[0]) * 16 + HexValue(s[1]) == bs[0];
      assert HexDecode(s) == Some([bs[0]] + bs[1..]);
      assert [bs[0]] + bs[1..] == bs;
    }
  }

  lemma HexValueOfDigit(v: nat)
    requires v < 16
    ensures HexValue(HexDigit(v)) == v
  {
  }

  /** Encoding is injective, so distinct random buffers give distinct strings. */
  lemma HexEncodeInjective(a: seq<Byte>, b: seq<Byte>)
    requires HexEncode(a) == HexEncode(b)
    ensures a == b
  {
    HexRoundTrip(a);
    HexRoundTrip(b);
  }
}
