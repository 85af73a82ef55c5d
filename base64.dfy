/**
 * Standard padded base64 (RFC 4648, section 4) as Go's
 * base64.StdEncoding.Strict().DecodeString reads it: carriage returns and
 * line feeds are skipped anywhere, the padded length must be a multiple of
 * four, '=' may only close the final quantum, and the unused low bits of a
 * padded quantum must be zero (the "strict" part).
 */
module Base64 {

  import opened Common
  import opened Arith

  predicate IsAlphabet(c: char) {
    'A' <= c <= 'Z' || 'a' <= c <= 'z' || '0' <= c <= '9' || c == '+' || c == '/'
  }

  /** The 6-bit value of an alphabet character. */
  function SextetOf(c: char): (v: nat)
    requires IsAlphabet(c)
    ensures v < 64
  {
    if 'A' <= c <= 'Z' then c as int - 'A' as int
    else if 'a' <= c <= 'z' then c as int - 'a' as int + 26
    else if '0' <= c <= '9' then c as int - '0' as int + 52
    else if c == '+' then 62
    else 63
  }

  /** The alphabet character of a 6-bit value; SextetOf undoes it. */
  function CharOf(v: nat): (c: char)
    requires v < 64
    ensures IsAlphabet(c) && SextetOf(c) == v
  {
    if v < 26 then ('A' as int + v) as char
    else if v < 52 then ('a' as int + v - 26) as char
    else if v < 62 then ('0' as int + v - 52) as char
    else if v == 62 then '+'
    else '/'
  }

  lemma CharOfSextetOf(c: char)
    requires IsAlphabet(c)
    ensures CharOf(SextetOf(c)) == c
  {
  }

  // ---- the bit layout of one quantum: three bytes in four sextets ----

  function Sextets(b0: Byte, b1: Byte, b2: Byte): (s: (nat, nat, nat, nat))
    ensures s.0 < 64 && s.1 < 64 && s.2 < 64 && s.3 < 64
  {
    (b0 / 4, (b0 % 4) * 16 + b1 / 16, (b1 % 16) * 4 + b2 / 64, b2 % 64)
  }

  function Octets(s0: nat, s1: nat, s2: nat, s3: nat): (b: (Byte, Byte, Byte))
    requires s0 < 64 && s1 < 64 && s2 < 64 && s3 < 64
  {
    (s0 * 4 + s1 / 16, (s1 % 16) * 16 + s2 / 4, (s2 % 4) * 64 + s3)
  }

  lemma OctetsOfSextets(b0: Byte, b1: Byte, b2: Byte)
    ensures var s := Sextets(b0, b1, b2); Octets(s.0, s.1, s.2, s.3) == (b0, b1, b2)
  {
    var s := Sextets(b0, b1, b2);
    SplitDigit(b0 % 4, b1 / 16, 16);
    SplitDigit(b1 % 16, b2 / 64, 4);
    assert s.1 / 16 == b0 % 4 && s.1 % 16 == b1 / 16;
    assert s.2 / 4 == b1 % 16 && s.2 % 4 == b2 / 64;
    assert s.0 * 4 + s.1 / 16 == b0;
    assert (s.1 % 16) * 16 + s.2 / 4 == b1;
    assert (s.2 % 4) * 64 + s.3 == b2;
  }

  lemma SextetsOfOctets(s0: nat, s1: nat, s2: nat, s3: nat)
    requires s0 < 64 && s1 < 64 && s2 < 64 && s3 < 64
    ensures var b := Octets(s0, s1, s2, s3); Sextets(b.0, b.1, b.2) == (s0, s1, s2, s3)
  {
    var b := Octets(s0, s1, s2, s3);
    SplitDigit(s0, s1 / 16, 4);
    SplitDigit(s1 % 16, s2 / 4, 16);
    SplitDigit(s2 % 4, s3, 64);
    assert s1 == (s1 / 16) * 16 + s1 % 16;
    assert s2 == (s2 / 4) * 4 + s2 % 4;
  }

  // ---- encoding ----

  /** base64.StdEncoding.EncodeToString: full quanta, then a padded tail. */
  function Encode(bs: seq<Byte>): (s: string)
    ensures |s| % 4 == 0
    ensures '\n' !in s && '\r' !in s
    decreases |bs|
  {
    if bs == [] then ""
    else if |bs| == 1 then
      var q := Sextets(bs[0], 0, 0);
      [CharOf(q.0), CharOf(q.1), '=', '=']
    else if |bs| == 2 then
      var q := Sextets(bs[0], bs[1], 0);
      [CharOf(q.0), CharOf(q.1), CharOf(q.2), '=']
    else
      var q := Sextets(bs[0], bs[1], bs[2]);
      var head, rest := [CharOf(q.0), CharOf(q.1), CharOf(q.2), CharOf(q.3)], Encode(bs[3..]);
      assert '\n' !in head && '\r' !in head;
      SplitDigit(|rest| / 4 + 1, 0, 4);
      assert |head + rest| == (|rest| / 4 + 1) * 4;
      head + rest
  }

  // ---- decoding ----

  /** The input with every '\r' and '\n' removed; the decoder skips them wherever they stand. */
  function StripNewlines(s: string): (r: string)
    ensures '\n' !in r && '\r' !in r
    ensures |r| <= |s|
  {
    if s == [] then []
    else if s[0] == '\n' || s[0] == '\r' then StripNewlines(s[1..])
    else [s[0]] + StripNewlines(s[1..])
  }

  /** Decodes text that holds no line breaks; None is Go's CorruptInputError. */
  function DecodeQuanta(s: string): Option<seq<Byte>>
    decreases |s|
  {
    if s == [] then Some([])
    else if |s| < 4 then None
    else if IsAlphabet(s[0]) && IsAlphabet(s[1]) && IsAlphabet(s[2]) && IsAlphabet(s[3]) then
      var b := Octets(SextetOf(s[0]), SextetOf(s[1]), SextetOf(s[2]), SextetOf(s[3]));
      match DecodeQuanta(s[4..])
      case None => None
      case Some(rest) => Some([b.0, b.1, b.2] + rest)
    else if |s| == 4 && IsAlphabet(s[0]) && IsAlphabet(s[1]) && s[2] == '=' && s[3] == '=' then
      // one byte; the low four bits of the second sextet are padding and must be zero
      if SextetOf(s[1]) % 16 != 0 then None
      else Some([Octets(SextetOf(s[0]), SextetOf(s[1]), 0, 0).0])
    else if |s| == 4 && IsAlphabet(s[0]) && IsAlphabet(s[1]) && IsAlphabet(s[2]) && s[3] == '=' then
      // two bytes; the low two bits of the third sextet are padding and must be zero
      if SextetOf(s[2]) % 4 != 0 then None
      else
        var b := Octets(SextetOf(s[0]), SextetOf(s[1]), SextetOf(s[2]), 0);
        Some([b.0, b.1])
    else None
  }

  /**
   * base64.StdEncoding.Strict().DecodeString. Strictness makes the encoding
   * canonical: whatever text decodes, with its line breaks removed, is
   * exactly the encoding of the bytes it decodes to.
   */
  function Decode(s: string): (r: Option<seq<Byte>>)
    ensures r.Some? ==> Encode(r.value) == StripNewlines(s)
  {
    var r := DecodeQuanta(StripNewlines(s));
    if r.Some? then EncodeDecodeQuanta(StripNewlines(s), r.value); r else r
  }

  // ---- the two directions ----

  lemma {:induction false} StripNewlinesOfClean(s: string)
    requires '\n' !in s && '\r' !in s
    ensures StripNewlines(s) == s
  {
    if s != [] {
      StripNewlinesOfClean(s[1..]);
      assert [s[0]] + s[1..] == s;
    }
  }

  /** Line breaks are skipped wherever they stand: a text decodes exactly as it does without them. */
  lemma DecodeSkipsNewlines(s: string)
    ensures Decode(s) == Decode(StripNewlines(s))
  {
    StripNewlinesOfClean(StripNewlines(s));
  }

  /** Every byte sequence survives an encode/decode round trip. */
  lemma {:induction false} DecodeEncode(bs: seq<Byte>)
    ensures Decode(Encode(bs)) == Some(bs)
  {
    StripNewlinesOfClean(Encode(bs));
    DecodeQuantaEncode(bs);
  }

  lemma {:induction false} DecodeQuantaEncode(bs: seq<Byte>)
    ensures DecodeQuanta(Encode(bs)) == Some(bs)
    decreases |bs|
  {
    if |bs| == 1 {
      DecodeOneByteTail(bs[0]);
      assert bs == [bs[0]];
    } else if |bs| == 2 {
      DecodeTwoByteTail(bs[0], bs[1]);
      assert bs == [bs[0], bs[1]];
    } else if |bs| >= 3 {
      DecodeQuantaEncode(bs[3..]);
      DecodeFullQuantum(bs[0], bs[1], bs[2], Encode(bs[3..]));
      assert [bs[0], bs[1], bs[2]] + bs[3..] == bs;
    }
  }

  lemma DecodeOneByteTail(b0: Byte)
    ensures var q := Sextets(b0, 0, 0);
      DecodeQuanta([CharOf(q.0), CharOf(q.1), '=', '=']) == Some([b0])
  {
    OctetsOfSextets(b0, 0, 0);
  }

  lemma DecodeTwoByteTail(b0: Byte, b1: Byte)
    ensures var q := Sextets(b0, b1, 0);
      DecodeQuanta([CharOf(q.0), CharOf(q.1), CharOf(q.2), '=']) == Some([b0, b1])
  {
    var q := Sextets(b0, b1, 0);
    var s := [CharOf(q.0), CharOf(q.1), CharOf(q.2), '='];
    OctetsOfSextets(b0, b1, 0);
    assert q.2 % 4 == 0 && q.3 == 0;
  }

  lemma DecodeFullQuantum(b0: Byte, b1: Byte, b2: Byte, tail: string)
    ensures var q := Sextets(b0, b1, b2);
      DecodeQuanta([CharOf(q.0), CharOf(q.1), CharOf(q.2), CharOf(q.3)] + tail) ==
        match DecodeQuanta(tail)
        case None => None
        case Some(rest) => Some([b0, b1, b2] + rest)
  {
    var q := Sextets(b0, b1, b2);
    var s := [CharOf(q.0), CharOf(q.1), CharOf(q.2), CharOf(q.3)] + tail;
    OctetsOfSextets(b0, b1, b2);
    assert s[4..] == tail;
  }

  lemma {:induction false} EncodeDecodeQuanta(s: string, bs: seq<Byte>)
    requires DecodeQuanta(s) == Some(bs)
    ensures Encode(bs) == s
    decreases |s|
  {
    if s != [] {
      DecodedHasQuantum(s);
      if IsAlphabet(s[0]) && IsAlphabet(s[1]) && IsAlphabet(s[2]) && IsAlphabet(s[3]) {
        var rest := FullQuantumDecoded(s, bs);
        EncodeDecodeQuanta(s[4..], rest);
        FullQuantumCanonical(s, bs, rest);
      } else {
        PaddedQuantumDecoded(s, bs);
        if s[2] == '=' {
          OneByteCanonical(s[0], s[1]);
          assert s == [s[0], s[1], '=', '='];
        } else {
          TwoByteCanonical(s[0], s[1], s[2]);
          assert s == [s[0], s[1], s[2], '='];
        }
      }
    }
  }

  /** A full quantum followed by canonical text re-encodes to itself. */
  lemma FullQuantumCanonical(s: string, bs: seq<Byte>, rest: seq<Byte>)
    requires |s| >= 4 && IsAlphabet(s[0]) && IsAlphabet(s[1]) && IsAlphabet(s[2]) && IsAlphabet(s[3])
    requires var b := Octets(SextetOf(s[0]), SextetOf(s[1]), SextetOf(s[2]), SextetOf(s[3]));
      |bs| >= 3 && bs[0] == b.0 && bs[1] == b.1 && bs[2] == b.2 && bs[3..] == rest
    requires Encode(rest) == s[4..]
    ensures Encode(bs) == s
  {
    var b := Octets(SextetOf(s[0]), SextetOf(s[1]), SextetOf(s[2]), SextetOf(s[3]));
    var q := Sextets(b.0, b.1, b.2);
    QuantumCanonical(s[0], s[1], s[2], s[3]);
    assert Sextets(bs[0], bs[1], bs[2]) == q;
    EncodeFullQuantum(bs);
    assert Encode(bs) == [s[0], s[1], s[2], s[3]] + Encode(rest);
    FirstQuantum(s);
  }

  /** A text of at least four characters is its first quantum followed by the rest. */
  lemma FirstQuantum(s: string)
    requires |s| >= 4
    ensures s == [s[0], s[1], s[2], s[3]] + s[4..]
  {
    assert s[..4] == [s[0], s[1], s[2], s[3]];
    assert s == s[..4] + s[4..];
  }

  /** A non-empty text that decodes holds at least one quantum. */
  lemma DecodedHasQuantum(s: string)
    requires DecodeQuanta(s).Some? && s != []
    ensures |s| >= 4
  {
  }

  /** A decoded text that does not open with a full quantum is a single padded quantum with zero padding bits. */
  lemma PaddedQuantumDecoded(s: string, bs: seq<Byte>)
    requires DecodeQuanta(s) == Some(bs) && |s| >= 4
    requires !(IsAlphabet(s[0]) && IsAlphabet(s[1]) && IsAlphabet(s[2]) && IsAlphabet(s[3]))
    ensures |s| == 4 && IsAlphabet(s[0]) && IsAlphabet(s[1]) && s[3] == '='
    ensures s[2] == '=' ==> SextetOf(s[1]) % 16 == 0 && bs == [Octets(SextetOf(s[0]), SextetOf(s[1]), 0, 0).0]
    ensures s[2] != '=' ==>
      (IsAlphabet(s[2]) && SextetOf(s[2]) % 4 == 0 &&
       var b := Octets(SextetOf(s[0]), SextetOf(s[1]), SextetOf(s[2]), 0); bs == [b.0, b.1])
  {
  }

  /** A decoded text that opens with a full quantum: its three bytes, then what the rest decodes to. */
  lemma FullQuantumDecoded(s: string, bs: seq<Byte>) returns (rest: seq<Byte>)
    requires DecodeQuanta(s) == Some(bs)
    requires |s| >= 4 && IsAlphabet(s[0]) && IsAlphabet(s[1]) && IsAlphabet(s[2]) && IsAlphabet(s[3])
    ensures DecodeQuanta(s[4..]) == Some(rest)
    ensures var b := Octets(SextetOf(s[0]), SextetOf(s[1]), SextetOf(s[2]), SextetOf(s[3]));
      |bs| >= 3 && bs[0] == b.0 && bs[1] == b.1 && bs[2] == b.2 && bs[3..] == rest
  {
    rest := DecodeQuanta(s[4..]).value;
  }

  lemma EncodeFullQuantum(bs: seq<Byte>)
    requires |bs| >= 3
    ensures var q := Sextets(bs[0], bs[1], bs[2]);
      Encode(bs) == [CharOf(q.0), CharOf(q.1), CharOf(q.2), CharOf(q.3)] + Encode(bs[3..])
  {
  }

  lemma QuantumCanonical(c0: char, c1: char, c2: char, c3: char)
    requires IsAlphabet(c0) && IsAlphabet(c1) && IsAlphabet(c2) && IsAlphabet(c3)
    ensures var b := Octets(SextetOf(c0), SextetOf(c1), SextetOf(c2), SextetOf(c3));
      var q := Sextets(b.0, b.1, b.2);
      [CharOf(q.0), CharOf(q.1), CharOf(q.2), CharOf(q.3)] == [c0, c1, c2, c3]
  {
    SextetsOfOctets(SextetOf(c0), SextetOf(c1), SextetOf(c2), SextetOf(c3));
    CharOfSextetOf(c0);
    CharOfSextetOf(c1);
    CharOfSextetOf(c2);
    CharOfSextetOf(c3);
  }

  lemma OneByteCanonical(c0: char, c1: char)
    requires IsAlphabet(c0) && IsAlphabet(c1) && SextetOf(c1) % 16 == 0
    ensures Encode([Octets(SextetOf(c0), SextetOf(c1), 0, 0).0]) == [c0, c1, '=', '=']
  {
    var b := Octets(SextetOf(c0), SextetOf(c1), 0, 0);
    SextetsOfOctets(SextetOf(c0), SextetOf(c1), 0, 0);
    assert b.1 == 0 && b.2 == 0;
    CharOfSextetOf(c0);
    CharOfSextetOf(c1);
  }

  lemma TwoByteCanonical(c0: char, c1: char, c2: char)
    requires IsAlphabet(c0) && IsAlphabet(c1) && IsAlphabet(c2) && SextetOf(c2) % 4 == 0
    ensures var b := Octets(SextetOf(c0), SextetOf(c1), SextetOf(c2), 0);
      Encode([b.0, b.1]) == [c0, c1, c2, '=']
  {
    var b := Octets(SextetOf(c0), SextetOf(c1), SextetOf(c2), 0);
    SextetsOfOctets(SextetOf(c0), SextetOf(c1), SextetOf(c2), 0);
    assert b.2 == 0;
    CharOfSextetOf(c0);
    CharOfSextetOf(c1);
    CharOfSextetOf(c2);
  }

  /** A character outside the alphabet, '=' and the line breaks is always rejected. */
  lemma {:induction false} ForeignCharacterRejected(s: string, k: nat)
    requires k < |s|
    requires !IsAlphabet(s[k]) && s[k] != '=' && s[k] != '\n' && s[k] != '\r'
    ensures Decode(s) == None
  {
    var clean := StripNewlines(s);
    ForeignCharacterKept(s, k);
    ForeignCharacterFails(clean);
  }

  lemma {:induction false} ForeignCharacterKept(s: string, k: nat)
    requires k < |s|
    requires s[k] != '\n' && s[k] != '\r'
    ensures s[k] in StripNewlines(s)
  {
    if k > 0 {
      ForeignCharacterKept(s[1..], k - 1);
    }
  }

  lemma {:induction false} ForeignCharacterFails(s: string)
    requires exists c :: c in s && !IsAlphabet(c) && c != '='
    ensures DecodeQuanta(s) == None
    decreases |s|
  {
    if |s| >= 4 && IsAlphabet(s[0]) && IsAlphabet(s[1]) && IsAlphabet(s[2]) && IsAlphabet(s[3]) {
      var c :| c in s && !IsAlphabet(c) && c != '=';
      assert s == s[..4] + s[4..];
      assert c in s[4..];
      ForeignCharacterFails(s[4..]);
    }
  }
}
