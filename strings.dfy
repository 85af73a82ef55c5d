/**
 * The two string normalisations the upload handler applies to the declared
 * MIME type: Go's strings.TrimSpace and strings.ToLower, over Unicode
 * scalar values.
 */
module Strings {

  /** Go's unicode.IsSpace: the Latin-1 spaces and the other White_Space runes. */
  predicate IsSpace(c: char) {
    c == '\t' || c == '\n' || c == '\U{B}' || c == '\U{C}' || c == '\r' || c == ' ' ||
    c == '\U{85}' || c == '\U{A0}' || c == '\U{1680}' ||
    ('\U{2000}' <= c <= '\U{200A}') ||
    c == '\U{2028}' || c == '\U{2029}' || c == '\U{202F}' || c == '\U{205F}' || c == '\U{3000}'
  }

  predicate AllSpace(s: string) {
    forall k :: 0 <= k < |s| ==> IsSpace(s[k])
  }

  /** Drops the leading spaces: the result is a suffix of `s` that does not start with a space. */
  function TrimLeft(s: string): (r: string)
    ensures |r| <= |s| && r == s[|s| - |r|..]
    ensures AllSpace(s[..|s| - |r|])
    ensures r == [] || !IsSpace(r[0])
    decreases |s|
  {
    if s != [] && IsSpace(s[0]) then
      var r := TrimLeft(s[1..]);
      SpacePrefixGrows(s, |r|);
      r
    else s
  }

  lemma SpacePrefixGrows(s: string, n: nat)
    requires s != [] && IsSpace(s[0]) && n <= |s| - 1
    requires AllSpace(s[1..][..|s| - 1 - n])
    ensures AllSpace(s[..|s| - n]) && s[1..][|s| - 1 - n..] == s[|s| - n..]
  {
    var lead, tail := s[..|s| - n], s[1..][..|s| - 1 - n];
    forall k | 0 <= k < |lead| ensures IsSpace(lead[k]) {
      if k > 0 {
        assert lead[k] == tail[k - 1];
      }
    }
  }

  /** Drops the trailing spaces: the result is a prefix of `s` that does not end with a space. */
  function TrimRight(s: string): (r: string)
    ensures |r| <= |s| && r == s[..|r|]
    ensures AllSpace(s[|r|..])
    ensures r == [] || !IsSpace(r[|r| - 1])
    decreases |s|
  {
    if s != [] && IsSpace(s[|s| - 1]) then
      var r := TrimRight(s[..|s| - 1]);
      SpaceSuffixGrows(s, |r|);
      r
    else s
  }

  lemma SpaceSuffixGrows(s: string, n: nat)
    requires s != [] && IsSpace(s[|s| - 1]) && n <= |s| - 1
    requires AllSpace(s[..|s| - 1][n..])
    ensures AllSpace(s[n..]) && s[..|s| - 1][..n] == s[..n]
  {
    forall k | 0 <= k < |s| - n ensures IsSpace(s[n..][k]) {
      if k < |s| - 1 - n {
        assert s[n..][k] == s[..|s| - 1][n..][k];
      }
    }
  }

  /**
   * strings.TrimSpace: what is left neither starts nor ends with a space,
   * and nothing is left exactly when the text is all spaces.
   */
  function TrimSpace(s: string): (r: string)
    ensures |r| <= |s|
    ensures r == [] || (!IsSpace(r[0]) && !IsSpace(r[|r| - 1]))
    ensures r == [] <==> AllSpace(s)
  {
    var l := TrimLeft(s);
    var r := TrimRight(l);
    assert r != [] ==> r[0] == l[0];
    assert (l != [] ==> !AllSpace(s) && r != []) && (l == [] ==> AllSpace(s)) by {
      if l != [] {
        assert !IsSpace(s[|s| - |l|]);
        assert l[0..] == l;
      } else {
        assert s[..|s|] == s;
      }
    }
    r
  }

  /**
   * unicode.ToLower restricted to what can produce ASCII: 'A'..'Z', and the
   * two non-ASCII runes whose simple lower case is ASCII (U+0130 gives 'i',
   * the Kelvin sign U+212A gives 'k'). Other runes are kept as they are.
   */
  function LowerRune(c: char): (d: char)
    ensures ('A' <= c <= 'Z') ==> d as int == c as int + 32
    ensures d != c ==> 'a' <= d <= 'z'
  {
    if 'A' <= c <= 'Z' then (c as int + 32) as char
    else if c == '\U{130}' then 'i'
    else if c == '\U{212A}' then 'k'
    else c
  }

  /** Lowering a rune twice is lowering it once. */
  lemma LowerRuneIdempotent(c: char)
    ensures LowerRune(LowerRune(c)) == LowerRune(c)
  {
  }

  /** Lowering never turns a space into a non-space or back. */
  lemma LowerRuneKeepsSpace(c: char)
    ensures IsSpace(LowerRune(c)) <==> IsSpace(c)
  {
  }

  /** strings.ToLower, rune by rune. */
  function ToLower(s: string): (r: string)
    ensures |r| == |s|
    ensures forall k :: 0 <= k < |s| ==> r[k] == LowerRune(s[k])
  {
    if s == [] then [] else [LowerRune(s[0])] + ToLower(s[1..])
  }

  /** TrimSpace strips exactly the surrounding spaces of a text whose ends are not spaces. */
  lemma {:induction false} TrimSpaceOfPadded(lead: string, text: string, trail: string)
    requires AllSpace(lead) && AllSpace(trail)
    requires text != [] && !IsSpace(text[0]) && !IsSpace(text[|text| - 1])
    ensures TrimSpace(lead + text + trail) == text
  {
    TrimLeftOfPadded(lead, text + trail);
    assert lead + text + trail == lead + (text + trail);
    TrimRightOfPadded(text, trail);
  }

  lemma {:induction false} TrimLeftOfPadded(lead: string, rest: string)
    requires AllSpace(lead)
    requires rest != [] && !IsSpace(rest[0])
    ensures TrimLeft(lead + rest) == rest
    decreases |lead|
  {
    if lead != [] {
      var s := lead + rest;
      assert s[0] == lead[0] && IsSpace(s[0]);
      assert s[1..] == lead[1..] + rest;
      assert AllSpace(lead[1..]) by {
        forall k | 0 <= k < |lead| - 1 ensures IsSpace(lead[1..][k]) {
          assert lead[1..][k] == lead[k + 1];
        }
      }
      TrimLeftOfPadded(lead[1..], rest);
      assert TrimLeft(s) == TrimLeft(s[1..]);
    } else {
      assert lead + rest == rest;
    }
  }

  lemma {:induction false} TrimRightOfPadded(text: string, trail: string)
    requires AllSpace(trail)
    requires text != [] && !IsSpace(text[|text| - 1])
    ensures TrimRight(text + trail) == text
    decreases |trail|
  {
    if trail != [] {
      var shorter := trail[..|trail| - 1];
      var s := text + trail;
      assert s[|s| - 1] == trail[|trail| - 1] && IsSpace(s[|s| - 1]);
      assert s[..|s| - 1] == text + shorter;
      assert AllSpace(shorter) by {
        forall k | 0 <= k < |shorter| ensures IsSpace(shorter[k]) {
          assert shorter[k] == trail[k];
        }
      }
      TrimRightOfPadded(text, shorter);
      assert TrimRight(s) == TrimRight(s[..|s| - 1]);
    } else {
      assert text + trail == text;
    }
  }
}
