/** UTF-8 well-formedness (section 4 of RFC 3629) and the Unicode White_Space property,
    both on octets. */
module Utf8 {
  import opened Octets

  predicate IsCont(b: Byte) { 0x80 <= b < 0xC0 }

  /** Octets of the well-formed character `s` starts with, or 0 when there is none. */
  function CharLen(s: Bytes): (n: nat)
    ensures n <= 4 && n <= |s|
  {
    if s == [] then 0
    else
      var b := s[0];
      if b < 0x80 then 1
      else if 0xC2 <= b <= 0xDF && |s| >= 2 && IsCont(s[1]) then 2
      else if |s| >= 3 && IsCont(s[1]) && IsCont(s[2]) && 0xE0 <= b <= 0xEF
              && (b == 0xE0 ==> s[1] >= 0xA0) && (b == 0xED ==> s[1] < 0xA0) then 3
      else if |s| >= 4 && IsCont(s[1]) && IsCont(s[2]) && IsCont(s[3]) && 0xF0 <= b <= 0xF4
              && (b == 0xF0 ==> s[1] >= 0x90) && (b == 0xF4 ==> s[1] < 0x90) then 4
      else 0
  }

  predicate IsUtf8(s: Bytes) {
    s == [] || (CharLen(s) > 0 && IsUtf8(s[CharLen(s)..]))
  }

  /** The encodings of the White_Space characters. */
  predicate IsSpaceChar(c: Bytes) {
    || (|c| == 1 && (0x09 <= c[0] <= 0x0D || c[0] == 0x20))
    || c == [0xC2, 0x85] || c == [0xC2, 0xA0] || c == [0xE1, 0x9A, 0x80]
    || (|c| == 3 && c[0] == 0xE2 && c[1] == 0x80
        && (0x80 <= c[2] <= 0x8A || c[2] == 0xA8 || c[2] == 0xA9 || c[2] == 0xAF))
    || c == [0xE2, 0x81, 0x9F] || c == [0xE3, 0x80, 0x80]
  }

  /** Some character of the well-formed text `s` is white space. */
  predicate HasSpace(s: Bytes)
    requires IsUtf8(s)
  {
    s != [] && (IsSpaceChar(s[..CharLen(s)]) || HasSpace(s[CharLen(s)..]))
  }

  lemma CharLenExtend(s: Bytes, t: Bytes)
    requires CharLen(s) > 0
    ensures CharLen(s + t) == CharLen(s)
  {
  }

  lemma {:induction false} Utf8Concat(s: Bytes, t: Bytes)
    requires IsUtf8(s)
    ensures IsUtf8(s + t) <==> IsUtf8(t)
  {
    hide CharLen;
    if s == [] {
      assert s + t == t;
    } else {
      var n := CharLen(s);
      CharLenExtend(s, t);
      assert (s + t)[n..] == s[n..] + t;
      Utf8Concat(s[n..], t);
    }
  }

  /** No character spans an ASCII octet. */
  lemma CharStopsAtAscii(s: Bytes, i: nat)
    requires 0 < i < |s| && s[i] < 0x80 && CharLen(s) > 0
    ensures CharLen(s) <= i && CharLen(s[..i]) == CharLen(s)
  {
  }

  /** Cutting well-formed text before an ASCII octet leaves well-formed text on both sides. */
  lemma {:induction false} Utf8Cut(s: Bytes, i: nat)
    requires i < |s| && s[i] < 0x80 && IsUtf8(s)
    ensures IsUtf8(s[..i]) && IsUtf8(s[i..]) && IsUtf8(s[i + 1..])
    decreases |s|
  {
    if i == 0 {
      assert s[0..] == s;
    } else {
      var n := CharLen(s);
      CharStopsAtAscii(s, i);
      hide CharLen;
      Utf8Cut(s[n..], i - n);
      assert s[n..][..i - n] == s[..i][n..] && s[n..][i - n..] == s[i..] && s[n..][i - n + 1..] == s[i + 1..];
    }
  }

  lemma {:induction false} AsciiIsUtf8(s: Bytes)
    requires forall i :: 0 <= i < |s| ==> s[i] < 0x80
    ensures IsUtf8(s)
  {
    if s != [] {
      AsciiIsUtf8(s[1..]);
    }
  }

  /** An ASCII white-space octet in well-formed text is a white-space character. */
  lemma {:induction false} AsciiSpace(s: Bytes, i: nat)
    requires IsUtf8(s) && i < |s| && (0x09 <= s[i] <= 0x0D || s[i] == 0x20)
    ensures HasSpace(s)
    decreases |s|
  {
    if i > 0 {
      var n := CharLen(s);
      CharStopsAtAscii(s, i);
      hide CharLen, IsSpaceChar;
      AsciiSpace(s[n..], i - n);
    }
  }
}
