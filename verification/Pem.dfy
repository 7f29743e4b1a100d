/** PEM framing of certificates (RFC 7468): base64 wrapped at 64 characters between
    boundary lines. */
module Pem {
  import opened Octets
  import opened Text
  import opened Utf8
  import Base64

  const LINE_WIDTH := 64

  function Begin(): Bytes { Ascii("-----BEGIN CERTIFICATE-----") }

  function End(): Bytes { Ascii("-----END CERTIFICATE-----") }

  /** The boundary lines, octet by octet. */
  lemma BeginOctets()
    ensures Begin() ==
              [0x2D, 0x2D, 0x2D, 0x2D, 0x2D, 0x42, 0x45, 0x47, 0x49, 0x4E, 0x20, 0x43, 0x45, 0x52, 0x54, 0x49, 0x46,
               0x49, 0x43, 0x41, 0x54, 0x45, 0x2D, 0x2D, 0x2D, 0x2D, 0x2D]
  {
  }

  lemma EndOctets()
    ensures End() ==
              [0x2D, 0x2D, 0x2D, 0x2D, 0x2D, 0x45, 0x4E, 0x44, 0x20, 0x43, 0x45, 0x52, 0x54, 0x49, 0x46, 0x49, 0x43,
               0x41, 0x54, 0x45, 0x2D, 0x2D, 0x2D, 0x2D, 0x2D]
  {
  }

  /** `s` with a newline after every 64 octets but the last. */
  function Wrapped(s: Bytes): Bytes {
    if |s| <= LINE_WIDTH then s else s[..LINE_WIDTH] + [NL] + Wrapped(s[LINE_WIDTH..])
  }

  function Chunks(s: Bytes): seq<Bytes> {
    if s == [] then [] else if |s| <= LINE_WIDTH then [s] else [s[..LINE_WIDTH]] + Chunks(s[LINE_WIDTH..])
  }

  /** The certificate block as lines. */
  function Lines(der: Bytes): seq<Bytes> { [Begin()] + Chunks(Base64.Encode(der)) + [End()] }

  lemma {:induction false} WrapOneMore(s: Bytes, c: Byte)
    ensures Wrapped(s + [c]) == Wrapped(s) + (if |s| > 0 && |s| % LINE_WIDTH == 0 then [NL] else []) + [c]
    decreases |s|
  {
    if |s| == LINE_WIDTH {
      assert (s + [c])[..LINE_WIDTH] == s && (s + [c])[LINE_WIDTH..] == [c];
    } else if |s| > LINE_WIDTH {
      var head, tail := s[..LINE_WIDTH] + [NL], s[LINE_WIDTH..];
      WrapOneMore(tail, c);
      assert (s + [c])[..LINE_WIDTH] == s[..LINE_WIDTH] && (s + [c])[LINE_WIDTH..] == tail + [c];
      var gap := if |tail| % LINE_WIDTH == 0 then [NL] else [];
      assert head + (Wrapped(tail) + gap + [c]) == head + Wrapped(tail) + gap + [c];
    }
  }

  lemma {:induction false} WrappedLines(s: Bytes)
    requires s != []
    ensures Wrapped(s) + [NL] == Terminated(Chunks(s), NL)
    decreases |s|
  {
    if |s| <= LINE_WIDTH {
      assert Terminated([s], NL) == s + [NL] + Terminated([], NL);
    } else {
      WrappedLines(s[LINE_WIDTH..]);
      assert Chunks(s)[1..] == Chunks(s[LINE_WIDTH..]);
    }
  }

  /** The source's loop: push characters, with a newline before every 65th. */
  method EncodeCertificate(der: Bytes) returns (out: Bytes)
    ensures out == Terminated(Lines(der), NL)
  {
    hide Base64.Encode, Terminated, Begin, End;
    var body := Base64.Encode(der);
    out := Begin() + [NL];
    for i := 0 to |body|
      invariant out == Begin() + [NL] + Wrapped(body[..i])
    {
      WrapOneMore(body[..i], body[i]);
      assert body[..i] + [body[i]] == body[..i + 1];
      if i > 0 && i % LINE_WIDTH == 0 {
        out := out + [NL];
      }
      out := out + [body[i]];
    }
    assert body[..|body|] == body;
    var block := Terminated(Chunks(body), NL);
    if body != [] {
      WrappedLines(body);
      out := out + [NL];
    } else {
      NoLines();
    }
    assert out == Begin() + [NL] + block;
    out := out + End() + [NL];
    TerminatedFrame(Begin(), Chunks(body), End());
  }

  lemma NoLines()
    ensures Terminated([], NL) == []
  {
  }

  lemma TerminatedFrame(first: Bytes, mid: seq<Bytes>, last: Bytes)
    ensures Terminated([first] + mid + [last], NL) == first + [NL] + Terminated(mid, NL) + (last + [NL])
  {
    TerminatedConcat([first] + mid, [last], NL);
    TerminatedConcat([first], mid, NL);
    assert Terminated([first], NL) == first + [NL] + Terminated([], NL);
    assert Terminated([last], NL) == last + [NL] + Terminated([], NL);
  }

  // ----- decoding -----

  function TrimStart(s: Bytes): Bytes {
    if s != [] && CharLen(s) > 0 && IsSpaceChar(s[..CharLen(s)]) then TrimStart(s[CharLen(s)..]) else s
  }

  /** Octets of the white-space character at the end, or 0. */
  function SpaceAtEnd(s: Bytes): (n: nat)
    ensures n <= |s|
  {
    var n := |s|;
    if n >= 1 && IsSpaceChar([s[n - 1]]) then 1
    else if n >= 2 && IsSpaceChar([s[n - 2], s[n - 1]]) then 2
    else if n >= 3 && IsSpaceChar([s[n - 3], s[n - 2], s[n - 1]]) then 3
    else 0
  }

  function TrimEnd(s: Bytes): Bytes {
    if SpaceAtEnd(s) > 0 then TrimEnd(s[..|s| - SpaceAtEnd(s)]) else s
  }

  /** Lines trimmed of white space, the empty ones dropped. A carriage return before a
      newline is white space too, so it needs no case of its own. */
  function CleanLines(parts: seq<Bytes>): seq<Bytes> {
    if parts == [] then []
    else
      var line := TrimEnd(TrimStart(parts[0]));
      (if line == [] then [] else [line]) + CleanLines(parts[1..])
  }

  function Concat(parts: seq<Bytes>): Bytes {
    if parts == [] then [] else parts[0] + Concat(parts[1..])
  }

  function DecodeCertificate(pem: Bytes): Option<Bytes> {
    if !IsUtf8(pem) then None
    else
      var lines := CleanLines(SplitOn(pem, NL));
      if |lines| < 2 || lines[0] != Begin() || lines[|lines| - 1] != End() then None
      else
        var body := Concat(lines[1..|lines| - 1]);
        if body == [] then None else Base64.Decode(body)
  }

  /** Starts and ends with visible ASCII and stays on one ASCII line. */
  predicate Solid(s: Bytes) {
    s != [] && 0x20 < s[0] < 0x80 && 0x20 < s[|s| - 1] < 0x80 && forall c :: c in s ==> c != NL && c < 0x80
  }

  lemma NoSpaceAtEnd(s: Bytes)
    requires s != [] && 0x20 < s[|s| - 1] < 0x80
    ensures SpaceAtEnd(s) == 0
  {
  }

  lemma TrimSolid(s: Bytes)
    requires Solid(s)
    ensures TrimEnd(TrimStart(s)) == s
  {
    hide SpaceAtEnd;
    NoSpaceAtEnd(s);
    assert CharLen(s) == 1 && !IsSpaceChar(s[..1]);
  }

  lemma {:induction false} CleanSolid(parts: seq<Bytes>)
    requires forall p :: p in parts ==> Solid(p)
    ensures CleanLines(parts + [[]]) == parts
  {
    hide Solid, TrimStart, TrimEnd;
    if parts == [] {
      TrimEmpty();
      var one: seq<Bytes> := [[]];
      assert parts + [[]] == one && |one[1..]| == 0;
    } else {
      TrimSolid(parts[0]);
      SolidNonEmpty(parts[0]);
      CleanSolid(parts[1..]);
      assert (parts + [[]])[1..] == parts[1..] + [[]];
    }
  }

  lemma TrimEmpty()
    ensures TrimEnd(TrimStart([])) == []
  {
  }

  lemma SolidNonEmpty(s: Bytes)
    requires Solid(s)
    ensures s != [] && NL !in s
  {
  }

  lemma {:induction false} SplitTerminatedLines(parts: seq<Bytes>)
    requires forall p :: p in parts ==> NL !in p
    ensures SplitOn(Terminated(parts, NL), NL) == parts + [[]]
  {
    hide Find;
    if parts == [] {
      FindFirst([], NL, []);
    } else {
      var rest := Terminated(parts[1..], NL);
      var t := parts[0] + [NL] + rest;
      SplitTerminatedLines(parts[1..]);
      FindFirst(parts[0], NL, rest);
      assert t[..|parts[0]|] == parts[0] && t[|parts[0]| + 1..] == rest;
      assert parts + [[]] == [parts[0]] + (parts[1..] + [[]]);
    }
  }

  lemma {:induction false} ChunksJoin(s: Bytes)
    ensures Concat(Chunks(s)) == s
    ensures forall i :: 0 <= i < |Chunks(s)| ==>
              0 < |Chunks(s)[i]| <= LINE_WIDTH && (i < |Chunks(s)| - 1 ==> |Chunks(s)[i]| == LINE_WIDTH)
    ensures forall p, c :: p in Chunks(s) && c in p ==> c in s
    decreases |s|
  {
    if |s| > LINE_WIDTH {
      ChunksJoin(s[LINE_WIDTH..]);
      assert Chunks(s)[1..] == Chunks(s[LINE_WIDTH..]);
    } else if s != [] {
      assert Concat([s]) == s + Concat([]);
    }
  }

  lemma {:induction false} AsciiBlock(parts: seq<Bytes>)
    requires forall p :: p in parts ==> Solid(p)
    ensures forall c :: c in Terminated(parts, NL) ==> c < 0x80
  {
    if parts != [] {
      assert Solid(parts[0]) && forall p :: p in parts[1..] ==> p in parts;
      AsciiBlock(parts[1..]);
    }
  }

  lemma BoundariesSolid()
    ensures Solid(Begin()) && Solid(End())
  {
  }

  lemma Base64Solid(p: Bytes)
    requires p != [] && forall c :: c in p ==> Base64.IsBase64Byte(c)
    ensures Solid(p)
  {
    assert p[0] in p && p[|p| - 1] in p;
  }

  lemma LinesSolid(der: Bytes)
    ensures forall p :: p in Lines(der) ==> Solid(p)
  {
    hide Base64.Encode, Chunks, Base64.IsBase64Byte, Solid;
    var body := Base64.Encode(der);
    Base64.EncodeAlphabet(der);
    ChunksJoin(body);
    BoundariesSolid();
    forall p | p in Chunks(body)
      ensures Solid(p)
    {
      Base64Solid(p);
    }
  }

  /** Decoding the block returns the certificate; only the empty one is refused. Every body
      line but the last has exactly 64 characters. */
  lemma PemRoundTrip(der: Bytes)
    ensures DecodeCertificate(Terminated(Lines(der), NL)) == if der == [] then None else Some(der)
    ensures var body := Lines(der)[1..|Lines(der)| - 1];
            forall i :: 0 <= i < |body| ==> 0 < |body[i]| <= 64 && (i < |body| - 1 ==> |body[i]| == 64)
  {
    hide Base64.Encode, Base64.Decode, Chunks, Terminated, SplitOn, CleanLines, Begin, End, Solid, IsUtf8, Concat;
    var body := Base64.Encode(der);
    var lines := Lines(der);
    LinesSolid(der);
    forall p | p in lines
      ensures NL !in p
    {
      SolidNonEmpty(p);
    }
    SplitTerminatedLines(lines);
    CleanSolid(lines);
    AsciiBlock(lines);
    var text := Terminated(lines, NL);
    assert forall i :: 0 <= i < |text| ==> text[i] in text;
    AsciiIsUtf8(text);
    ChunksJoin(body);
    Base64.DecodeEncode(der);
    assert lines[1..|lines| - 1] == Chunks(body);
  }

  /** What is accepted: text whose non-blank trimmed lines are the two boundaries around
      lines that concatenate to the canonical base64 of the certificate. */
  lemma DecodeCertificateExact(pem: Bytes, der: Bytes)
    ensures DecodeCertificate(pem) == Some(der) <==>
              IsUtf8(pem) && der != [] &&
              exists body ::
                CleanLines(SplitOn(pem, NL)) == [Begin()] + body + [End()] && Concat(body) == Base64.Encode(der)
  {
    hide Base64.Encode, Base64.Decode, SplitOn, CleanLines, Begin, End, IsUtf8, Concat;
    var lines := CleanLines(SplitOn(pem, NL));
    Base64.DecodeEncode(der);
    if DecodeCertificate(pem) == Some(der) {
      var body := lines[1..|lines| - 1];
      Base64.EncodeDecode(Concat(body));
      assert lines == [Begin()] + body + [End()];
    }
    if body :| lines == [Begin()] + body + [End()] && Concat(body) == Base64.Encode(der) {
      assert lines[1..|lines| - 1] == body;
    }
  }
}
