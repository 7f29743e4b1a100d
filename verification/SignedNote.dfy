/** Signing and verifying notes and checkpoints. */
module SignedNote {
  import opened Octets
  import opened Utf8
  import opened Text
  import opened Names
  import opened Signing
  import opened NoteGrammar
  import opened NoteBijection
  import Base64
  import Decimal
  import Checkpoint

  // ----- verification -----

  predicate Matches(l: SignatureLine, vk: VerifierKey) { l.name == vk.name && l.keyId == vk.keyId }

  predicate Accepts(c: Scheme, body: Bytes, l: SignatureLine, vk: VerifierKey) {
    |l.signature| == 64 && c.verify(vk.publicKey, body, l.signature)
  }

  function FirstMatch(lines: seq<SignatureLine>, vk: VerifierKey): Option<SignatureLine> {
    if lines == [] then None
    else if Matches(lines[0], vk) then Some(lines[0])
    else FirstMatch(lines[1..], vk)
  }

  /** The verified body, or None for every failure. */
  function VerifyNote(c: Scheme, text: Bytes, vk: VerifierKey): Option<Bytes> {
    match ParseNote(text)
    case None => None
    case Some(n) => if Decides(c, n, vk) then Some(n.body) else None
  }

  predicate Decides(c: Scheme, n: Note, vk: VerifierKey) {
    match FirstMatch(n.lines, vk)
    case None => false
    case Some(l) => Accepts(c, n.body, l, vk)
  }

  /** The source's loop: skip foreign lines, let the first match decide, stop. */
  method Verify(c: Scheme, text: Bytes, vk: VerifierKey) returns (r: Option<Bytes>)
    ensures r == VerifyNote(c, text, vk)
  {
    hide ParseNote;
    var parsed := NoteGrammar.Parse(text);
    if parsed.None? {
      return None;
    }
    var n := parsed.value;
    assert n.lines[0..] == n.lines;
    for i := 0 to |n.lines|
      invariant FirstMatch(n.lines, vk) == FirstMatch(n.lines[i..], vk)
    {
      var l := n.lines[i];
      if l.name != vk.name || l.keyId != vk.keyId {
        assert n.lines[i..][1..] == n.lines[i + 1..];
        continue;
      }
      if |l.signature| == 64 && c.verify(vk.publicKey, n.body, l.signature) {
        return Some(n.body);
      }
      return None;
    }
    return None;
  }

  /** Position `i` holds the first matching line. */
  predicate FirstAt(lines: seq<SignatureLine>, vk: VerifierKey, i: int) {
    0 <= i < |lines| && Matches(lines[i], vk) && forall j :: 0 <= j < i ==> !Matches(lines[j], vk)
  }

  /** `FirstMatch` is the match with the least position. */
  lemma {:induction false} FirstMatchLeast(lines: seq<SignatureLine>, vk: VerifierKey, l: SignatureLine)
    ensures FirstMatch(lines, vk) == Some(l) <==>
              exists i :: FirstAt(lines, vk, i) && lines[i] == l
  {
    hide Matches;
    if lines != [] && !Matches(lines[0], vk) {
      var rest := lines[1..];
      FirstMatchLeast(rest, vk, l);
      assert forall j :: 0 <= j < |rest| ==> rest[j] == lines[j + 1];
      if FirstMatch(lines, vk) == Some(l) {
        var i :| FirstAt(rest, vk, i) && rest[i] == l;
        assert forall j :: 1 <= j < |lines| ==> lines[j] == rest[j - 1];
        assert FirstAt(lines, vk, i + 1);
      }
      if i :| FirstAt(lines, vk, i) && lines[i] == l {
        assert FirstAt(rest, vk, i - 1);
      }
    } else if lines != [] {
      assert FirstAt(lines, vk, 0);
    }
  }

  /** Line `i` is the first of its note by the key's name and ID, and carries a 64-octet
      signature that verifies over the body. */
  predicate DecidedBy(c: Scheme, n: Note, i: int, vk: VerifierKey) {
    && 0 <= i < |n.lines| && n.lines[i].name == vk.name && n.lines[i].keyId == vk.keyId
    && (forall j :: 0 <= j < i ==> n.lines[j].name != vk.name || n.lines[j].keyId != vk.keyId)
    && |n.lines[i].signature| == 64 && c.verify(vk.publicKey, n.body, n.lines[i].signature)
  }

  /** `text` is the print of a well-formed note with this body, signed by the key. */
  ghost predicate SignedText(c: Scheme, text: Bytes, vk: VerifierKey, body: Bytes) {
    exists n, i :: WfNote(n) && text == Render(n) && n.body == body && DecidedBy(c, n, i, vk)
  }

  lemma DecidesExact(c: Scheme, n: Note, vk: VerifierKey)
    ensures Decides(c, n, vk) <==> exists i :: DecidedBy(c, n, i, vk)
  {
    if Decides(c, n, vk) {
      var l := FirstMatch(n.lines, vk).value;
      FirstMatchLeast(n.lines, vk, l);
      var i :| FirstAt(n.lines, vk, i) && n.lines[i] == l;
      assert DecidedBy(c, n, i, vk);
    }
    if i :| DecidedBy(c, n, i, vk) {
      assert FirstAt(n.lines, vk, i);
      FirstMatchLeast(n.lines, vk, n.lines[i]);
    }
  }

  /** A text verifies to `body` exactly when it is the print of a well-formed note with that
      body, and its first line by the key's name and ID carries a 64-octet signature that
      verifies over the body. */
  lemma VerifyNoteExact(c: Scheme, text: Bytes, vk: VerifierKey, body: Bytes)
    ensures VerifyNote(c, text, vk) == Some(body) <==> SignedText(c, text, vk, body)
  {
    hide ParseNote, Render, WfNote, Decides, DecidedBy;
    if VerifyNote(c, text, vk) == Some(body) {
      var n := ParseNote(text).value;
      ParseNoteExact(text, n);
      DecidesExact(c, n, vk);
    }
    if n, i :| WfNote(n) && text == Render(n) && n.body == body && DecidedBy(c, n, i, vk) {
      ParseNoteExact(text, n);
      DecidesExact(c, n, vk);
    }
  }

  function Insert(lines: seq<SignatureLine>, i: nat, l: SignatureLine): seq<SignatureLine>
    requires i <= |lines|
  {
    lines[..i] + [l] + lines[i..]
  }

  /** A foreign line anywhere, or any line after a match, leaves the first match alone. */
  lemma {:induction false} FirstMatchInsert(lines: seq<SignatureLine>, i: nat, l: SignatureLine, vk: VerifierKey)
    requires i <= |lines|
    requires !Matches(l, vk) || exists j :: 0 <= j < i && Matches(lines[j], vk)
    ensures FirstMatch(Insert(lines, i, l), vk) == FirstMatch(lines, vk)
  {
    hide Matches;
    var more := Insert(lines, i, l);
    if i == 0 {
      assert more[1..] == lines;
    } else {
      assert more[0] == lines[0] && more[1..] == Insert(lines[1..], i - 1, l);
      if !Matches(lines[0], vk) {
        if Matches(l, vk) {
          var j :| 0 <= j < i && Matches(lines[j], vk);
          assert lines[1..][j - 1] == lines[j];
        }
        FirstMatchInsert(lines[1..], i - 1, l, vk);
      }
    }
  }

  /** The verdict on a note is unchanged by such a line, as long as the longer note is
      itself within the line and size caps. */
  lemma VerdictUnderInsertion(c: Scheme, n: Note, i: nat, l: SignatureLine, vk: VerifierKey)
    requires WfNote(n) && i <= |n.lines| && WfNote(n.(lines := Insert(n.lines, i, l)))
    requires !Matches(l, vk) || exists j :: 0 <= j < i && Matches(n.lines[j], vk)
    ensures VerifyNote(c, Render(n.(lines := Insert(n.lines, i, l))), vk) == VerifyNote(c, Render(n), vk)
  {
    hide ParseNote, WfNote, Render, Matches;
    ParseRender(n);
    ParseRender(n.(lines := Insert(n.lines, i, l)));
    FirstMatchInsert(n.lines, i, l, vk);
  }

  // ----- signing -----

  function SignatureBy(h: Hash, c: Scheme, body: Bytes, name: Bytes, seed: Digest): SignatureLine
    requires ValidName(name)
  {
    SignatureLine(name, KeyId(h, name, c.publicKey(seed)).value, c.sign(seed, body))
  }

  function SignNote(h: Hash, c: Scheme, body: Bytes, name: Bytes, seed: Digest): Option<Bytes> {
    if !ValidName(name) || body == [] || body[|body| - 1] != NL || HasBlank(body) || !NoteBytes(body) then None
    else
      var note := body + [NL] + (LineText(SignatureBy(h, c, body, name, seed)) + [NL]);
      if |note| > MAX_NOTE_BYTES then None else Some(note)
  }

  /** The note that signing emits, octet by octet: the signature is over the body, the key ID
      that of the name and the signer's key. Refused are an invalid name, an empty body, one
      without a final newline, with a blank line or a control octet, and a note over 1 MiB. */
  lemma SignNoteExact(h: Hash, c: Scheme, body: Bytes, name: Bytes, seed: Digest, note: Bytes)
    ensures SignNote(h, c, body, name, seed) == Some(note) <==>
              && ValidName(name) && body != [] && body[|body| - 1] == 0x0A && |note| <= 1_048_576
              && (forall i :: 0 <= i < |body| - 1 ==> body[i] != 0x0A || body[i + 1] != 0x0A)
              && (forall x :: x in body ==> x >= 0x20 || x == 0x0A)
              && note == body + [0x0A] + [0xE2, 0x80, 0x94, 0x20] + name + [0x20]
                         + Base64.Encode(h(KeyPreimage(name, c.publicKey(seed)))[..4] + c.sign(seed, body)) + [0x0A]
  {
    hide ValidName, Base64.Encode;
    if ValidName(name) {
      var l := SignatureBy(h, c, body, name, seed);
      SignerLine(h, c, body, name, seed);
      SignedIsRendered(body, l);
      RenderIs(body, [], l);
      assert [] + [l] == [l];
    }
  }

  lemma SignerLine(h: Hash, c: Scheme, body: Bytes, name: Bytes, seed: Digest)
    requires ValidName(name)
    ensures SignatureBy(h, c, body, name, seed) ==
              SignatureLine(name, h(KeyPreimage(name, c.publicKey(seed)))[..4], c.sign(seed, body))
  {
    assert name + [0x0A] + [0x01] + c.publicKey(seed) == KeyPreimage(name, c.publicKey(seed));
  }

  lemma SignedIsRendered(body: Bytes, l: SignatureLine)
    ensures body + [NL] + (LineText(l) + [NL]) == Render(Note(body, [l]))
  {
    hide LineText;
    assert LineTexts([l]) == [LineText(l)] + LineTexts([]);
    assert Terminated([LineText(l)], NL) == LineText(l) + [NL] + Terminated([], NL);
  }

  lemma LineTextOneLine(l: SignatureLine)
    requires ValidName(l.name)
    ensures LineText(l) != [] && NL !in LineText(l)
  {
    hide IsUtf8, HasSpace, Base64.Encode;
    ValidNameBytes(l.name);
    Checkpoint.Base64LineBytes(l.keyId + l.signature);
  }

  lemma OneBlankLine(body: Bytes, line: Bytes, i: nat)
    requires body != [] && body[|body| - 1] == NL && !HasBlank(body) && line != [] && NL !in line
    ensures var note := body + [NL] + (line + [NL]);
            i < |note| - 1 && note[i] == NL && note[i + 1] == NL <==> i == |body| - 1
  {
    var note := body + [NL] + (line + [NL]);
    assert note[|body|] == NL && note[|body| + 1] == line[0];
    assert forall j :: 0 <= j < |body| ==> note[j] == body[j];
    if |body| < i < |note| - 1 {
      assert note[i] == line[i - |body| - 1];
    }
  }

  /** The only blank line of a signed note is the one that ends its body. */
  lemma SignedNoteHasOneBlankLine(h: Hash, c: Scheme, body: Bytes, name: Bytes, seed: Digest, i: nat)
    requires SignNote(h, c, body, name, seed).Some?
    ensures var note := SignNote(h, c, body, name, seed).value;
            i < |note| - 1 && note[i] == NL && note[i + 1] == NL <==> i == |body| - 1
  {
    hide IsUtf8, HasSpace, LineText, HasBlank, NoteBytes;
    var l := SignatureBy(h, c, body, name, seed);
    LineTextOneLine(l);
    OneBlankLine(body, LineText(l), i);
  }

  /** A signed note re-verifies with the same body exactly when its key name has no
      control octet: the signer checks the body for them but not the name. */
  lemma SignThenVerify(h: Hash, c: Scheme, body: Bytes, name: Bytes, seed: Digest, vk: VerifierKey)
    requires SignaturesVerify(c) && IsUtf8(body) && SignNote(h, c, body, name, seed).Some?
    requires NewKey(h, name, c.publicKey(seed)) == Some(vk)
    ensures var note := SignNote(h, c, body, name, seed).value;
            && (NoControl(name) ==> VerifyNote(c, note, vk) == Some(body))
            && (!NoControl(name) ==> VerifyNote(c, note, vk) == None)
  {
    hide ParseNote, LineText, LineTexts, Terminated, IsUtf8, HasSpace;
    var l := SignatureBy(h, c, body, name, seed);
    var n := Note(body, [l]);
    SignedIsRendered(body, l);
    if NoControl(name) {
      ParseRender(n);
      assert FirstMatch(n.lines, vk) == Some(l);
    } else {
      SignedNameInText(body, l);
      assert ParseNote(Render(n)) == None by { ControlRejected(Render(n)); }
    }
  }

  lemma SignedNameInText(body: Bytes, l: SignatureLine)
    requires ValidName(l.name)
    ensures NoteBytes(body + [NL] + (LineText(l) + [NL])) ==> NoControl(l.name)
  {
    ValidNameBytes(l.name);
    var t := body + [NL] + (LineText(l) + [NL]);
    assert forall x :: x in l.name ==> x in LineText(l);
    assert forall x :: x in LineText(l) ==> x in t;
  }

  lemma ControlRejected(text: Bytes)
    requires !NoteBytes(text)
    ensures ParseNote(text) == None
  {
  }

  /** The documented promise that every emitted note re-verifies fails for the name
      "a" followed by U+0001: it signs, and never verifies. */
  lemma ControlNameSignsButNeverVerifies(h: Hash, c: Scheme, seed: Digest, vk: VerifierKey)
    requires SignaturesVerify(c) && NewKey(h, [0x61, 0x01], c.publicKey(seed)) == Some(vk)
    ensures var note := SignNote(h, c, [0x62, NL], [0x61, 0x01], seed);
            note.Some? && VerifyNote(c, note.value, vk) == None
  {
    var name: Bytes, body: Bytes := [0x61, 0x01], [0x62, NL];
    AsciiIsUtf8(body);
    assert name[1] in name && !NoControl(name);
    assert !HasBlank(body) && NoteBytes(body);
    hide LineText, ParseNote, IsUtf8, HasSpace;
    LineTextLength(SignatureBy(h, c, body, name, seed));
    SignThenVerify(h, c, body, name, seed, vk);
  }

  /** A signature line is 97 octets longer than its name when the signature has 64. */
  lemma LineTextLength(l: SignatureLine)
    requires |l.keyId| == 4 && |l.signature| == 64
    ensures |LineText(l)| == |l.name| + 97
  {
  }

  // ----- checkpoints -----

  function VerifyCheckpoint(c: Scheme, text: Bytes, vk: VerifierKey): Option<Checkpoint.CheckpointBody> {
    match VerifyNote(c, text, vk)
    case None => None
    case Some(body) =>
      match Checkpoint.Parse(body)
      case None => None
      case Some(b) => if b.origin == vk.name then Some(b) else None
  }

  /** `body` is the three lines of `b` and any number of non-empty lines after them. */
  ghost predicate BodyText(b: Checkpoint.CheckpointBody, body: Bytes) {
    exists ext: seq<Bytes> ::
      && (forall p :: p in ext ==> p != [] && NL !in p)
      && body == b.origin + [0x0A] + (Decimal.Minimal(b.size) + [0x0A] + (Base64.Encode(b.root) + [0x0A]))
                 + Terminated(ext, NL)
  }

  /** `text` is a note signed by the key whose body states `b`, under the key's own name. */
  ghost predicate SignedCheckpoint(c: Scheme, text: Bytes, vk: VerifierKey, b: Checkpoint.CheckpointBody) {
    && ValidName(b.origin) && b.origin == vk.name && b.size < 0x1_0000_0000_0000_0000
    && exists body :: SignedText(c, text, vk, body) && BodyText(b, body)
  }

  lemma ParseIsBodyText(b: Checkpoint.CheckpointBody, body: Bytes)
    ensures Checkpoint.Parse(body) == Some(b) <==> Checkpoint.WellFormed(b) && BodyText(b, body)
  {
    hide Checkpoint.Parse, Checkpoint.Lines, Base64.Encode, Decimal.Minimal, Terminated, Checkpoint.WellFormed;
    Checkpoint.ParseExact(body, b);
    Checkpoint.UnfoldEncode(b);
    forall ext: seq<Bytes>
      ensures Terminated(Checkpoint.Lines(b) + ext, NL) == Checkpoint.Encode(b) + Terminated(ext, NL)
    {
      TerminatedConcat(Checkpoint.Lines(b), ext, NL);
    }
  }

  /** A text verifies to a checkpoint exactly when it is a note signed by the key whose body
      states that checkpoint under the key's own name. */
  lemma VerifyCheckpointExact(c: Scheme, text: Bytes, vk: VerifierKey, b: Checkpoint.CheckpointBody)
    ensures VerifyCheckpoint(c, text, vk) == Some(b) <==> SignedCheckpoint(c, text, vk, b)
  {
    hide VerifyNote, Checkpoint.Parse, SignedText, BodyText, ValidName;
    if VerifyCheckpoint(c, text, vk) == Some(b) {
      var body := VerifyNote(c, text, vk).value;
      VerifyNoteExact(c, text, vk, body);
      ParseIsBodyText(b, body);
    }
    if body :| SignedText(c, text, vk, body) && BodyText(b, body) {
      VerifyNoteExact(c, text, vk, body);
      ParseIsBodyText(b, body);
    }
  }

  /** A checkpoint can be signed under its own origin exactly when the origin has no
      control octet and the note fits the cap. */
  lemma SignableCheckpoint(h: Hash, c: Scheme, b: Checkpoint.CheckpointBody, seed: Digest)
    requires Checkpoint.WellFormed(b)
    ensures SignNote(h, c, Checkpoint.Encode(b), b.origin, seed).Some? <==>
              NoControl(b.origin) && |Checkpoint.Encode(b)| + |b.origin| + 99 <= 1_048_576
  {
    hide LineText, IsUtf8, HasSpace, Checkpoint.Encode, HasBlank;
    Checkpoint.EncodedBody(b);
    LineTextLength(SignatureBy(h, c, Checkpoint.Encode(b), b.origin, seed));
  }

  /** Every checkpoint signed under its own origin comes back as the same value. */
  lemma CheckpointRoundTrip(h: Hash, c: Scheme, b: Checkpoint.CheckpointBody, seed: Digest, vk: VerifierKey)
    requires SignaturesVerify(c) && Checkpoint.WellFormed(b)
    requires SignNote(h, c, Checkpoint.Encode(b), b.origin, seed).Some?
    requires NewKey(h, b.origin, c.publicKey(seed)) == Some(vk)
    ensures VerifyCheckpoint(c, SignNote(h, c, Checkpoint.Encode(b), b.origin, seed).value, vk) == Some(b)
  {
    hide LineText, IsUtf8, HasSpace, Checkpoint.Encode, HasBlank, VerifyNote;
    Checkpoint.EncodedBody(b);
    SignThenVerify(h, c, Checkpoint.Encode(b), b.origin, seed, vk);
    Checkpoint.ParseEncode(b);
  }
}
