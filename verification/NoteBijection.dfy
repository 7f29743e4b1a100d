/** Accepted note texts and well-formed notes are in bijection. */
module NoteBijection {
  import opened Octets
  import opened Utf8
  import opened Text
  import opened Names
  import opened NoteGrammar
  import Base64
  import Checkpoint

  /** Printable UTF-8 within one line. */
  predicate LineBytes(s: Bytes) { s != [] && NL !in s && NoControl(s) && IsUtf8(s) }

  lemma LineTextClean(l: SignatureLine)
    requires WfLine(l)
    ensures LineBytes(LineText(l))
  {
    hide IsUtf8, HasSpace, Base64.Encode;
    ValidNameBytes(l.name);
    Checkpoint.Base64LineBytes(l.keyId + l.signature);
    LineTextUtf8(l.name, Base64.Encode(l.keyId + l.signature));
  }

  lemma LineTextUtf8(name: Bytes, blob: Bytes)
    requires IsUtf8(name) && IsUtf8(blob)
    ensures IsUtf8(SIG_PREFIX + (name + [SPACE] + blob))
  {
    assert IsUtf8([SPACE]);
    PrefixUtf8();
    hide IsUtf8;
    Utf8Concat(name, [SPACE]);
    Utf8Concat(name + [SPACE], blob);
    Utf8Concat(SIG_PREFIX, name + [SPACE] + blob);
  }

  lemma PrefixUtf8()
    ensures IsUtf8(SIG_PREFIX)
  {
  }

  lemma {:induction false} LineTextsClean(lines: seq<SignatureLine>)
    requires forall i :: 0 <= i < |lines| ==> WfLine(lines[i])
    ensures forall p :: p in LineTexts(lines) ==> LineBytes(p)
  {
    hide WfLine, LineText, LineBytes;
    if lines != [] {
      LineTextClean(lines[0]);
      LineTextsClean(lines[1..]);
    }
  }

  lemma {:induction false} BlockBytes(texts: seq<Bytes>)
    requires forall p :: p in texts ==> LineBytes(p)
    ensures NoteBytes(Terminated(texts, NL)) && IsUtf8(Terminated(texts, NL))
  {
    if texts != [] {
      assert texts[0] in texts && forall p :: p in texts[1..] ==> p in texts;
      BlockBytes(texts[1..]);
      assert IsUtf8([NL]);
      hide IsUtf8;
      Utf8Concat(texts[0], [NL]);
      Utf8Concat(texts[0] + [NL], Terminated(texts[1..], NL));
    }
  }

  /** The last blank line is the one after the body, whatever blank lines the body has. */
  lemma LastBlankAfterBody(body: Bytes, block: Bytes)
    requires body != [] && body[|body| - 1] == NL && block != [] && block[0] != NL && !HasBlank(block)
    ensures LastBlank(body + [NL] + block) == |body| - 1
  {
    hide LastBlank;
    var t := body + [NL] + block;
    var i := LastBlank(t);
    assert t[|body| - 1] == NL && t[|body|] == NL;
    assert forall j :: 0 <= j < |block| ==> t[|body| + 1 + j] == block[j];
  }

  /** A signature block of clean lines: what the parser needs to know of it. */
  lemma CleanBlock(texts: seq<Bytes>)
    requires texts != [] && forall p :: p in texts ==> LineBytes(p)
    ensures var block := Terminated(texts, NL);
            && NoteBytes(block) && IsUtf8(block) && !HasBlank(block)
            && block != [] && block[0] != NL && block[|block| - 1] == NL
            && SplitOn(block[..|block| - 1], NL) == texts
  {
    hide Terminated, SplitOn, IsUtf8, NoteBytes;
    BlockBytes(texts);
    TerminatedNoBlank(texts);
    SplitTerminated(texts, NL);
  }

  lemma RenderUtf8(body: Bytes, block: Bytes)
    requires IsUtf8(body) && IsUtf8(block)
    ensures IsUtf8(body + [NL] + block)
  {
    assert IsUtf8([NL]);
    hide IsUtf8;
    Utf8Concat(body, [NL]);
    Utf8Concat(body + [NL], block);
  }

  /** Printing then parsing returns the note. */
  lemma ParseRender(n: Note)
    requires WfNote(n)
    ensures ParseNote(Render(n)) == Some(n)
  {
    hide IsUtf8, LastBlank, WfLine, Terminated, LineTexts, ParseLines, SplitOn, NoteBytes, LineBytes;
    var texts := LineTexts(n.lines);
    var block := Terminated(texts, NL);
    var t := n.body + [NL] + block;
    LineTextsClean(n.lines);
    CleanBlock(texts);
    ParseLineTexts(n.lines);
    RenderUtf8(n.body, block);
    RenderBytes(n.body, block);
    LastBlankAfterBody(n.body, block);
    assert t[..|n.body|] == n.body && t[|n.body| + 1..] == block;
  }

  lemma RenderBytes(body: Bytes, block: Bytes)
    requires NoteBytes(body) && NoteBytes(block)
    ensures NoteBytes(body + [NL] + block)
  {
  }

  /** Parsing then printing returns the text: nothing else is accepted. */
  lemma RenderParse(text: Bytes)
    requires ParseNote(text).Some?
    ensures WfNote(ParseNote(text).value) && Render(ParseNote(text).value) == text
  {
    hide IsUtf8, LastBlank, WfLine, Terminated, LineTexts, ParseLines, SplitOn, NoteBytes;
    var n := ParseNote(text).value;
    var split := LastBlank(text);
    var block := text[split + 2..];
    var inner := block[..|block| - 1];
    var texts := SplitOn(inner, NL);
    ParseLinesPointwise(texts);
    TerminatedSplit(inner, NL);
    assert block == inner + [NL];
    SplitBytes(text, split);
    LineTextsParse(texts);
    assert text == n.body + [NL] + block;
    Utf8Cut(text, split + 1);
  }

  /** Lines cut from note text have no control octets, and neither has the body. */
  lemma SplitBytes(text: Bytes, split: nat)
    requires NoteBytes(text) && split + 2 < |text|
    ensures NoteBytes(text[..split + 1])
    ensures var block := text[split + 2..];
            forall p :: p in SplitOn(block[..|block| - 1], NL) ==> NoControl(p)
  {
    hide SplitOn;
    var body := text[..split + 1];
    assert forall i :: 0 <= i < |body| ==> body[i] == text[i] && text[i] in text;
    var block := text[split + 2..];
    var inner := block[..|block| - 1];
    forall p | p in SplitOn(inner, NL)
      ensures NoControl(p)
    {
      SplitWithin(inner, p);
      assert forall c :: c in inner ==> c in text;
    }
  }

  lemma {:induction false} SplitWithin(s: Bytes, p: Bytes)
    requires p in SplitOn(s, NL)
    ensures forall c :: c in p ==> c in s
    decreases |s|
  {
    hide Find;
    var i := Find(s, NL);
    if i < |s| && p != s[..i] {
      SplitWithin(s[i + 1..], p);
    }
  }

  // ----- the grammar in octets -----

  /** One more signature line: an em dash and a space, the name, a space, the base64 of key ID
      and signature, a newline. */
  lemma RenderIs(body: Bytes, lines: seq<SignatureLine>, l: SignatureLine)
    ensures Render(Note(body, [])) == body + [0x0A]
    ensures Render(Note(body, lines + [l])) ==
              Render(Note(body, lines)) + [0xE2, 0x80, 0x94, 0x20] + l.name + [0x20]
              + Base64.Encode(l.keyId + l.signature) + [0x0A]
  {
    hide Base64.Encode, LineTexts, Terminated, LineText;
    LineTextsSnoc(lines, l);
    TerminatedConcat(LineTexts(lines), [LineText(l)], NL);
    OneLine(LineText(l));
    NoLines();
    LineTextIs(l);
    FlattenLine(body + [NL], Terminated(LineTexts(lines), NL), l.name, Base64.Encode(l.keyId + l.signature));
  }

  lemma OneLine(text: Bytes)
    ensures Terminated([text], NL) == text + [NL]
  {
    assert Terminated([text], NL) == text + [NL] + Terminated([], NL);
  }

  lemma NoLines()
    ensures Terminated(LineTexts([]), NL) == []
  {
  }

  lemma LineTextIs(l: SignatureLine)
    ensures LineText(l) == [0xE2, 0x80, 0x94, 0x20] + (l.name + [0x20] + Base64.Encode(l.keyId + l.signature))
  {
  }

  lemma FlattenLine(head: Bytes, block: Bytes, name: Bytes, blob: Bytes)
    ensures var prefix: Bytes := [0xE2, 0x80, 0x94, 0x20];
            head + (block + (prefix + (name + [0x20] + blob) + [NL]))
            == head + block + prefix + name + [0x20] + blob + [0x0A]
  {
  }

  lemma {:induction false} LineTextsSnoc(lines: seq<SignatureLine>, l: SignatureLine)
    ensures LineTexts(lines + [l]) == LineTexts(lines) + [LineText(l)]
  {
    hide LineText;
    if lines == [] {
      assert lines + [l] == [l] && [l][1..] == [];
    } else {
      LineTextsSnoc(lines[1..], l);
      assert (lines + [l])[1..] == lines[1..] + [l];
    }
  }

  /** The notes that are accepted, condition by condition. */
  lemma WfNoteIs(n: Note)
    ensures WfNote(n) <==>
              && n.body != [] && n.body[|n.body| - 1] == 0x0A && IsUtf8(n.body)
              && (forall c :: c in n.body ==> c >= 0x20 || c == 0x0A)
              && 1 <= |n.lines| <= 100 && |Render(n)| <= 1_048_576
              && forall i :: 0 <= i < |n.lines| ==>
                   && ValidName(n.lines[i].name) && (forall c :: c in n.lines[i].name ==> c >= 0x20)
                   && |n.lines[i].keyId| == 4 && |n.lines[i].signature| >= 1
  {
    hide Render, IsUtf8, ValidName;
  }

  /** Text is parsed to a note exactly when it is the print of that well-formed note. */
  lemma ParseNoteExact(text: Bytes, n: Note)
    ensures ParseNote(text) == Some(n) <==> WfNote(n) && text == Render(n)
  {
    hide ParseNote, WfNote, Render;
    if ParseNote(text) == Some(n) {
      RenderParse(text);
    }
    if WfNote(n) {
      ParseRender(n);
    }
  }
}
