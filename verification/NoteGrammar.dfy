/** The C2SP signed-note text: a body, a blank line, and one line per signature. */
module NoteGrammar {
  import opened Octets
  import opened Utf8
  import opened Text
  import opened Names
  import Base64

  const MAX_NOTE_BYTES := 1024 * 1024
  const MAX_SIGNATURE_LINES := 100

  /** U+2014 and a space. */
  const SIG_PREFIX: Bytes := [0xE2, 0x80, 0x94, 0x20]

  datatype SignatureLine = SignatureLine(name: Bytes, keyId: Bytes, signature: Bytes)

  datatype Note = Note(body: Bytes, lines: seq<SignatureLine>)

  /** No octet below 0x20 other than newline. */
  predicate NoteBytes(s: Bytes) { forall c :: c in s ==> c >= 0x20 || c == NL }

  // ----- printing -----

  function LineText(l: SignatureLine): Bytes {
    SIG_PREFIX + (l.name + [SPACE] + Base64.Encode(l.keyId + l.signature))
  }

  function LineTexts(lines: seq<SignatureLine>): (texts: seq<Bytes>)
    ensures |texts| == |lines|
  {
    if lines == [] then [] else [LineText(lines[0])] + LineTexts(lines[1..])
  }

  function Render(n: Note): Bytes { n.body + [NL] + Terminated(LineTexts(n.lines), NL) }

  // ----- parsing -----

  function ParseLine(line: Bytes): Option<SignatureLine> {
    if !(SIG_PREFIX <= line) then None
    else
      var rest := line[4..];
      var i := Find(rest, SPACE);
      if i == |rest| then None
      else
        var name, blob := rest[..i], rest[i + 1..];
        if blob == [] || !ValidName(name) then None
        else
          match Base64.Decode(blob)
          case None => None
          case Some(b) => if |b| < 5 then None else Some(SignatureLine(name, b[..4], b[4..]))
  }

  function ParseLines(texts: seq<Bytes>): Option<seq<SignatureLine>> {
    if texts == [] then Some([])
    else
      match (ParseLine(texts[0]), ParseLines(texts[1..]))
      case (Some(l), Some(rest)) => Some([l] + rest)
      case _ => None
  }

  /** Split at the last blank line; the body keeps its final newline. */
  function ParseNote(text: Bytes): Option<Note> {
    if |text| > MAX_NOTE_BYTES || !IsUtf8(text) || !NoteBytes(text) then None
    else
      var split := LastBlank(text);
      if split < 0 then None
      else
        var body, block := text[..split + 1], text[split + 2..];
        if block == [] || block[|block| - 1] != NL then None
        else
          match ParseLines(SplitOn(block[..|block| - 1], NL))
          case None => None
          case Some(lines) => if |lines| > MAX_SIGNATURE_LINES then None else Some(Note(body, lines))
  }

  /** The same parse as the source runs it: lines are pushed one by one, the first bad
      line or the 101st line ends it. */
  method Parse(text: Bytes) returns (r: Option<Note>)
    ensures r == ParseNote(text)
  {
    hide ParseLine, IsUtf8, Find;
    if |text| > MAX_NOTE_BYTES || !IsUtf8(text) || !NoteBytes(text) {
      return None;
    }
    var split := LastBlank(text);
    if split < 0 {
      return None;
    }
    var body, block := text[..split + 1], text[split + 2..];
    if block == [] || block[|block| - 1] != NL {
      return None;
    }
    var texts := SplitOn(block[..|block| - 1], NL);
    var lines: seq<SignatureLine> := [];
    ParseLinesPointwise(texts);
    for i := 0 to |texts|
      invariant |lines| == i <= MAX_SIGNATURE_LINES
      invariant forall j :: 0 <= j < i ==> ParseLine(texts[j]) == Some(lines[j])
    {
      match ParseLine(texts[i]) {
        case None => return None;
        case Some(l) => lines := lines + [l];
      }
      if |lines| > MAX_SIGNATURE_LINES {
        return None;
      }
    }
    assert ParseLines(texts).Some? && ParseLines(texts).value == lines;
    return Some(Note(body, lines));
  }

  /** A block parses when each of its lines does. */
  lemma {:induction false} ParseLinesPointwise(texts: seq<Bytes>)
    ensures ParseLines(texts).Some? <==> forall i :: 0 <= i < |texts| ==> ParseLine(texts[i]).Some?
    ensures ParseLines(texts).Some? ==>
              var lines := ParseLines(texts).value;
              |lines| == |texts| && forall i :: 0 <= i < |texts| ==> ParseLine(texts[i]) == Some(lines[i])
  {
    hide ParseLine;
    if texts != [] {
      var rest := texts[1..];
      ParseLinesPointwise(rest);
      assert forall i :: 1 <= i < |texts| ==> texts[i] == rest[i - 1];
      assert forall i :: 0 <= i < |rest| ==> rest[i] == texts[i + 1];
    }
  }

  // ----- the grammar is unambiguous -----

  predicate WfLine(l: SignatureLine) {
    ValidName(l.name) && NoControl(l.name) && |l.keyId| == 4 && l.signature != []
  }

  predicate WfNote(n: Note) {
    && n.body != [] && n.body[|n.body| - 1] == NL && IsUtf8(n.body) && NoteBytes(n.body)
    && 1 <= |n.lines| <= MAX_SIGNATURE_LINES
    && (forall i :: 0 <= i < |n.lines| ==> WfLine(n.lines[i]))
    && |Render(n)| <= MAX_NOTE_BYTES
  }

  lemma ParseLineText(l: SignatureLine)
    requires ValidName(l.name) && |l.keyId| == 4 && l.signature != []
    ensures ParseLine(LineText(l)) == Some(l)
  {
    hide Find, IsUtf8, HasSpace, Base64.Encode, Base64.Decode;
    var blob := l.keyId + l.signature;
    var text := Base64.Encode(blob);
    var rest := l.name + [SPACE] + text;
    ValidNameBytes(l.name);
    FindFirst(l.name, SPACE, text);
    Base64.DecodeEncode(blob);
    assert LineText(l)[..4] == SIG_PREFIX && LineText(l)[4..] == rest;
    assert rest[..|l.name|] == l.name && rest[|l.name| + 1..] == text;
    assert blob[..4] == l.keyId && blob[4..] == l.signature;
  }

  lemma LineTextParse(line: Bytes)
    requires ParseLine(line).Some?
    ensures var l := ParseLine(line).value;
            LineText(l) == line && ValidName(l.name) && |l.keyId| == 4 && l.signature != []
            && (forall c :: c in l.name ==> c in line)
  {
    hide IsUtf8, HasSpace, Base64.Encode, Base64.Decode;
    var l := ParseLine(line).value;
    var rest := line[4..];
    var i := Find(rest, SPACE);
    Base64.EncodeDecode(rest[i + 1..]);
    assert Base64.Decode(rest[i + 1..]).value == l.keyId + l.signature;
    assert line == SIG_PREFIX + rest && rest == l.name + [SPACE] + rest[i + 1..];
    assert forall c :: c in rest ==> c in line;
  }

  lemma {:induction false} ParseLineTexts(lines: seq<SignatureLine>)
    requires forall i :: 0 <= i < |lines| ==> WfLine(lines[i])
    ensures ParseLines(LineTexts(lines)) == Some(lines)
  {
    hide ParseLine, LineText, ValidName, NoControl;
    if lines != [] {
      assert WfLine(lines[0]);
      ParseLineText(lines[0]);
      ParseLineTexts(lines[1..]);
      assert LineTexts(lines)[1..] == LineTexts(lines[1..]);
      assert lines == [lines[0]] + lines[1..];
    }
  }

  lemma {:induction false} LineTextsParse(texts: seq<Bytes>)
    requires ParseLines(texts).Some? && forall i :: 0 <= i < |texts| ==> NoControl(texts[i])
    ensures var lines := ParseLines(texts).value;
            LineTexts(lines) == texts && forall i :: 0 <= i < |lines| ==> WfLine(lines[i])
  {
    hide ParseLine, LineText, ValidName;
    if texts != [] {
      LineTextParse(texts[0]);
      LineTextsParse(texts[1..]);
      var lines := ParseLines(texts).value;
      assert lines[1..] == ParseLines(texts[1..]).value;
      assert WfLine(lines[0]);
    }
  }
}
