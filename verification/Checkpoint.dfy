/** The C2SP tlog-checkpoint body: origin, tree size and root hash, one line each. */
module Checkpoint {
  import opened Octets
  import opened Utf8
  import opened Text
  import opened Names
  import Base64
  import Decimal

  datatype CheckpointBody = CheckpointBody(origin: Bytes, size: nat, root: Digest)

  /** What construction guarantees: a valid origin; the size is a u64. */
  predicate WellFormed(b: CheckpointBody) { ValidName(b.origin) && b.size < U64_LIMIT }

  function NewBody(origin: Bytes, size: nat, root: Digest): Option<CheckpointBody> {
    if ValidName(origin) then Some(CheckpointBody(origin, size, root)) else None
  }

  function Lines(b: CheckpointBody): seq<Bytes> {
    [b.origin, Decimal.Minimal(b.size), Base64.Encode(b.root)]
  }

  function Encode(b: CheckpointBody): Bytes { Terminated(Lines(b), NL) }

  function ParseRoot(line: Bytes): Option<Digest> {
    if |line| != 44 then None
    else
      match Base64.Decode(line)
      case None => None
      case Some(root) => if |root| == 32 then Some(root) else None
  }

  /** Strict on the first three lines; further non-empty lines are tolerated and dropped. */
  function Parse(text: Bytes): Option<CheckpointBody> {
    if text == [] || text[|text| - 1] != NL then None
    else
      var lines := SplitOn(text[..|text| - 1], NL);
      if |lines| < 3 || [] in lines || !ValidName(lines[0]) then None
      else
        match (Decimal.ParseMinimal(lines[1]), ParseRoot(lines[2]))
        case (Some(size), Some(root)) => Some(CheckpointBody(lines[0], size, root))
        case _ => None
  }

  lemma ParseRootExact(line: Bytes, root: Digest)
    ensures ParseRoot(line) == Some(root) <==> line == Base64.Encode(root)
  {
    hide Base64.Encode, Base64.Decode;
    Base64.DecodeEncode(root);
    if ParseRoot(line).Some? {
      Base64.EncodeDecode(line);
    }
  }

  lemma Base64LineBytes(b: Bytes)
    ensures NL !in Base64.Encode(b) && SPACE !in Base64.Encode(b)
    ensures NoControl(Base64.Encode(b)) && IsUtf8(Base64.Encode(b))
  {
    hide Base64.Encode;
    var s := Base64.Encode(b);
    Base64.EncodeAlphabet(b);
    assert forall i :: 0 <= i < |s| ==> Base64.IsBase64Byte(s[i]);
    AsciiIsUtf8(s);
  }

  lemma DecimalLineBytes(n: nat)
    ensures NL !in Decimal.Minimal(n) && NoControl(Decimal.Minimal(n)) && IsUtf8(Decimal.Minimal(n))
  {
    var s := Decimal.Minimal(n);
    assert Decimal.AllDigits(s);
    AsciiIsUtf8(s);
  }

  lemma LinesClean(b: CheckpointBody)
    requires WellFormed(b)
    ensures forall p :: p in Lines(b) ==> NL !in p && p != []
  {
    hide Decimal.Minimal, Base64.Encode, IsUtf8, HasSpace;
    ValidNameBytes(b.origin);
    DecimalLineBytes(b.size);
    Base64LineBytes(b.root);
  }

  /** Parsing accepts exactly an encoded body followed by non-empty extension lines. */
  lemma ParseExact(text: Bytes, b: CheckpointBody)
    ensures Parse(text) == Some(b) <==>
              WellFormed(b) && exists ext: seq<Bytes> ::
                (forall p :: p in ext ==> p != [] && NL !in p) && text == Terminated(Lines(b) + ext, NL)
  {
    if Parse(text) == Some(b) {
      ParsedLines(text, b);
      var lines := SplitOn(text[..|text| - 1], NL);
      assert lines == Lines(b) + lines[3..];
    }
    if ext: seq<Bytes> :| && WellFormed(b) && (forall p :: p in ext ==> p != [] && NL !in p)
                          && text == Terminated(Lines(b) + ext, NL) {
      ParseExtended(b, ext);
    }
  }

  lemma ParsedLines(text: Bytes, b: CheckpointBody)
    requires Parse(text) == Some(b)
    ensures WellFormed(b)
    ensures var lines := SplitOn(text[..|text| - 1], NL);
            && |lines| >= 3 && lines[..3] == Lines(b) && text == Terminated(lines, NL)
            && forall p :: p in lines ==> p != []
  {
    hide Terminated, SplitOn, Decimal.ParseMinimal, ParseRoot;
    var lines := SplitOn(text[..|text| - 1], NL);
    Decimal.ParseMinimalExact(lines[1], b.size);
    ParseRootExact(lines[2], b.root);
    TerminatedSplit(text[..|text| - 1], NL);
    assert text == text[..|text| - 1] + [NL];
  }

  lemma ParseExtended(b: CheckpointBody, ext: seq<Bytes>)
    requires WellFormed(b) && forall p :: p in ext ==> p != [] && NL !in p
    ensures Parse(Terminated(Lines(b) + ext, NL)) == Some(b)
  {
    hide Terminated, SplitOn, Decimal.ParseMinimal, ParseRoot, ValidName;
    var lines := Lines(b) + ext;
    LinesClean(b);
    assert forall p :: p in lines ==> p in Lines(b) || p in ext;
    SplitTerminated(lines, NL);
    Decimal.ParseMinimalExact(lines[1], b.size);
    ParseRootExact(lines[2], b.root);
  }

  /** Parsing inverts encoding. */
  lemma ParseEncode(b: CheckpointBody)
    requires WellFormed(b)
    ensures Parse(Encode(b)) == Some(b)
  {
    ParseExtended(b, []);
    assert Lines(b) + [] == Lines(b);
  }

  /** Re-encoding a parsed body gives exactly its first three lines. */
  lemma EncodeParse(text: Bytes)
    requires Parse(text).Some?
    ensures var lines := SplitOn(text[..|text| - 1], NL);
            |lines| >= 3 && Encode(Parse(text).value) == Terminated(lines[..3], NL)
  {
    ParsedLines(text, Parse(text).value);
  }

  lemma EncodedUtf8(b: CheckpointBody)
    requires ValidName(b.origin)
    ensures IsUtf8(Encode(b))
  {
    assert IsUtf8([NL]);
    hide Terminated, Decimal.Minimal, Base64.Encode, HasSpace, IsUtf8;
    var size, root := Decimal.Minimal(b.size), Base64.Encode(b.root);
    UnfoldEncode(b);
    DecimalLineBytes(b.size);
    Base64LineBytes(b.root);
    Utf8Concat(root, [NL]);
    Utf8Concat(size, [NL]);
    Utf8Concat(size + [NL], root + [NL]);
    Utf8Concat(b.origin, [NL]);
    Utf8Concat(b.origin + [NL], size + [NL] + (root + [NL]));
  }

  /** An encoded body is a signable note body: the origin's control octets are all that
      could make it unsignable. */
  lemma EncodedBody(b: CheckpointBody)
    requires WellFormed(b)
    ensures var t := Encode(b);
            && t != [] && t[|t| - 1] == NL && IsUtf8(t) && !HasBlank(t)
            && ((forall c :: c in t ==> c >= 0x20 || c == NL) <==> NoControl(b.origin))
  {
    hide Terminated, Decimal.Minimal, Base64.Encode, ValidName, IsUtf8;
    var t := b.origin + [NL] + (Decimal.Minimal(b.size) + [NL] + (Base64.Encode(b.root) + [NL]));
    EncodedUtf8(b);
    UnfoldEncode(b);
    ValidNameBytes(b.origin);
    DecimalLineBytes(b.size);
    Base64LineBytes(b.root);
    LinesClean(b);
    TerminatedNoBlank(Lines(b));
    assert forall c :: c in b.origin ==> c in t;
  }

  lemma UnfoldEncode(b: CheckpointBody)
    ensures Encode(b) == b.origin + [NL] + (Decimal.Minimal(b.size) + [NL] + (Base64.Encode(b.root) + [NL]))
  {
    hide Decimal.Minimal, Base64.Encode;
    var size, root := Decimal.Minimal(b.size), Base64.Encode(b.root);
    assert Lines(b)[1..] == [size, root] && [size, root][1..] == [root];
    assert Terminated([root], NL) == root + [NL] + Terminated([], NL);
    assert Terminated([size, root], NL) == size + [NL] + Terminated([root], NL);
  }
}
