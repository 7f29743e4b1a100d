/** The `lys/attestation/v2` artifact: a tagged COSE_Sign1 (RFC 9052) written by hand and
    parsed through a general CBOR decoder with a re-encoding gate. */
module Attestation {
  import opened Octets
  import opened Signing
  import opened Cbor
  import Utf8

  type Timestamp = t: int | -0x8000_0000_0000_0000 <= t < 0x8000_0000_0000_0000

  datatype Attestation = Attestation(payloadHash: Digest, signature: Signature, signer: Digest, timestamp: Timestamp)

  const MAX_ARTIFACT_LEN := 1024
  const COSE_SIGN1_TAG: nat := 18

  function ContentType(): Bytes { Ascii("application/vnd.lys.attestation.v2+cbor") }

  function Context(): Bytes { Ascii("Signature1") }

  lemma TextConstants()
    ensures |ContentType()| == 39 && Utf8.IsUtf8(ContentType())
    ensures |Context()| == 10 && Utf8.IsUtf8(Context())
  {
    hide Utf8.IsUtf8;
    Utf8.AsciiIsUtf8(ContentType());
    Utf8.AsciiIsUtf8(Context());
  }

  // ----- the artifact as CBOR values -----

  function Int(t: Timestamp): (v: Value)
    ensures Wf(v)
  {
    if t >= 0 then Uint(t) else Nint(-1 - t)
  }

  /** {1: -8, 3: content type, 4: signer}. */
  function ProtectedValue(signer: Digest): (v: Value)
    ensures Wf(v)
  {
    hide Utf8.IsUtf8, ContentType, Context;
    TextConstants();
    Dict([Uint(1), Int(-8), Uint(3), Tstr(ContentType()), Uint(4), Bstr(signer)])
  }

  /** {1: payload hash, 2: timestamp}. */
  function ClaimsValue(payloadHash: Digest, t: Timestamp): (v: Value)
    ensures Wf(v)
  {
    Dict([Uint(1), Bstr(payloadHash), Uint(2), Int(t)])
  }

  /** ["Signature1", protected, h'', claims] (section 4.4 of RFC 9052). */
  function SigStructureValue(protected: Bytes, claims: Bytes): (v: Value)
    requires |protected| < U64_LIMIT && |claims| < U64_LIMIT
    ensures Wf(v)
  {
    hide Utf8.IsUtf8, ContentType, Context;
    TextConstants();
    Arr([Tstr(Context()), Bstr(protected), Bstr([]), Bstr(claims)])
  }

  /** 18([protected, {}, claims, signature]). */
  function ArtifactValue(protected: Bytes, claims: Bytes, signature: Signature): (v: Value)
    requires |protected| < U64_LIMIT && |claims| < U64_LIMIT
    ensures Wf(v)
  {
    assert Wf(Dict([])) && Wf(Bstr(signature)) && Wf(Bstr(protected)) && Wf(Bstr(claims));
    Tagged(COSE_SIGN1_TAG, Arr([Bstr(protected), Dict([]), Bstr(claims), Bstr(signature)]))
  }

  function ProtectedBytes(signer: Digest): Bytes { Enc(ProtectedValue(signer)) }

  function ClaimsBytes(payloadHash: Digest, t: Timestamp): Bytes { Enc(ClaimsValue(payloadHash, t)) }

  // ----- sizes -----

  lemma {:induction false} EncAllConcat(xs: seq<Value>, ys: seq<Value>)
    requires forall i :: 0 <= i < |xs| ==> Wf(xs[i])
    requires forall i :: 0 <= i < |ys| ==> Wf(ys[i])
    ensures EncAll(xs + ys) == EncAll(xs) + EncAll(ys)
  {
    hide Enc, Wf;
    if xs == [] {
      assert xs + ys == ys;
    } else {
      EncAllConcat(xs[1..], ys);
      assert (xs + ys)[1..] == xs[1..] + ys;
    }
  }

  lemma EncAll2(a: Value, b: Value)
    requires Wf(a) && Wf(b)
    ensures EncAll([a, b]) == Enc(a) + Enc(b)
  {
    hide Enc, Wf;
    assert EncAll([a]) == Enc(a) + EncAll([]) && EncAll([b]) == Enc(b) + EncAll([]);
    EncAllConcat([a], [b]);
    assert [a] + [b] == [a, b];
  }

  lemma EncAll4(a: Value, b: Value, c: Value, d: Value)
    requires Wf(a) && Wf(b) && Wf(c) && Wf(d)
    ensures EncAll([a, b, c, d]) == Enc(a) + Enc(b) + (Enc(c) + Enc(d))
  {
    hide Enc, Wf, EncAll;
    EncAll2(a, b);
    EncAll2(c, d);
    EncAllConcat([a, b], [c, d]);
    assert [a, b] + [c, d] == [a, b, c, d];
  }

  lemma EncAll6(a: Value, b: Value, c: Value, d: Value, e: Value, f: Value)
    requires Wf(a) && Wf(b) && Wf(c) && Wf(d) && Wf(e) && Wf(f)
    ensures EncAll([a, b, c, d, e, f]) == Enc(a) + Enc(b) + (Enc(c) + Enc(d)) + (Enc(e) + Enc(f))
  {
    hide Enc, Wf, EncAll;
    EncAll4(a, b, c, d);
    EncAll2(e, f);
    EncAllConcat([a, b, c, d], [e, f]);
    assert [a, b, c, d] + [e, f] == [a, b, c, d, e, f];
  }

  lemma Assoc(a: Bytes, b: Bytes, c: Bytes)
    ensures a + (b + c) == a + b + c
  {
  }

  lemma Flatten(h: Bytes, a: Bytes, b: Bytes, c: Bytes, d: Bytes, e: Bytes)
    ensures h + (a + b + (c + d) + e) == h + a + b + c + d + e
    ensures h + (a + b + c + (d + e)) == h + a + b + c + d + e
  {
  }

  /** The protected header is the concatenation of its written parts: 80 octets. */
  lemma ProtectedParts(signer: Digest)
    ensures ProtectedBytes(signer) ==
              Head(5, 3) + Head(0, 1) + Head(1, 7) + Head(0, 3) + Head(3, 39) + ContentType()
              + Head(0, 4) + Head(2, 32) + signer
    ensures |ProtectedBytes(signer)| == 80
  {
    hide EncAll, Head, Utf8.IsUtf8, ContentType, Context;
    TextConstants();
    EncAll6(Uint(1), Int(-8), Uint(3), Tstr(ContentType()), Uint(4), Bstr(signer));
    assert Enc(Int(-8)) == Head(1, 7);
    Flatten(Head(5, 3), Head(0, 1), Head(1, 7), Head(0, 3), Head(3, 39) + ContentType(),
            Head(0, 4) + (Head(2, 32) + signer));
    var x := Head(5, 3) + Head(0, 1) + Head(1, 7) + Head(0, 3);
    Assoc(x, Head(3, 39), ContentType());
    Assoc(x + Head(3, 39) + ContentType(), Head(0, 4), Head(2, 32) + signer);
    Assoc(x + Head(3, 39) + ContentType() + Head(0, 4), Head(2, 32), signer);
  }

  lemma IntLength(t: Timestamp)
    ensures 1 <= |Enc(Int(t))| <= 9
  {
  }

  /** The claims are the concatenation of their written parts: 38 to 46 octets. */
  lemma ClaimsParts(payloadHash: Digest, t: Timestamp)
    ensures ClaimsBytes(payloadHash, t) ==
              Head(5, 2) + Head(0, 1) + Head(2, 32) + payloadHash + Head(0, 2) + Enc(Int(t))
    ensures 38 <= |ClaimsBytes(payloadHash, t)| <= 46
  {
    hide EncAll, Head;
    EncAll4(Uint(1), Bstr(payloadHash), Uint(2), Int(t));
    var hash, time := Head(2, 32) + payloadHash, Enc(Int(t));
    hide Int;
    Assoc(Head(5, 2), Head(0, 1) + hash, Head(0, 2) + time);
    Assoc(Head(5, 2), Head(0, 1), hash);
    Assoc(Head(5, 2) + Head(0, 1), Head(2, 32), payloadHash);
    Assoc(Head(5, 2) + Head(0, 1) + hash, Head(0, 2), time);
    IntLength(t);
  }

  // ----- encoding and decoding -----

  function SigBytes(signer: Digest, payloadHash: Digest, t: Timestamp): Bytes {
    ProtectedParts(signer);
    ClaimsParts(payloadHash, t);
    Enc(SigStructureValue(ProtectedBytes(signer), ClaimsBytes(payloadHash, t)))
  }

  function ToCose(a: Attestation): Bytes {
    ProtectedParts(a.signer);
    ClaimsParts(a.payloadHash, a.timestamp);
    Enc(ArtifactValue(ProtectedBytes(a.signer), ClaimsBytes(a.payloadHash, a.timestamp), a.signature))
  }

  /** Trailing octets are ignored here; the gate in `FromCose` catches them. */
  function ParseValue(b: Bytes): Option<Value> {
    match Decode(b)
    case None => None
    case Some((v, _)) => Some(v)
  }

  predicate IsInteger(v: Value, expected: int) {
    match v
    case Uint(n) => n == expected
    case Nint(n) => -1 - n == expected
    case _ => false
  }

  function FixedDigest(v: Value): Option<Digest> {
    if v.Bstr? && |v.bytes| == 32 then Some(v.bytes) else None
  }

  function ToTimestamp(v: Value): Option<Timestamp> {
    match v
    case Uint(n) => if n < 0x8000_0000_0000_0000 then Some(n) else None
    case Nint(n) => if n < 0x8000_0000_0000_0000 then Some(-1 - n) else None
    case _ => None
  }

  function DecodeProtected(b: Bytes): Option<Digest> {
    match ParseValue(b)
    case Some(Dict(e)) =>
      if |e| == 6 && IsInteger(e[0], 1) && IsInteger(e[1], -8) && IsInteger(e[2], 3)
         && e[3] == Tstr(ContentType()) && IsInteger(e[4], 4)
      then FixedDigest(e[5]) else None
    case _ => None
  }

  function DecodeClaims(b: Bytes): Option<(Digest, Timestamp)> {
    match ParseValue(b)
    case Some(Dict(e)) =>
      if |e| == 4 && IsInteger(e[0], 1) && IsInteger(e[2], 2)
      then (match (FixedDigest(e[1]), ToTimestamp(e[3]))
            case (Some(d), Some(t)) => Some((d, t))
            case _ => None)
      else None
    case _ => None
  }

  function DecodeFields(b: Bytes): Option<Attestation> {
    if |b| > MAX_ARTIFACT_LEN then None
    else
      match ParseValue(b)
      case Some(Tagged(tag, Arr(items))) =>
        if tag != COSE_SIGN1_TAG || |items| != 4 || items[1] != Dict([]) then None
        else if !items[3].Bstr? || |items[3].bytes| != 64 || !items[0].Bstr? || !items[2].Bstr? then None
        else
          (match (DecodeProtected(items[0].bytes), DecodeClaims(items[2].bytes))
           case (Some(signer), Some((digest, t))) => Some(Attestation(digest, items[3].bytes, signer, t))
           case _ => None)
      case _ => None
  }

  /** The parser with its byte-identity gate. */
  function FromCose(b: Bytes): Option<Attestation> {
    match DecodeFields(b)
    case None => None
    case Some(a) => if ToCose(a) == b then Some(a) else None
  }

  lemma ProtectedRoundTrip(signer: Digest)
    ensures DecodeProtected(ProtectedBytes(signer)) == Some(signer)
  {
    hide Decode, Enc, Wf;
    DecodeEnc(ProtectedValue(signer), []);
    assert ProtectedBytes(signer) + [] == ProtectedBytes(signer);
  }

  lemma ClaimsRoundTrip(payloadHash: Digest, t: Timestamp)
    ensures DecodeClaims(ClaimsBytes(payloadHash, t)) == Some((payloadHash, t))
  {
    hide Decode, Enc, Wf;
    DecodeEnc(ClaimsValue(payloadHash, t), []);
    assert ClaimsBytes(payloadHash, t) + [] == ClaimsBytes(payloadHash, t);
  }

  lemma EncTaggedArray(tag: nat, items: seq<Value>)
    requires tag < U64_LIMIT && |items| < U64_LIMIT && forall i :: 0 <= i < |items| ==> Wf(items[i])
    ensures Enc(Tagged(tag, Arr(items))) == Head(6, tag) + (Head(4, |items|) + EncAll(items))
  {
  }

  lemma EncBstr(b: Bytes)
    requires |b| < U64_LIMIT
    ensures Wf(Bstr(b)) && Enc(Bstr(b)) == Head(2, |b|) + b
  {
  }

  lemma SmallItems()
    ensures Wf(Dict([])) && Enc(Dict([])) == Head(5, 0) && Enc(Int(-8)) == Head(1, 7)
  {
  }

  /** The signed structure is the concatenation of its written parts. */
  lemma SigParts(signer: Digest, payloadHash: Digest, t: Timestamp)
    ensures var p, c := ProtectedBytes(signer), ClaimsBytes(payloadHash, t);
            && |p| == 80 && |c| < U64_LIMIT
            && SigBytes(signer, payloadHash, t) ==
                 Head(4, 4) + Head(3, 10) + Context() + Head(2, |p|) + p + Head(2, 0) + Head(2, |c|) + c
  {
    hide EncAll, Head, ProtectedBytes, ClaimsBytes, Utf8.IsUtf8, ContentType, Context;
    var p, c := ProtectedBytes(signer), ClaimsBytes(payloadHash, t);
    TextConstants();
    ProtectedParts(signer);
    ClaimsParts(payloadHash, t);
    EncAll4(Tstr(Context()), Bstr(p), Bstr([]), Bstr(c));
    assert Enc(Bstr([])) == Head(2, 0);
    Flatten(Head(4, 4), Head(3, 10), Context(), Head(2, |p|) + p, Head(2, 0), Head(2, |c|) + c);
    Assoc(Head(4, 4) + Head(3, 10) + Context(), Head(2, |p|), p);
    Assoc(Head(4, 4) + Head(3, 10) + Context() + Head(2, |p|) + p + Head(2, 0), Head(2, |c|), c);
  }

  /** So is the artifact, which is therefore 191 to 199 octets long. */
  lemma ArtifactParts(a: Attestation)
    ensures var p, c := ProtectedBytes(a.signer), ClaimsBytes(a.payloadHash, a.timestamp);
            && |p| == 80 && |c| < U64_LIMIT
            && ToCose(a) ==
                 Head(6, 18) + Head(4, 4) + Head(2, |p|) + p + Head(5, 0) + Head(2, |c|) + c + Head(2, 64) + a.signature
    ensures 191 <= |ToCose(a)| <= 199
  {
    hide Enc, EncAll, Wf, Head, ProtectedBytes, ClaimsBytes;
    var p, c := ProtectedBytes(a.signer), ClaimsBytes(a.payloadHash, a.timestamp);
    ProtectedParts(a.signer);
    ClaimsParts(a.payloadHash, a.timestamp);
    EncBstr(p);
    EncBstr(c);
    EncBstr(a.signature);
    SmallItems();
    EncAll4(Bstr(p), Dict([]), Bstr(c), Bstr(a.signature));
    EncTaggedArray(18, [Bstr(p), Dict([]), Bstr(c), Bstr(a.signature)]);
    var x, y := Head(6, 18) + Head(4, 4), Head(2, |c|) + c;
    Assoc(Head(6, 18), Head(4, 4), Head(2, |p|) + p + Head(5, 0) + (y + (Head(2, 64) + a.signature)));
    Flatten(x, Head(2, |p|), p, Head(5, 0), y, Head(2, 64) + a.signature);
    Assoc(x + Head(2, |p|) + p + Head(5, 0), Head(2, |c|), c);
    Assoc(x + Head(2, |p|) + p + Head(5, 0) + Head(2, |c|) + c, Head(2, 64), a.signature);
  }

  /** A timestamp as the octets of its head: major type 0, or 1 with -1 - t for a negative one. */
  lemma IntOctets(t: Timestamp)
    ensures Enc(Int(t)) == if t >= 0 then HeadOctets(0, t) else HeadOctets(1, -1 - t)
  {
    hide Head, HeadOctets;
    if t >= 0 {
      HeadIs(0, t);
    } else {
      HeadIs(1, -1 - t);
    }
  }

  /** The texts inside, octet by octet. */
  lemma TextOctets()
    ensures Context() == [0x53, 0x69, 0x67, 0x6E, 0x61, 0x74, 0x75, 0x72, 0x65, 0x31]
    ensures ContentType() ==
              [0x61, 0x70, 0x70, 0x6C, 0x69, 0x63, 0x61, 0x74, 0x69, 0x6F, 0x6E, 0x2F, 0x76, 0x6E, 0x64, 0x2E, 0x6C,
               0x79, 0x73, 0x2E, 0x61, 0x74, 0x74, 0x65, 0x73, 0x74, 0x61, 0x74, 0x69, 0x6F, 0x6E, 0x2E, 0x76, 0x32,
               0x2B, 0x63, 0x62, 0x6F, 0x72]
  {
  }

  lemma ProtectedOctets(signer: Digest)
    ensures ProtectedBytes(signer) ==
              [0xA3] + [0x01] + [0x27] + [0x03] + [0x78, 0x27] + ContentType() + [0x04] + [0x58, 0x20] + signer
    ensures |ProtectedBytes(signer)| == 80
  {
    hide Head, ContentType, ProtectedBytes;
    ProtectedParts(signer);
    ShortHead(5, 3);
    ShortHead(0, 1);
    ShortHead(1, 7);
    ShortHead(0, 3);
    LongHead(3, 39);
    ShortHead(0, 4);
    LongHead(2, 32);
  }

  lemma ClaimsOctets(payloadHash: Digest, t: Timestamp)
    ensures ClaimsBytes(payloadHash, t) ==
              [0xA2] + [0x01] + [0x58, 0x20] + payloadHash + [0x02]
              + (if t >= 0 then HeadOctets(0, t) else HeadOctets(1, -1 - t))
    ensures 38 <= |ClaimsBytes(payloadHash, t)| <= 46
  {
    hide Head, HeadOctets, Enc, Int, ClaimsBytes;
    ClaimsParts(payloadHash, t);
    IntOctets(t);
    ShortHead(5, 2);
    ShortHead(0, 1);
    LongHead(2, 32);
    ShortHead(0, 2);
  }

  lemma SigOctets(signer: Digest, payloadHash: Digest, t: Timestamp)
    ensures var p, c := ProtectedBytes(signer), ClaimsBytes(payloadHash, t);
            && |c| < 256
            && SigBytes(signer, payloadHash, t)
               == [0x84] + [0x6A] + Context() + [0x58, 0x50] + p + [0x40] + [0x58, |c|] + c
  {
    hide Head, Context, ProtectedBytes, ClaimsBytes, SigBytes;
    ClaimsOctets(payloadHash, t);
    SigParts(signer, payloadHash, t);
    ShortHead(4, 4);
    ShortHead(3, 10);
    LongHead(2, 80);
    ShortHead(2, 0);
    LongHead(2, |ClaimsBytes(payloadHash, t)|);
  }

  lemma CoseOctets(a: Attestation)
    ensures var p, c := ProtectedBytes(a.signer), ClaimsBytes(a.payloadHash, a.timestamp);
            |c| < 256 &&
            ToCose(a) == [0xD2] + [0x84] + [0x58, 0x50] + p + [0xA0] + [0x58, |c|] + c + [0x58, 0x40] + a.signature
  {
    hide Head, ProtectedBytes, ClaimsBytes, ToCose;
    ClaimsOctets(a.payloadHash, a.timestamp);
    ArtifactParts(a);
    ShortHead(6, 18);
    ShortHead(4, 4);
    LongHead(2, 80);
    ShortHead(5, 0);
    LongHead(2, 64);
    LongHead(2, |ClaimsBytes(a.payloadHash, a.timestamp)|);
  }

  /** The frozen wire bytes of header, claims, signed structure and artifact. */
  lemma WireBytes(a: Attestation)
    ensures var p, c := ProtectedBytes(a.signer), ClaimsBytes(a.payloadHash, a.timestamp);
            var t := if a.timestamp >= 0 then HeadOctets(0, a.timestamp) else HeadOctets(1, -1 - a.timestamp);
            && |c| < 256
            && p == [0xA3] + [0x01] + [0x27] + [0x03] + [0x78, 0x27] + ContentType() + [0x04] + [0x58, 0x20] + a.signer
            && c == [0xA2] + [0x01] + [0x58, 0x20] + a.payloadHash + [0x02] + t
            && SigBytes(a.signer, a.payloadHash, a.timestamp)
               == [0x84] + [0x6A] + Context() + [0x58, 0x50] + p + [0x40] + [0x58, |c|] + c
            && ToCose(a) == [0xD2] + [0x84] + [0x58, 0x50] + p + [0xA0] + [0x58, |c|] + c + [0x58, 0x40] + a.signature
  {
    hide HeadOctets, ContentType, Context, ProtectedBytes, ClaimsBytes, SigBytes, ToCose;
    ProtectedOctets(a.signer);
    ClaimsOctets(a.payloadHash, a.timestamp);
    SigOctets(a.signer, a.payloadHash, a.timestamp);
    CoseOctets(a);
  }

  lemma FieldsRoundTrip(a: Attestation)
    ensures DecodeFields(ToCose(a)) == Some(a)
  {
    hide Decode, Enc, Wf, ProtectedBytes, ClaimsBytes, DecodeProtected, DecodeClaims;
    var p, c := ProtectedBytes(a.signer), ClaimsBytes(a.payloadHash, a.timestamp);
    ProtectedParts(a.signer);
    ClaimsParts(a.payloadHash, a.timestamp);
    ArtifactParts(a);
    ProtectedRoundTrip(a.signer);
    ClaimsRoundTrip(a.payloadHash, a.timestamp);
    DecodeEnc(ArtifactValue(p, c, a.signature), []);
    assert ToCose(a) + [] == ToCose(a);
  }

  /** The parser accepts exactly the encoder's image. */
  lemma FromCoseExact(b: Bytes, a: Attestation)
    ensures FromCose(b) == Some(a) <==> b == ToCose(a)
  {
    hide DecodeFields, ToCose;
    FieldsRoundTrip(a);
  }

  /** Distinct attestations have distinct artifacts. */
  lemma ToCoseInjective(a: Attestation, a': Attestation)
    requires ToCose(a) == ToCose(a')
    ensures a == a'
  {
    hide DecodeFields, ToCose;
    FieldsRoundTrip(a);
    FieldsRoundTrip(a');
  }

  /** The gate is what makes the parser strict: the decoder alone also accepts trailing
      octets and a long-form tag. */
  lemma GateRejectsLiberalForms(a: Attestation, extra: Bytes)
    requires extra != [] && |extra| <= MAX_ARTIFACT_LEN - 199
    ensures DecodeFields(ToCose(a) + extra) == Some(a) && FromCose(ToCose(a) + extra) == None
    ensures var long := [0xD8, 0x12] + ToCose(a)[1..]; DecodeFields(long) == Some(a) && FromCose(long) == None
  {
    hide Decode, Enc, Wf, ProtectedBytes, ClaimsBytes, DecodeProtected, DecodeClaims, ToCose, Head;
    var p, c := ProtectedBytes(a.signer), ClaimsBytes(a.payloadHash, a.timestamp);
    ArtifactParts(a);
    FieldsRoundTrip(a);
    ArtifactDecodes(a, extra);
    ArtifactDecodes(a, []);
    assert ToCose(a) + [] == ToCose(a);
    assert |ToCose(a) + extra| > |ToCose(a)|;
    LongTagDecodes(a);
  }

  lemma ArtifactDecodes(a: Attestation, extra: Bytes)
    ensures |ProtectedBytes(a.signer)| == 80 && |ClaimsBytes(a.payloadHash, a.timestamp)| < U64_LIMIT
    ensures Decode(ToCose(a) + extra)
         == Some((ArtifactValue(ProtectedBytes(a.signer), ClaimsBytes(a.payloadHash, a.timestamp), a.signature), extra))
  {
    hide Decode, Enc, Wf, ProtectedBytes, ClaimsBytes;
    ProtectedParts(a.signer);
    ClaimsParts(a.payloadHash, a.timestamp);
    DecodeEnc(ArtifactValue(ProtectedBytes(a.signer), ClaimsBytes(a.payloadHash, a.timestamp), a.signature), extra);
  }

  lemma LongTagDecodes(a: Attestation)
    ensures var p, c := ProtectedBytes(a.signer), ClaimsBytes(a.payloadHash, a.timestamp);
            && |p| == 80 && |c| < U64_LIMIT && |ToCose(a)| > 0
            && Decode([0xD8, 0x12] + ToCose(a)[1..]) == Some((ArtifactValue(p, c, a.signature), []))
            && [0xD8, 0x12] + ToCose(a)[1..] != ToCose(a)
  {
    hide Enc, EncAll, Head, Decode, ProtectedBytes, ClaimsBytes;
    var p, c := ProtectedBytes(a.signer), ClaimsBytes(a.payloadHash, a.timestamp);
    ProtectedParts(a.signer);
    ClaimsParts(a.payloadHash, a.timestamp);
    var v := ArtifactValue(p, c, a.signature);
    var body := Enc(v.item);
    EncTagged(v);
    ShortHead(6, 18);
    assert ToCose(a) == [0xD2] + body && ToCose(a)[1..] == body;
    DecodeEnc(v.item, []);
    assert body + [] == body;
    DecodeLongTag(18, v.item, body);
  }

  lemma EncTagged(v: Value)
    requires Wf(v) && v.Tagged?
    ensures Enc(v) == Head(6, v.tag) + Enc(v.item)
  {
  }

  // ----- what a signature covers -----

  /** The signed octets determine signer, payload hash and timestamp. */
  lemma SignedBytesDetermineFields(s: Digest, d: Digest, t: Timestamp, s': Digest, d': Digest, t': Timestamp)
    requires SigBytes(s, d, t) == SigBytes(s', d', t')
    ensures s == s' && d == d' && t == t'
  {
    hide Enc, Wf, ProtectedBytes, ClaimsBytes, DecodeProtected, DecodeClaims;
    ProtectedParts(s);
    ProtectedParts(s');
    ClaimsParts(d, t);
    ClaimsParts(d', t');
    var v := SigStructureValue(ProtectedBytes(s), ClaimsBytes(d, t));
    var v' := SigStructureValue(ProtectedBytes(s'), ClaimsBytes(d', t'));
    EncInjective(v, [], v', []);
    assert v.items[1] == v'.items[1] && v.items[3] == v'.items[3];
    ProtectedRoundTrip(s);
    ProtectedRoundTrip(s');
    ClaimsRoundTrip(d, t);
    ClaimsRoundTrip(d', t');
  }

  /** Signed octets start with 0x84, so they are no UTF-8 text and no note body. */
  lemma SignedBytesAreNotText(s: Digest, d: Digest, t: Timestamp)
    ensures !Utf8.IsUtf8(SigBytes(s, d, t))
  {
  }

  function Sign(h: Hash, c: Scheme, payload: Bytes, now: Timestamp, seed: Digest): Attestation {
    var d, key := h(payload), c.publicKey(seed);
    Attestation(d, c.sign(seed, SigBytes(key, d, now)), key, now)
  }

  predicate Verify(h: Hash, c: Scheme, a: Attestation, payload: Bytes) {
    h(payload) == a.payloadHash && c.verify(a.signer, SigBytes(a.signer, a.payloadHash, a.timestamp), a.signature)
  }

  function VerifyBytes(h: Hash, c: Scheme, cose: Bytes, payload: Bytes): Option<Attestation> {
    match FromCose(cose)
    case None => None
    case Some(a) => if Verify(h, c, a, payload) then Some(a) else None
  }

  /** What verification accepts: exactly the artifact of an attestation whose hash is that of
      the payload and whose signature verifies, under the signer it names, over the signed
      structure of its own fields. */
  lemma VerifyBytesExact(h: Hash, c: Scheme, cose: Bytes, payload: Bytes, a: Attestation)
    ensures VerifyBytes(h, c, cose, payload) == Some(a) <==>
              && cose == ToCose(a) && h(payload) == a.payloadHash
              && c.verify(a.signer, SigBytes(a.signer, a.payloadHash, a.timestamp), a.signature)
  {
    hide ToCose, FromCose, SigBytes;
    FromCoseExact(cose, a);
  }

  /** What signing makes: the given time, the signer's key, the payload's hash, and a
      signature over the signed structure of these. */
  lemma SignFields(h: Hash, c: Scheme, payload: Bytes, now: Timestamp, seed: Digest)
    ensures var a := Sign(h, c, payload, now, seed);
            && a.timestamp == now && a.signer == c.publicKey(seed) && a.payloadHash == h(payload)
            && a.signature == c.sign(seed, SigBytes(c.publicKey(seed), h(payload), now))
  {
  }

  /** A signed attestation survives the wire: its artifact verifies for its payload, and
      for another payload only if the two payloads collide. */
  lemma SignThenVerifyBytes(h: Hash, c: Scheme, payload: Bytes, now: Timestamp, seed: Digest, other: Bytes)
    requires SignaturesVerify(c)
    ensures var a := Sign(h, c, payload, now, seed);
            && a.timestamp == now && a.signer == c.publicKey(seed) && a.payloadHash == h(payload)
            && VerifyBytes(h, c, ToCose(a), payload) == Some(a)
            && (VerifyBytes(h, c, ToCose(a), other).Some? ==> other == payload || Collides(h, (other, payload)))
  {
    hide ToCose, FromCose, SigBytes;
    FromCoseExact(ToCose(Sign(h, c, payload, now, seed)), Sign(h, c, payload, now, seed));
  }
}
