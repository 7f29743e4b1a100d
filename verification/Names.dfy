/** Signed-note key names, which double as checkpoint origins, and verifier keys. */
module Names {
  import opened Octets
  import opened Utf8
  import opened Text
  import Base64

  const PLUS: Byte := 0x2B

  /** Non-empty text without white space and without '+'. Control characters that are not
      white space are allowed. */
  predicate ValidName(name: Bytes) {
    name != [] && IsUtf8(name) && !HasSpace(name) && PLUS !in name
  }

  /** No octet below 0x20: on UTF-8 the same test as on characters. */
  predicate NoControl(s: Bytes) { forall c :: c in s ==> c >= 0x20 }

  lemma ValidNameBytes(name: Bytes)
    requires ValidName(name)
    ensures NL !in name && SPACE !in name && PLUS !in name
  {
    if i :| 0 <= i < |name| && (name[i] == NL || name[i] == SPACE) {
      AsciiSpace(name, i);
    }
  }

  /** First four octets of SHA-256(name, 0x0A, 0x01, key). */
  function KeyId(h: Hash, name: Bytes, publicKey: Digest): Option<Bytes> {
    if ValidName(name) then Some(h(name + [0x0A] + [0x01] + publicKey)[..4]) else None
  }

  datatype VerifierKey = VerifierKey(name: Bytes, keyId: Bytes, publicKey: Digest)

  function NewKey(h: Hash, name: Bytes, publicKey: Digest): Option<VerifierKey> {
    match KeyId(h, name, publicKey)
    case None => None
    case Some(id) => Some(VerifierKey(name, id, publicKey))
  }

  /** A verifier key whose key ID is the one its name and public key determine. */
  predicate Consistent(h: Hash, k: VerifierKey) {
    NewKey(h, k.name, k.publicKey) == Some(k)
  }

  // ----- hexadecimal -----

  predicate IsHex(c: Byte) { 0x30 <= c <= 0x39 || 0x41 <= c <= 0x46 || 0x61 <= c <= 0x66 }

  function Nibble(c: Byte): (v: nat)
    requires IsHex(c)
    ensures v < 16
  {
    if c <= 0x39 then c - 0x30 else if c <= 0x46 then c - 0x41 + 10 else c - 0x61 + 10
  }

  function HexDigit(v: nat): Byte
    requires v < 16
  {
    if v < 10 then 0x30 + v else 0x61 + (v - 10)
  }

  function HexLower(b: Bytes): (s: Bytes)
    ensures |s| == 2 * |b|
  {
    if b == [] then [] else [HexDigit(b[0] / 16), HexDigit(b[0] % 16)] + HexLower(b[1..])
  }

  /** Pairs of hex digits of either case, most significant first. */
  function FromHex(s: Bytes): (b: Bytes)
    requires |s| % 2 == 0 && forall i :: 0 <= i < |s| ==> IsHex(s[i])
    ensures |b| == |s| / 2
  {
    if s == [] then [] else [16 * Nibble(s[0]) + Nibble(s[1])] + FromHex(s[2..])
  }

  function LowerByte(c: Byte): Byte { if 0x41 <= c <= 0x5A then c + 32 else c }

  function Lower(s: Bytes): (t: Bytes)
    ensures |t| == |s|
  {
    seq(|s|, i requires 0 <= i < |s| => LowerByte(s[i]))
  }

  lemma HexPair(c: Byte, d: Byte)
    requires IsHex(c) && IsHex(d)
    ensures var b := 16 * Nibble(c) + Nibble(d);
            b < 256 && HexDigit(b / 16) == LowerByte(c) && HexDigit(b % 16) == LowerByte(d)
  {
  }

  lemma {:induction false} FromHexLower(b: Bytes)
    ensures var s := HexLower(b); (forall i :: 0 <= i < |s| ==> IsHex(s[i])) && FromHex(s) == b
  {
    if b != [] {
      FromHexLower(b[1..]);
      assert HexLower(b)[2..] == HexLower(b[1..]);
    }
  }

  lemma {:induction false} HexLowerFrom(s: Bytes)
    requires |s| % 2 == 0 && forall i :: 0 <= i < |s| ==> IsHex(s[i])
    ensures HexLower(FromHex(s)) == Lower(s)
  {
    hide Nibble, HexDigit, LowerByte, IsHex;
    if s != [] {
      HexLowerFrom(s[2..]);
      HexPair(s[0], s[1]);
      assert FromHex(s)[1..] == FromHex(s[2..]);
      assert Lower(s) == [LowerByte(s[0]), LowerByte(s[1])] + Lower(s[2..]);
    }
  }

  function HexDigits(): string { "0123456789abcdef" }

  lemma HexDigitIs(v: nat)
    requires v < 16
    ensures |HexDigits()| == 16 && HexDigit(v) == HexDigits()[v] as int
  {
  }

  /** Two digits per octet, most significant first. */
  lemma {:induction false} HexLowerAt(b: Bytes, i: nat)
    requires i < |b|
    ensures |HexDigits()| == 16
    ensures HexLower(b)[2 * i] == HexDigits()[b[i] / 16] as int
    ensures HexLower(b)[2 * i + 1] == HexDigits()[b[i] % 16] as int
  {
    hide HexDigits, HexDigit;
    HexDigitIs(b[i] / 16);
    HexDigitIs(b[i] % 16);
    if i > 0 {
      HexLowerAt(b[1..], i - 1);
      assert HexLower(b)[2..] == HexLower(b[1..]);
    }
  }

  // ----- the text form -----

  /** `<name>+<8 lowercase hex of key ID>+<base64 of 0x01 and the key>`. */
  function ToSpec(k: VerifierKey): Bytes {
    k.name + [PLUS] + (HexLower(k.keyId) + [PLUS] + Base64.Encode([0x01] + k.publicKey))
  }

  function FromSpec(h: Hash, spec: Bytes): Option<VerifierKey> {
    var i := Find(spec, PLUS);
    if i == |spec| then None
    else
      var name, rest := spec[..i], spec[i + 1..];
      var j := Find(rest, PLUS);
      if j == |rest| then None
      else
        var hex, key := rest[..j], Base64.Decode(rest[j + 1..]);
        if !ValidName(name) then None
        else if |hex| != 8 || exists x :: 0 <= x < 8 && !IsHex(hex[x]) then None
        else if key == None || |key.value| != 33 || key.value[0] != 0x01 then None
        else
          var id := KeyId(h, name, key.value[1..]).value;
          if FromHex(hex) == id then Some(VerifierKey(name, id, key.value[1..])) else None
  }

  /** The text form of a key with these hex digits for its ID. */
  function SpecWith(k: VerifierKey, hex: Bytes): Bytes {
    k.name + [PLUS] + (hex + [PLUS] + Base64.Encode([0x01] + k.publicKey))
  }

  /** Every spelling of the hex digits is parsed to the key, even though the base64 part may
      contain '+'. */
  lemma FromSpecWith(h: Hash, k: VerifierKey, hex: Bytes)
    requires Consistent(h, k) && |hex| == 8 && Lower(hex) == HexLower(k.keyId)
    ensures FromSpec(h, SpecWith(k, hex)) == Some(k)
  {
    hide Find, IsUtf8, HasSpace, HexLower, FromHex, Base64.Encode, Base64.Decode;
    var key := Base64.Encode([0x01] + k.publicKey);
    var rest := hex + [PLUS] + key;
    var spec := k.name + [PLUS] + rest;
    HexOfLower(hex, k.keyId);
    Base64.DecodeEncode([0x01] + k.publicKey);
    assert PLUS !in hex by { HexHasNoPlus(hex); }
    FindFirst(k.name, PLUS, rest);
    FindFirst(hex, PLUS, key);
    assert spec[..|k.name|] == k.name && spec[|k.name| + 1..] == rest;
    assert rest[..|hex|] == hex && rest[|hex| + 1..] == key;
    assert ([0x01] + k.publicKey)[1..] == k.publicKey;
  }

  lemma LowerIsHex(x: Byte)
    requires IsHex(LowerByte(x))
    ensures IsHex(x)
  {
  }

  /** Digits that lower to the printed form of `b` are hex digits and parse to `b`. */
  lemma HexOfLower(hex: Bytes, b: Bytes)
    requires Lower(hex) == HexLower(b)
    ensures |hex| % 2 == 0 && (forall i :: 0 <= i < |hex| ==> IsHex(hex[i])) && FromHex(hex) == b
  {
    hide IsHex, LowerByte, FromHex, HexLower;
    FromHexLower(b);
    forall i | 0 <= i < |hex|
      ensures IsHex(hex[i])
    {
      assert Lower(hex)[i] == LowerByte(hex[i]);
      LowerIsHex(hex[i]);
    }
    HexLowerFrom(hex);
    FromHexLower(FromHex(hex));
  }

  /** Emitting and parsing returns the key. */
  lemma FromSpecToSpec(h: Hash, k: VerifierKey)
    requires Consistent(h, k)
    ensures FromSpec(h, ToSpec(k)) == Some(k)
  {
    hide FromSpec, HexLower, Base64.Encode;
    LowerHexLower(k.keyId);
    FromSpecWith(h, k, HexLower(k.keyId));
  }

  lemma LowerHexLower(b: Bytes)
    ensures Lower(HexLower(b)) == HexLower(b)
  {
    hide IsHex, LowerByte, FromHex, HexLower;
    FromHexLower(b);
    HexLowerFrom(HexLower(b));
  }

  lemma HexHasNoPlus(s: Bytes)
    requires forall i :: 0 <= i < |s| ==> IsHex(s[i])
    ensures PLUS !in s
  {
  }

  /** The octets whose hash gives the key ID: the name, a newline, the algorithm, the key. */
  function KeyPreimage(name: Bytes, publicKey: Digest): Bytes { name + [0x0A, 0x01] + publicKey }

  /** A key is made exactly for a valid name, with the first four octets of that hash. */
  lemma NewKeyExact(h: Hash, name: Bytes, publicKey: Digest, k: VerifierKey)
    ensures NewKey(h, name, publicKey) == Some(k) <==>
              ValidName(name) && k == VerifierKey(name, h(KeyPreimage(name, publicKey))[..4], publicKey)
  {
    hide ValidName;
    assert name + [0x0A] + [0x01] + publicKey == KeyPreimage(name, publicKey);
  }

  /** A specification is accepted as a key exactly when the name is valid, the ID is that of
      name and key, and the text is the emitted form up to the case of the hex digits. */
  lemma FromSpecExact(h: Hash, spec: Bytes, k: VerifierKey)
    ensures FromSpec(h, spec) == Some(k) <==>
              && ValidName(k.name) && k.keyId == h(KeyPreimage(k.name, k.publicKey))[..4]
              && exists hex ::
                   && |hex| == 8 && Lower(hex) == HexLower(k.keyId)
                   && spec == k.name + [0x2B] + (hex + [0x2B] + Base64.Encode([0x01] + k.publicKey))
  {
    hide FromSpec, HexLower, Base64.Encode, Lower, ValidName, NewKey, KeyPreimage;
    NewKeyExact(h, k.name, k.publicKey, k);
    if FromSpec(h, spec) == Some(k) {
      ToSpecFromSpec(h, spec);
    }
    if hex :| Consistent(h, k) && |hex| == 8 && Lower(hex) == HexLower(k.keyId) && spec == SpecWith(k, hex) {
      FromSpecWith(h, k, hex);
    }
  }

  /** An accepted specification is the emitted form of its key up to the case of the hex
      digits, and the key is consistent. */
  lemma ToSpecFromSpec(h: Hash, spec: Bytes)
    requires FromSpec(h, spec).Some?
    ensures var k := FromSpec(h, spec).value;
            Consistent(h, k) && exists hex :: |hex| == 8 && Lower(hex) == HexLower(k.keyId) && spec == SpecWith(k, hex)
  {
    hide IsUtf8, HasSpace, HexLower, FromHex, Base64.Encode, Base64.Decode;
    var k := FromSpec(h, spec).value;
    var i := Find(spec, PLUS);
    var rest := spec[i + 1..];
    var j := Find(rest, PLUS);
    var hex, key := rest[..j], rest[j + 1..];
    HexLowerFrom(hex);
    Base64.EncodeDecode(key);
    assert Base64.Decode(key).value == [0x01] + k.publicKey;
    assert rest == hex + [PLUS] + key;
    assert spec == SpecWith(k, hex);
  }
}
