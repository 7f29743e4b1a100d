/** Standard base64 with padding (section 4 of RFC 4648): canonical padding and zero
    trailing bits are required on decoding. */
module Base64 {
  import opened Octets

  type Sextet = x: int | 0 <= x < 64

  const PAD: Byte := 0x3D

  function Symbol(v: Sextet): Byte {
    if v < 26 then 0x41 + v
    else if v < 52 then 0x61 + (v - 26)
    else if v < 62 then 0x30 + (v - 52)
    else if v == 62 then 0x2B
    else 0x2F
  }

  predicate IsSymbol(c: Byte) {
    0x41 <= c <= 0x5A || 0x61 <= c <= 0x7A || 0x30 <= c <= 0x39 || c == 0x2B || c == 0x2F
  }

  function Value(c: Byte): Sextet
    requires IsSymbol(c)
  {
    if 0x41 <= c <= 0x5A then c - 0x41
    else if 0x61 <= c <= 0x7A then c - 0x61 + 26
    else if 0x30 <= c <= 0x39 then c - 0x30 + 52
    else if c == 0x2B then 62
    else 63
  }

  /** Three octets as four 6-bit digits, and back. */
  function Sextets(a: Byte, b: Byte, c: Byte): (s: seq<Sextet>)
    ensures |s| == 4
  {
    [a / 4, a % 4 * 16 + b / 16, b % 16 * 4 + c / 64, c % 64]
  }

  function Unsextets(s: seq<Sextet>): (t: Bytes)
    requires |s| == 4
    ensures |t| == 3
  {
    var w: int, x: int, y: int, z: int := s[0], s[1], s[2], s[3];
    [w * 4 + x / 16, x % 16 * 16 + y / 4, y % 4 * 64 + z]
  }

  function Quad(a: Byte, b: Byte, c: Byte): (q: Bytes)
    ensures |q| == 4
  {
    var s := Sextets(a, b, c);
    [Symbol(s[0]), Symbol(s[1]), Symbol(s[2]), Symbol(s[3])]
  }

  function Triple(q: Bytes): (t: Bytes)
    requires |q| == 4 && forall i :: 0 <= i < 4 ==> IsSymbol(q[i])
    ensures |t| == 3
  {
    Unsextets([Value(q[0]), Value(q[1]), Value(q[2]), Value(q[3])])
  }

  function Encode(b: Bytes): (s: Bytes)
    ensures |s| == 4 * ((|b| + 2) / 3)
  {
    if |b| == 0 then []
    else if |b| == 1 then Quad(b[0], 0, 0)[..2] + [PAD, PAD]
    else if |b| == 2 then Quad(b[0], b[1], 0)[..3] + [PAD]
    else Quad(b[0], b[1], b[2]) + Encode(b[3..])
  }

  /** The symbols that stand for zero bits. */
  const ZEROS: Bytes := [0x41, 0x41]

  /** A final group padded to `keep` symbols decodes when the dropped bits are zero. */
  function DecodePadded(q: Bytes, keep: nat): Option<Bytes>
    requires 2 <= keep <= 3 && |q| == keep
  {
    if exists i :: 0 <= i < keep && !IsSymbol(q[i]) then None
    else
      var t := Triple(q + ZEROS[..4 - keep]);
      if t[keep - 1] == 0 then Some(t[..keep - 1]) else None
  }

  function Decode(s: Bytes): Option<Bytes> {
    if s == [] then Some([])
    else if |s| < 4 then None
    else if |s| == 4 && s[2] == PAD && s[3] == PAD then DecodePadded(s[..2], 2)
    else if |s| == 4 && s[3] == PAD then DecodePadded(s[..3], 3)
    else if exists i :: 0 <= i < 4 && !IsSymbol(s[i]) then None
    else
      match Decode(s[4..])
      case None => None
      case Some(rest) => Some(Triple(s[..4]) + rest)
  }

  lemma SymbolValue(v: Sextet)
    ensures IsSymbol(Symbol(v)) && Value(Symbol(v)) == v
  {
  }

  lemma ValueSymbol(c: Byte)
    requires IsSymbol(c)
    ensures Symbol(Value(c)) == c
  {
  }

  lemma Digits4(q: nat, r: nat)
    requires r < 4
    ensures (q * 4 + r) / 4 == q && (q * 4 + r) % 4 == r
  {
  }

  lemma Digits16(q: nat, r: nat)
    requires r < 16
    ensures (q * 16 + r) / 16 == q && (q * 16 + r) % 16 == r
  {
  }

  lemma Digits64(q: nat, r: nat)
    requires r < 64
    ensures (q * 64 + r) / 64 == q && (q * 64 + r) % 64 == r
  {
  }

  lemma Regroup(a: Byte, b: Byte, c: Byte)
    ensures Unsextets(Sextets(a, b, c)) == [a, b, c]
    ensures c == 0 ==> Sextets(a, b, c)[3] == 0
    ensures b == 0 && c == 0 ==> Sextets(a, b, c)[2] == 0
  {
    Digits16(a % 4, b / 16);
    Digits4(b % 16, c / 64);
  }

  lemma Ungroup(s: seq<Sextet>)
    requires |s| == 4
    ensures var t := Unsextets(s);
            Sextets(t[0], t[1], t[2]) == s && (s[2] == 0 && s[3] == 0 ==> t[2] == 0)
  {
    Digits4(s[0], s[1] / 16);
    Digits16(s[1] % 16, s[2] / 4);
    Digits64(s[2] % 4, s[3]);
  }

  lemma QuadTriple(a: Byte, b: Byte, c: Byte)
    ensures var q := Quad(a, b, c);
            && (forall i :: 0 <= i < 4 ==> IsSymbol(q[i]) && q[i] != PAD)
            && Triple(q) == [a, b, c]
            && (c == 0 ==> q[3] == 0x41) && (b == 0 && c == 0 ==> q[2] == 0x41)
  {
    hide Sextets, Unsextets;
    var s := Sextets(a, b, c);
    SymbolValue(s[0]);
    SymbolValue(s[1]);
    SymbolValue(s[2]);
    SymbolValue(s[3]);
    var q := Quad(a, b, c);
    assert [Value(q[0]), Value(q[1]), Value(q[2]), Value(q[3])] == s;
    Regroup(a, b, c);
  }

  lemma TripleQuad(q: Bytes)
    requires |q| == 4 && forall i :: 0 <= i < 4 ==> IsSymbol(q[i])
    ensures var t := Triple(q);
            && Quad(t[0], t[1], t[2]) == q
            && (q[2] == 0x41 && q[3] == 0x41 ==> t[2] == 0)
  {
    hide Sextets, Unsextets, Symbol;
    ValueSymbol(q[0]);
    ValueSymbol(q[1]);
    ValueSymbol(q[2]);
    ValueSymbol(q[3]);
    Ungroup([Value(q[0]), Value(q[1]), Value(q[2]), Value(q[3])]);
  }

  /** Decoding inverts encoding. */
  lemma {:induction false} DecodeEncode(b: Bytes)
    ensures Decode(Encode(b)) == Some(b)
  {
    hide Quad, Triple, IsSymbol, Symbol;
    var s := Encode(b);
    if |b| == 1 {
      QuadTriple(b[0], 0, 0);
      var q := Quad(b[0], 0, 0);
      assert s[..2] == q[..2] && s[..2] + ZEROS[..2] == q;
      assert DecodePadded(s[..2], 2) == Some([b[0], 0, 0][..1]) && [b[0], 0, 0][..1] == b;
    } else if |b| == 2 {
      QuadTriple(b[0], b[1], 0);
      var q := Quad(b[0], b[1], 0);
      assert s[2] == q[2] && s[..3] == q[..3] && s[..3] + ZEROS[..1] == q;
      assert DecodePadded(s[..3], 3) == Some([b[0], b[1], 0][..2]) && [b[0], b[1], 0][..2] == b;
    } else if |b| > 2 {
      QuadTriple(b[0], b[1], b[2]);
      DecodeEncode(b[3..]);
      assert s[..4] == Quad(b[0], b[1], b[2]) && s[4..] == Encode(b[3..]);
      var q := Quad(b[0], b[1], b[2]);
      assert forall i :: 0 <= i < 4 ==> s[i] == q[i];
      assert b == [b[0], b[1], b[2]] + b[3..];
    }
  }

  /** Only the canonical text of a byte string decodes to it. */
  lemma {:induction false} EncodeDecode(s: Bytes)
    requires Decode(s).Some?
    ensures Encode(Decode(s).value) == s
  {
    hide Quad, Triple, IsSymbol, Symbol;
    if s != [] {
      if |s| == 4 && s[3] == PAD {
        EncodePadded(s, if s[2] == PAD then 2 else 3);
      } else {
        EncodeDecode(s[4..]);
        EncodeGroup(s[..4], Decode(s[4..]).value);
        assert s == s[..4] + s[4..];
      }
    }
  }

  lemma EncodeGroup(q: Bytes, rest: Bytes)
    requires |q| == 4 && forall i :: 0 <= i < 4 ==> IsSymbol(q[i])
    ensures Encode(Triple(q) + rest) == q + Encode(rest)
  {
    hide Quad, Triple, IsSymbol, Symbol;
    TripleQuad(q);
    assert (Triple(q) + rest)[3..] == rest;
  }

  lemma EncodePadded(s: Bytes, keep: nat)
    requires |s| == 4 && 2 <= keep <= 3 && s[3] == PAD && (keep == 2 ==> s[2] == PAD)
    requires DecodePadded(s[..keep], keep).Some?
    ensures Encode(DecodePadded(s[..keep], keep).value) == s
  {
    hide Quad, Triple, IsSymbol, Symbol;
    var q := s[..keep] + ZEROS[..4 - keep];
    PaddedSymbols(s[..keep], keep);
    TripleQuad(q);
    assert s == q[..keep] + [PAD, PAD][..4 - keep];
  }

  lemma PaddedSymbols(q: Bytes, keep: nat)
    requires 2 <= keep <= 3 && |q| == keep && DecodePadded(q, keep).Some?
    ensures var p := q + ZEROS[..4 - keep]; forall i :: 0 <= i < 4 ==> IsSymbol(p[i])
  {
  }

  /** Encoded text is plain ASCII: letters, digits, '+', '/' and '='. */
  predicate IsBase64Byte(c: Byte) { IsSymbol(c) || c == PAD }

  lemma {:induction false} EncodeAlphabet(b: Bytes)
    ensures forall c :: c in Encode(b) ==> IsBase64Byte(c)
  {
    hide Quad, IsSymbol;
    if |b| == 1 {
      QuadTriple(b[0], 0, 0);
    } else if |b| == 2 {
      QuadTriple(b[0], b[1], 0);
    } else if |b| > 2 {
      QuadTriple(b[0], b[1], b[2]);
      EncodeAlphabet(b[3..]);
    }
  }

  // ----- the RFC's alphabet and bit order -----

  /** Sixteen symbols of Table 1 of RFC 4648 at a time. */
  function Alphabet(row: nat): string {
    if row == 0 then "ABCDEFGHIJKLMNOP"
    else if row == 1 then "QRSTUVWXYZabcdef"
    else if row == 2 then "ghijklmnopqrstuv"
    else "wxyz0123456789+/"
  }

  lemma Row0(k: nat)
    requires k < 16
    ensures |Alphabet(0)| == 16 && Symbol(k) == Alphabet(0)[k] as int
  {
  }

  lemma Row1(k: nat)
    requires k < 16
    ensures |Alphabet(1)| == 16 && Symbol(16 + k) == Alphabet(1)[k] as int
  {
  }

  lemma Row2(k: nat)
    requires k < 16
    ensures |Alphabet(2)| == 16 && Symbol(32 + k) == Alphabet(2)[k] as int
  {
  }

  lemma Row3(k: nat)
    requires k < 16
    ensures |Alphabet(3)| == 16 && Symbol(48 + k) == Alphabet(3)[k] as int
  {
  }

  lemma SymbolIsAlphabet(v: Sextet)
    ensures |Alphabet(v / 16)| == 16 && Symbol(v) == Alphabet(v / 16)[v % 16] as int
  {
    hide Alphabet, Symbol;
    Row0(v % 16);
    Row1(v % 16);
    Row2(v % 16);
    Row3(v % 16);
  }

  /** The octet at `i`, zero past the end. */
  function OctetAt(b: Bytes, i: nat): nat { if i < |b| then b[i] else 0 }

  /** The 24 bits of the `g`-th group of three octets. */
  function Group(b: Bytes, g: nat): nat {
    0x1_0000 * OctetAt(b, 3 * g) + 0x100 * OctetAt(b, 3 * g + 1) + OctetAt(b, 3 * g + 2)
  }

  /** The `r`-th 6 bits of 24, most significant first. */
  function SixBits(n: nat, r: nat): Sextet {
    if r == 0 then n / 0x4_0000 % 64 else if r == 1 then n / 0x1000 % 64 else if r == 2 then n / 0x40 % 64 else n % 64
  }

  lemma Shifted(a: nat, b: nat, c: nat)
    requires a < 256 && b < 256 && c < 256
    ensures var n := 0x1_0000 * a + 0x100 * b + c;
            n / 0x4_0000 == a / 4 && n / 0x1000 == 16 * a + b / 16 && n / 0x40 == 1024 * a + 4 * b + c / 64
  {
  }

  lemma QuadDigits(a: nat, b: nat, c: nat, r: nat)
    requires r < 4 && a < 256 && b < 256 && c < 256
    ensures Sextets(a, b, c)[r] == SixBits(0x1_0000 * a + 0x100 * b + c, r)
  {
    Shifted(a, b, c);
    LowBits(a, b, c);
  }

  lemma Mod64(q: nat, r: nat)
    requires r < 64
    ensures (64 * q + r) % 64 == r
  {
  }

  lemma LowBits(a: nat, b: nat, c: nat)
    requires a < 256 && b < 256 && c < 256
    ensures a / 4 % 64 == a / 4 && (16 * a + b / 16) % 64 == a % 4 * 16 + b / 16
    ensures (1024 * a + 4 * b + c / 64) % 64 == b % 16 * 4 + c / 64 && (0x1_0000 * a + 0x100 * b + c) % 64 == c % 64
  {
    Mod64(a / 4, a % 4 * 16 + b / 16);
    Mod64(16 * a + b / 16, b % 16 * 4 + c / 64);
    Mod64(1024 * a + 4 * b + c / 64, c % 64);
  }

  lemma EncodeStep(b: Bytes)
    ensures |b| == 1 ==> Encode(b) == Quad(b[0], 0, 0)[..2] + [PAD, PAD]
    ensures |b| == 2 ==> Encode(b) == Quad(b[0], b[1], 0)[..3] + [PAD]
    ensures |b| >= 3 ==> Encode(b) == Quad(b[0], b[1], b[2]) + Encode(b[3..])
  {
    hide Quad;
  }

  lemma QuadAt(a: nat, b: nat, c: nat, r: nat)
    requires r < 4 && a < 256 && b < 256 && c < 256
    ensures Quad(a, b, c)[r] == Symbol(SixBits(0x1_0000 * a + 0x100 * b + c, r))
  {
    hide Symbol, SixBits, Sextets;
    QuadDigits(a, b, c, r);
  }

  lemma FirstQuad(b: Bytes, r: nat)
    requires r < 4 && b != []
    ensures Encode(b)[r] == if r <= 1 || r <= |b| then Symbol(SixBits(Group(b, 0), r)) else 0x3D
  {
    hide Symbol, SixBits, Encode, Quad;
    EncodeStep(b);
    QuadAt(OctetAt(b, 0), OctetAt(b, 1), OctetAt(b, 2), r);
  }

  lemma RestOfText(b: Bytes)
    requires |b| >= 3
    ensures Encode(b)[4..] == Encode(b[3..])
  {
    hide Quad, Encode;
    EncodeStep(b);
    var q, rest := Quad(b[0], b[1], b[2]), Encode(b[3..]);
    assert (q + rest)[4..] == rest;
  }

  lemma RestOfOctets(b: Bytes, i: nat)
    requires |b| >= 3
    ensures OctetAt(b, i + 3) == OctetAt(b[3..], i)
  {
  }

  lemma RestOfGroups(b: Bytes, g: nat)
    requires |b| >= 3 && g > 0
    ensures Group(b, g) == Group(b[3..], g - 1)
  {
    hide OctetAt;
    RestOfOctets(b, 3 * (g - 1));
    RestOfOctets(b, 3 * (g - 1) + 1);
    RestOfOctets(b, 3 * (g - 1) + 2);
  }

  /** Every symbol of the text by position: the next six bits of its group, or padding where
      the group has no octet left. */
  lemma {:induction false} EncodeAt(b: Bytes, g: nat, r: nat)
    requires r < 4 && 3 * g < |b|
    ensures Encode(b)[4 * g + r] == if r <= 1 || 3 * g + r <= |b| then Symbol(SixBits(Group(b, g), r)) else 0x3D
    decreases |b|
  {
    hide Symbol, SixBits, Encode, Group;
    if g == 0 {
      FirstQuad(b, r);
    } else {
      RestOfText(b);
      RestOfGroups(b, g);
      EncodeAt(b[3..], g - 1, r);
      assert Encode(b)[4 * g + r] == Encode(b)[4..][4 * (g - 1) + r];
    }
  }
}
