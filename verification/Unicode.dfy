/** UTF-8 by code points (section 3 of RFC 3629): the octet tests of the model say of text
    what the source says of characters. */
module Unicode {
  import opened Octets
  import opened Utf8
  import opened Names
  import opened Division

  /** A Unicode scalar value: no surrogates. */
  type Scalar = x: int | 0 <= x < 0x11_0000 && !(0xD800 <= x < 0xE000)

  function EncodeChar(x: Scalar): (b: Bytes)
    ensures 1 <= |b| <= 4
  {
    if x < 0x80 then [x]
    else if x < 0x800 then [0xC0 + x / 0x40, 0x80 + x % 0x40]
    else if x < 0x1_0000 then [0xE0 + x / 0x1000, 0x80 + x / 0x40 % 0x40, 0x80 + x % 0x40]
    else [0xF0 + x / 0x4_0000, 0x80 + x / 0x1000 % 0x40, 0x80 + x / 0x40 % 0x40, 0x80 + x % 0x40]
  }

  function EncodeText(xs: seq<Scalar>): Bytes {
    if xs == [] then [] else EncodeChar(xs[0]) + EncodeText(xs[1..])
  }

  /** The White_Space property. */
  predicate WhiteSpace(x: Scalar) {
    || 0x09 <= x <= 0x0D || x == 0x20 || x == 0x85 || x == 0xA0 || x == 0x1680 || 0x2000 <= x <= 0x200A
    || x == 0x2028 || x == 0x2029 || x == 0x202F || x == 0x205F || x == 0x3000
  }

  lemma CharLenOf(x: Scalar, rest: Bytes)
    ensures CharLen(EncodeChar(x) + rest) == |EncodeChar(x)|
  {
  }

  lemma LastSix(q: nat, r: nat)
    requires r < 0x40
    ensures (q * 0x40 + r) / 0x40 == q && (q * 0x40 + r) % 0x40 == r
  {
  }

  lemma ThreeOctets(b: nat, c: nat, d: nat)
    requires c < 0x40 && d < 0x40
    ensures var x := b * 0x1000 + c * 0x40 + d;
            x / 0x1000 == b && x / 0x40 % 0x40 == c && x % 0x40 == d
  {
    LastSix(b * 0x40 + c, d);
    LastSix(b, c);
    DivDiv(b * 0x1000 + c * 0x40 + d, 0x40, 0x40);
  }

  lemma FourOctets(a: nat, b: nat, c: nat, d: nat)
    requires b < 0x40 && c < 0x40 && d < 0x40
    ensures var x := a * 0x4_0000 + b * 0x1000 + c * 0x40 + d;
            x / 0x4_0000 == a && x / 0x1000 % 0x40 == b && x / 0x40 % 0x40 == c && x % 0x40 == d
  {
    var x := a * 0x4_0000 + b * 0x1000 + c * 0x40 + d;
    ThreeOctets(a * 0x40 + b, c, d);
    LastSix(a, b);
    DivDiv(x, 0x1000, 0x40);
  }

  lemma CharOf3(s: Bytes) returns (x: Scalar)
    requires CharLen(s) == 3
    ensures s[..3] == EncodeChar(x)
  {
    var b: nat, c: nat, d: nat := s[0] - 0xE0, s[1] - 0x80, s[2] - 0x80;
    ThreeOctets(b, c, d);
    x := b * 0x1000 + c * 0x40 + d;
    assert EncodeChar(x) == [0xE0 + b, 0x80 + c, 0x80 + d];
  }

  lemma CharOf4(s: Bytes) returns (x: Scalar)
    requires CharLen(s) == 4
    ensures s[..4] == EncodeChar(x)
  {
    var a: nat, b: nat, c: nat, d: nat := s[0] - 0xF0, s[1] - 0x80, s[2] - 0x80, s[3] - 0x80;
    FourOctets(a, b, c, d);
    x := a * 0x4_0000 + b * 0x1000 + c * 0x40 + d;
    assert EncodeChar(x) == [0xF0 + a, 0x80 + b, 0x80 + c, 0x80 + d];
  }

  /** A well-formed character is the encoding of a code point. */
  lemma CharOf(s: Bytes) returns (x: Scalar)
    requires CharLen(s) > 0
    ensures s[..CharLen(s)] == EncodeChar(x)
  {
    var n, b: int := CharLen(s), s[0];
    if n == 1 {
      x := b;
    } else if n == 2 {
      var c: int := s[1];
      x := (b - 0xC0) * 0x40 + (c - 0x80);
      assert EncodeChar(x) == [b, c];
    } else if n == 3 {
      x := CharOf3(s);
    } else {
      x := CharOf4(s);
    }
  }

  lemma {:induction false} EncodedIsUtf8(xs: seq<Scalar>)
    ensures IsUtf8(EncodeText(xs))
  {
    hide CharLen, EncodeChar;
    if xs != [] {
      var c, rest := EncodeChar(xs[0]), EncodeText(xs[1..]);
      CharLenOf(xs[0], rest);
      EncodedIsUtf8(xs[1..]);
      assert (c + rest)[|c|..] == rest;
    }
  }

  lemma {:induction false} CodePoints(s: Bytes) returns (xs: seq<Scalar>)
    requires IsUtf8(s)
    ensures s == EncodeText(xs)
    decreases |s|
  {
    hide CharLen, EncodeChar;
    if s == [] {
      xs := [];
    } else {
      var x := CharOf(s);
      var rest := CodePoints(s[CharLen(s)..]);
      xs := [x] + rest;
      assert s == s[..CharLen(s)] + s[CharLen(s)..];
    }
  }

  /** Octets are UTF-8 exactly when they encode a sequence of code points. */
  lemma Utf8Exact(s: Bytes)
    ensures IsUtf8(s) <==> exists xs :: s == EncodeText(xs)
  {
    hide IsUtf8;
    if IsUtf8(s) {
      var _ := CodePoints(s);
    }
    if xs :| s == EncodeText(xs) {
      EncodedIsUtf8(xs);
    }
  }

  /** The octet test for a white-space character is the property of its code point. */
  lemma SpaceChar(x: Scalar)
    ensures IsSpaceChar(EncodeChar(x)) <==> WhiteSpace(x)
  {
  }

  lemma {:induction false} HasSpaceExact(xs: seq<Scalar>)
    ensures IsUtf8(EncodeText(xs)) && (HasSpace(EncodeText(xs)) <==> exists x :: x in xs && WhiteSpace(x))
  {
    hide CharLen, EncodeChar, IsSpaceChar, WhiteSpace;
    EncodedIsUtf8(xs);
    if xs != [] {
      var c, rest := EncodeChar(xs[0]), EncodeText(xs[1..]);
      CharLenOf(xs[0], rest);
      HasSpaceExact(xs[1..]);
      SpaceChar(xs[0]);
      assert (c + rest)[..|c|] == c && (c + rest)[|c|..] == rest;
      assert forall x :: x in xs <==> x == xs[0] || x in xs[1..];
    }
  }

  /** An ASCII octet occurs in text exactly where its character does. */
  lemma {:induction false} AsciiOctet(xs: seq<Scalar>, a: Byte)
    requires a < 0x80
    ensures a in EncodeText(xs) <==> a in xs
  {
    if xs != [] {
      AsciiOctet(xs[1..], a);
      assert a in EncodeChar(xs[0]) <==> a == xs[0] by {
        if xs[0] < 0x80 {
          assert EncodeChar(xs[0]) == [xs[0]];
        }
      }
      assert forall x :: x in xs <==> x == xs[0] || x in xs[1..];
    }
  }

  /** A name is valid exactly when it is non-empty text without a white-space character and
      without '+'. */
  lemma ValidNameExact(xs: seq<Scalar>)
    ensures ValidName(EncodeText(xs)) <==> xs != [] && forall x :: x in xs ==> !WhiteSpace(x) && x != 0x2B
  {
    hide IsUtf8, HasSpace, EncodeChar, WhiteSpace;
    HasSpaceExact(xs);
    AsciiOctet(xs, 0x2B);
  }

  lemma CharControl(x: Scalar)
    ensures NoControl(EncodeChar(x)) <==> x >= 0x20
  {
    var c := EncodeChar(x);
    assert c[0] in c;
  }

  /** "Below 0x20" is the same test on octets as on characters. */
  lemma {:induction false} NoControlExact(xs: seq<Scalar>)
    ensures NoControl(EncodeText(xs)) <==> forall x :: x in xs ==> x >= 0x20
  {
    hide EncodeChar, NoControl;
    if xs == [] {
      assert NoControl([]) by { NothingControl(); }
    } else {
      NoControlExact(xs[1..]);
      CharControl(xs[0]);
      var c, rest := EncodeChar(xs[0]), EncodeText(xs[1..]);
      NoControlConcat(c, rest);
      assert forall x :: x in xs <==> x == xs[0] || x in xs[1..];
      assert xs[0] in xs;
    }
  }

  lemma NothingControl()
    ensures NoControl([])
  {
  }

  lemma NoControlConcat(a: Bytes, b: Bytes)
    ensures NoControl(a + b) <==> NoControl(a) && NoControl(b)
  {
    assert forall c :: c in a + b <==> c in a || c in b;
  }
}
