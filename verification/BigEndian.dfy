/** Fixed-width big-endian numbers. */
module BigEndian {
  import opened Octets
  import opened Division

  function Exp256(w: nat): (e: nat)
    ensures e > 0
  {
    if w == 0 then 1 else 256 * Exp256(w - 1)
  }

  function ToBe(n: nat, w: nat): (b: Bytes)
    ensures |b| == w
  {
    if w == 0 then [] else ToBe(n / 256, w - 1) + [n % 256]
  }

  function FromBe(b: Bytes): nat {
    if b == [] then 0 else 256 * FromBe(b[..|b| - 1]) + b[|b| - 1]
  }

  lemma {:induction false} FromToBe(n: nat, w: nat)
    requires n < Exp256(w)
    ensures FromBe(ToBe(n, w)) == n
  {
    if w > 0 {
      FromToBe(n / 256, w - 1);
      assert ToBe(n, w)[..w - 1] == ToBe(n / 256, w - 1);
    }
  }

  lemma {:induction false} FromBeBound(b: Bytes)
    ensures FromBe(b) < Exp256(|b|)
  {
    if b != [] {
      FromBeBound(b[..|b| - 1]);
    }
  }

  lemma Exp256Values()
    ensures Exp256(1) == 256 && Exp256(2) == 0x1_0000 && Exp256(4) == 0x1_0000_0000 && Exp256(8) == U64_LIMIT
  {
  }

  /** The octet at each position: most significant first. */
  lemma {:induction false} ToBeAt(n: nat, w: nat, i: nat)
    requires i < w
    ensures Exp256(w - 1 - i) > 0 && ToBe(n, w)[i] == n / Exp256(w - 1 - i) % 256
  {
    if i < w - 1 {
      ToBeAt(n / 256, w - 1, i);
      DivDiv(n, 256, Exp256(w - 2 - i));
    }
  }

  /** The values of an octet string by position. */
  lemma FromBeOctets(a: Byte, b: Byte, c: Byte, d: Byte)
    ensures FromBe([a]) == a && FromBe([a, b]) == 0x100 * a + b
    ensures FromBe([a, b, c, d]) == 0x100_0000 * a + 0x1_0000 * b + 0x100 * c + d
  {
    assert [a][..0] == [] && [a, b][..1] == [a] && [a, b, c][..2] == [a, b] && [a, b, c, d][..3] == [a, b, c];
    assert FromBe([a, b, c]) == 0x100 * FromBe([a, b]) + c;
  }
}
