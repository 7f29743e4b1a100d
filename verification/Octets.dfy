/** Bytes, digests and the failure-carrying wrappers every other module uses. */
module Octets {

  /** One octet. Text is modelled as its UTF-8 octets throughout. */
  type Byte = x: int | 0 <= x < 256

  type Bytes = seq<Byte>

  /** A 32-byte value: a SHA-256 digest, an Ed25519 seed or an Ed25519 public key. */
  type Digest = d: Bytes | |d| == 32 witness seq(32, _ => 0)

  /** SHA-256 is a parameter of the model: any function to 32 bytes. Nothing is
      assumed about it; in particular it is not assumed to be injective. */
  type Hash = Bytes -> Digest

  datatype Option<+T> = None | Some(value: T)

  const U64_LIMIT: int := 0x1_0000_0000_0000_0000

  /** Two different inputs with the same hash. */
  ghost predicate Collides(h: Hash, pair: (Bytes, Bytes)) {
    pair.0 != pair.1 && h(pair.0) == h(pair.1)
  }

  /** A collision between an input out of `a` and one out of `b`. Every soundness result
      that rests on the hash hands over such a pair when its conclusion fails, with `a` and
      `b` the finitely many inputs that were hashed. */
  ghost predicate CollidesAmong(h: Hash, pair: (Bytes, Bytes), a: set<Bytes>, b: set<Bytes>) {
    Collides(h, pair) && pair.0 in a && pair.1 in b
  }

  /** The octets of an ASCII string. */
  function Ascii(s: string): (b: Bytes)
    requires forall i :: 0 <= i < |s| ==> s[i] < 128 as char
    ensures |b| == |s| && forall i :: 0 <= i < |b| ==> b[i] == s[i] as int < 128
  {
    seq(|s|, i requires 0 <= i < |s| => s[i] as int)
  }
}
