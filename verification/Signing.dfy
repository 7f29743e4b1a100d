/** Ed25519 as a parameter of the model. No unforgeability is assumed. */
module Signing {
  import opened Octets

  type Signature = s: Bytes | |s| == 64 witness seq(64, _ => 0)

  /** An identity is its 32-byte seed. `verify` is strict verification; callers must pass
      a 64-byte signature for it to accept. */
  datatype Scheme = Scheme(publicKey: Digest -> Digest,
                           sign: (Digest, Bytes) -> Signature,
                           verify: (Digest, Bytes, Bytes) -> bool)

  /** The one law used: a signature verifies under its signer's key. */
  ghost predicate SignaturesVerify(c: Scheme) {
    forall seed: Digest, m: Bytes :: c.verify(c.publicKey(seed), m, c.sign(seed, m))
  }
}
