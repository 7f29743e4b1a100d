/** The self-contained proof artifacts: what a third party checks, and what the log
    builds and checks itself before emitting. */
module Artifacts {
  import opened Octets
  import opened Merkle
  import opened MerkleRecursion
  import opened MerkleVerify
  import opened MerkleInputs
  import opened MerkleTrace
  import opened MerkleSoundness
  import opened MerkleSize
  import opened Names
  import opened Signing
  import opened SignedNote
  import opened ProofText
  import opened Checkpoint
  import Base64

  const MAX_INCLUSION_HASHES := 64
  const MAX_CONSISTENCY_HASHES := 128

  function InclusionFormat(): Bytes { Ascii("lys/log-inclusion-proof/v1") }

  function ConsistencyFormat(): Bytes { Ascii("lys/log-consistency-proof/v1") }

  /** The kind strings, octet by octet. */
  lemma InclusionFormatOctets()
    ensures InclusionFormat() ==
              [0x6C, 0x79, 0x73, 0x2F, 0x6C, 0x6F, 0x67, 0x2D, 0x69, 0x6E, 0x63, 0x6C, 0x75, 0x73, 0x69, 0x6F, 0x6E,
               0x2D, 0x70, 0x72, 0x6F, 0x6F, 0x66, 0x2F, 0x76, 0x31]
  {
  }

  lemma ConsistencyFormatOctets()
    ensures ConsistencyFormat() ==
              [0x6C, 0x79, 0x73, 0x2F, 0x6C, 0x6F, 0x67, 0x2D, 0x63, 0x6F, 0x6E, 0x73, 0x69, 0x73, 0x74, 0x65, 0x6E,
               0x63, 0x79, 0x2D, 0x70, 0x72, 0x6F, 0x6F, 0x66, 0x2F, 0x76, 0x31]
  {
  }

  datatype InclusionArtifact = InclusionArtifact(format: Bytes, size: nat, index: nat, hashes: seq<Bytes>,
                                                 checkpoint: Bytes)

  datatype ConsistencyArtifact = ConsistencyArtifact(format: Bytes, size1: nat, size2: nat, hashes: seq<Bytes>,
                                                     checkpoint1: Bytes, checkpoint2: Bytes)

  // ----- verification -----

  /** The hash entries as proof nodes. */
  function NodesOf(hashes: seq<Bytes>): Option<seq<Digest>> {
    match DecodeHashes(hashes)
    case None => None
    case Some(b) => Nodes(b)
  }

  function InclusionVerdict(h: Hash, c: Scheme, a: InclusionArtifact, leaf: Bytes, vk: VerifierKey)
    : Option<CheckpointBody>
  {
    if a.format != InclusionFormat() || a.size >= MAX_JSON_TREE_SIZE || a.index >= a.size
       || |a.hashes| > MAX_INCLUSION_HASHES then None
    else
      match (NodesOf(a.hashes), VerifyCheckpoint(c, a.checkpoint, vk))
      case (Some(path), Some(body)) =>
        if body.size == a.size && AcceptsInclusion(h, LeafHash(h, leaf), a.index, body.size, path, body.root)
        then Some(body) else None
      case _ => None
  }

  function ConsistencyVerdict(h: Hash, c: Scheme, a: ConsistencyArtifact, vk: VerifierKey)
    : Option<(CheckpointBody, CheckpointBody)>
  {
    if a.format != ConsistencyFormat() || a.size1 == 0 || a.size1 >= a.size2 || a.size2 >= MAX_JSON_TREE_SIZE
       || |a.hashes| > MAX_CONSISTENCY_HASHES then None
    else
      match (NodesOf(a.hashes), VerifyCheckpoint(c, a.checkpoint1, vk), VerifyCheckpoint(c, a.checkpoint2, vk))
      case (Some(path), Some(b1), Some(b2)) =>
        if b1.size == a.size1 && b2.size == a.size2
           && AcceptsConsistency(h, b1.size, b2.size, b1.root, b2.root, path)
        then Some((b1, b2)) else None
      case _ => None
  }

  /** Every input hashed to recompute the root of an inclusion artifact. */
  function InclusionHashed(h: Hash, a: InclusionArtifact, leaf: Bytes): set<Bytes> {
    if a.index >= a.size || NodesOf(a.hashes).None? then {}
    else InclusionInputs(h, a.index, a.size, leaf, NodesOf(a.hashes).value)
  }

  /** Every input hashed to recompute the newer root of a consistency artifact. */
  function ConsistencyHashed(h: Hash, a: ConsistencyArtifact, older: Digest): set<Bytes> {
    if !(0 < a.size1 <= a.size2) || NodesOf(a.hashes).None? then {}
    else RootsInputs(h, a.size1, a.size2, Seeded(a.size1, older, NodesOf(a.hashes).value))
  }

  /** The third party's run: the decoding loop, the checkpoint, then the verifier loop, which
      hashes exactly the inputs above. */
  method VerifyInclusionArtifact(h: Hash, c: Scheme, a: InclusionArtifact, leaf: Bytes, vk: VerifierKey)
    returns (r: Option<CheckpointBody>, ghost hashed: set<Bytes>)
    ensures r == InclusionVerdict(h, c, a, leaf, vk)
    ensures r.Some? ==> hashed == InclusionHashed(h, a, leaf)
  {
    hide DecodeHashes, Nodes, VerifyCheckpoint, AcceptsInclusion, InclusionFormat, LeafHash;
    hide InclusionInputs, ClimbInputs;
    if a.format != InclusionFormat() || a.size >= MAX_JSON_TREE_SIZE || a.index >= a.size
       || |a.hashes| > MAX_INCLUSION_HASHES {
      return None, {};
    }
    var bytes := DecodeHashEntries(a.hashes);
    if bytes.None? {
      return None, {};
    }
    var body := VerifyCheckpoint(c, a.checkpoint, vk);
    if body.None? || body.value.size != a.size {
      return None, {};
    }
    var path := Nodes(bytes.value);
    if path.None? {
      return None, {};
    }
    var ok, nodes := VerifyInclusion(h, LeafHash(h, leaf), a.index, body.value.size, path.value, body.value.root);
    hashed := {[0x00] + leaf} + nodes;
    InclusionTrace(h, a.index, body.value.size, leaf, path.value);
    r := if ok then body else None;
  }

  method VerifyConsistencyArtifact(h: Hash, c: Scheme, a: ConsistencyArtifact, vk: VerifierKey)
    returns (r: Option<(CheckpointBody, CheckpointBody)>, ghost hashed: set<Bytes>)
    ensures r == ConsistencyVerdict(h, c, a, vk)
    ensures r.Some? ==> hashed == ConsistencyHashed(h, a, r.value.0.root)
  {
    hide DecodeHashes, Nodes, VerifyCheckpoint, AcceptsConsistency, ConsistencyFormat, RootsInputs, Seeded;
    if a.format != ConsistencyFormat() || a.size1 == 0 || a.size1 >= a.size2 || a.size2 >= MAX_JSON_TREE_SIZE
       || |a.hashes| > MAX_CONSISTENCY_HASHES {
      return None, {};
    }
    var bytes := DecodeHashEntries(a.hashes);
    if bytes.None? {
      return None, {};
    }
    var b1 := VerifyCheckpoint(c, a.checkpoint1, vk);
    var b2 := VerifyCheckpoint(c, a.checkpoint2, vk);
    if b1.None? || b2.None? || b1.value.size != a.size1 || b2.value.size != a.size2 {
      return None, {};
    }
    var path := Nodes(bytes.value);
    if path.None? {
      return None, {};
    }
    var ok: bool;
    ok, hashed := VerifyConsistency(h, b1.value.size, b2.value.size, b1.value.root, b2.value.root, path.value);
    r := if ok then Some((b1.value, b2.value)) else None;
  }

  /** Entries decode to `path` exactly when they are its texts. */
  lemma NodesOfExact(hashes: seq<Bytes>, path: seq<Digest>)
    ensures NodesOf(hashes) == Some(path) <==> hashes == Texts(path)
  {
    hide DecodeHashes, Nodes, Join, Texts;
    DecodeHashesExact(hashes, path);
    NodesJoin(path);
    if NodesOf(hashes) == Some(path) {
      JoinNodes(DecodeHashes(hashes).value);
    }
  }

  /** A proof is refused as text exactly when an entry is not the base64 of 32 octets: the
      later check that the bytes are a whole number of digests never fails. */
  lemma NodesOfEntries(hashes: seq<Bytes>)
    ensures NodesOf(hashes).Some? <==>
              forall t :: t in hashes ==> Base64.Decode(t).Some? && |Base64.Decode(t).value| == 32
    ensures DecodeHashes(hashes).Some? ==> Nodes(DecodeHashes(hashes).value).Some?
  {
    hide Base64.Decode, DecodeHashes, Nodes;
    DecodedIsWhole(hashes);
  }

  // ----- what acceptance means -----

  lemma CheckpointOrigin(c: Scheme, text: Bytes, vk: VerifierKey)
    ensures VerifyCheckpoint(c, text, vk).Some? ==> VerifyCheckpoint(c, text, vk).value.origin == vk.name
  {
    hide VerifyNote, Checkpoint.Parse;
  }

  /** Everything an inclusion artifact must satisfy besides its hashes and leaf. */
  ghost predicate InclusionBinding(c: Scheme, a: InclusionArtifact, vk: VerifierKey, body: CheckpointBody) {
    && a.format == InclusionFormat() && a.index < a.size < MAX_JSON_TREE_SIZE
    && SignedCheckpoint(c, a.checkpoint, vk, body) && body.size == a.size && body.origin == vk.name
  }

  /** For any leaf list with the signed size and root, the artifact is accepted exactly when
      it is bound to its checkpoint, the leaf is the one at the index and the hashes are its
      audit path; if it is accepted otherwise, an input of the verifier collides with one of
      the tree. */
  lemma InclusionArtifactExact(h: Hash, c: Scheme, a: InclusionArtifact, leaf: Bytes, vk: VerifierKey,
                               body: CheckpointBody, leaves: seq<Bytes>) returns (pair: (Bytes, Bytes))
    requires |leaves| == body.size && Mth(h, leaves) == body.root
    ensures && InclusionBinding(c, a, vk, body)
            && leaf == leaves[a.index] && a.hashes == Texts(Path(h, a.index, leaves)) ==>
              InclusionVerdict(h, c, a, leaf, vk) == Some(body)
    ensures InclusionVerdict(h, c, a, leaf, vk) == Some(body) ==>
              && InclusionBinding(c, a, vk, body)
              && (|| (leaf == leaves[a.index] && a.hashes == Texts(Path(h, a.index, leaves)))
                  || CollidesAmong(h, pair, InclusionHashed(h, a, leaf), TreeInputs(h, leaves)))
  {
    hide VerifyCheckpoint, NodesOf, Texts, Path, AcceptsInclusion, LeafHash, Mth, InclusionFormat, TreeInputs;
    hide SignedCheckpoint;
    pair := ([], []);
    VerifyCheckpointExact(c, a.checkpoint, vk, body);
    CheckpointOrigin(c, a.checkpoint, vk);
    if InclusionBinding(c, a, vk, body) {
      var honest := Path(h, a.index, leaves);
      ProofSizeBound(h, a.index, leaves);
      NodesOfExact(a.hashes, honest);
      var path := if NodesOf(a.hashes).Some? then NodesOf(a.hashes).value else honest;
      NodesOfExact(a.hashes, path);
      pair := InclusionExact(h, leaves, a.index, leaf, path);
    }
  }

  /** Everything a consistency artifact must satisfy besides its hashes and older root. */
  ghost predicate ConsistencyBinding(c: Scheme, a: ConsistencyArtifact, vk: VerifierKey,
                                     b1: CheckpointBody, b2: CheckpointBody)
  {
    && a.format == ConsistencyFormat() && 0 < a.size1 < a.size2 < MAX_JSON_TREE_SIZE
    && SignedCheckpoint(c, a.checkpoint1, vk, b1) && b1.size == a.size1
    && SignedCheckpoint(c, a.checkpoint2, vk, b2) && b2.size == a.size2
    && b1.origin == b2.origin == vk.name
  }

  /** The newer list alone settles everything: the artifact is accepted exactly when it is
      bound to its checkpoints, the older root is the root of the prefix of the older size
      and the hashes are the proof; if it is accepted otherwise, an input of the verifier
      collides with one of the newer tree. */
  lemma ConsistencyArtifactExact(h: Hash, c: Scheme, a: ConsistencyArtifact, vk: VerifierKey,
                                 b1: CheckpointBody, b2: CheckpointBody, newer: seq<Bytes>)
    returns (pair: (Bytes, Bytes))
    requires |newer| == b2.size && Mth(h, newer) == b2.root
    ensures && ConsistencyBinding(c, a, vk, b1, b2) && b1.root == Mth(h, newer[..b1.size])
            && a.hashes == Texts(Proof(h, b1.size, newer)) ==>
              ConsistencyVerdict(h, c, a, vk) == Some((b1, b2))
    ensures ConsistencyVerdict(h, c, a, vk) == Some((b1, b2)) ==>
              && ConsistencyBinding(c, a, vk, b1, b2)
              && (|| (b1.root == Mth(h, newer[..b1.size]) && a.hashes == Texts(Proof(h, b1.size, newer)))
                  || CollidesAmong(h, pair, ConsistencyHashed(h, a, b1.root), TreeInputs(h, newer)))
  {
    hide VerifyCheckpoint, NodesOf, Texts, Proof, SubProof, Mth, ConsistencyFormat, Roots, IsPow2;
    hide TreeInputs, RootsInputs, SignedCheckpoint;
    pair := ([], []);
    VerifyCheckpointExact(c, a.checkpoint1, vk, b1);
    VerifyCheckpointExact(c, a.checkpoint2, vk, b2);
    CheckpointOrigin(c, a.checkpoint1, vk);
    CheckpointOrigin(c, a.checkpoint2, vk);
    if ConsistencyBinding(c, a, vk, b1, b2) {
      var honest := Proof(h, b1.size, newer);
      ProofSizeBound(h, b1.size, newer);
      NodesOfExact(a.hashes, honest);
      var path := if NodesOf(a.hashes).Some? then NodesOf(a.hashes).value else honest;
      NodesOfExact(a.hashes, path);
      if b1.root == Mth(h, newer[..b1.size]) {
        pair := ConsistencyExact(h, b1.size, newer, path);
      } else if AcceptsConsistency(h, b1.size, b2.size, b1.root, b2.root, path) {
        pair := RootsCollision(h, b1.size, newer, b1.root, Seeded(b1.size, b1.root, path));
      }
    }
  }

  /** An accepted consistency artifact: the two checkpoints are of one origin, and any leaf
      lists with the signed sizes and roots extend one another, or an input hashed for the
      older list or the proof collides with one hashed for the newer list or its prefix. */
  lemma ConsistencyArtifactSound(h: Hash, c: Scheme, a: ConsistencyArtifact, vk: VerifierKey,
                                 b1: CheckpointBody, b2: CheckpointBody, older: seq<Bytes>, newer: seq<Bytes>)
    returns (pair: (Bytes, Bytes))
    requires |older| == b1.size && Mth(h, older) == b1.root && |newer| == b2.size && Mth(h, newer) == b2.root
    ensures ConsistencyVerdict(h, c, a, vk) == Some((b1, b2)) ==>
              && b1.origin == b2.origin == vk.name && |older| < |newer|
              && (|| older < newer
                  || CollidesAmong(h, pair, TreeInputs(h, older) + ConsistencyHashed(h, a, b1.root),
                                   TreeInputs(h, newer) + TreeInputs(h, newer[..|older|])))
  {
    hide NodesOf, AcceptsConsistency, Mth, ConsistencyFormat, VerifyNote, TreeInputs, RootsInputs;
    pair := ([], []);
    if ConsistencyVerdict(h, c, a, vk) == Some((b1, b2)) && !(older <= newer) {
      pair := PrefixCollision(h, older, newer, NodesOf(a.hashes).value);
    }
  }

  /** What was proved included stays included: a leaf accepted at an index under the older
      checkpoint of an accepted consistency artifact is the leaf at that index of the newer
      log, whatever lists the log ever showed anyone, or an input hashed for the two proofs
      collides with one hashed for the newer list or its prefix. */
  lemma IncludedStaysIncluded(h: Hash, c: Scheme, ai: InclusionArtifact, ac: ConsistencyArtifact, leaf: Bytes,
                              vk: VerifierKey, b1: CheckpointBody, b2: CheckpointBody, newer: seq<Bytes>)
    returns (pair: (Bytes, Bytes))
    requires |newer| == b2.size && Mth(h, newer) == b2.root
    ensures InclusionVerdict(h, c, ai, leaf, vk) == Some(b1) && ConsistencyVerdict(h, c, ac, vk) == Some((b1, b2)) ==>
              && ai.index < b1.size < |newer|
              && (|| leaf == newer[ai.index]
                  || CollidesAmong(h, pair, InclusionHashed(h, ai, leaf) + ConsistencyHashed(h, ac, b1.root),
                                   TreeInputs(h, newer) + TreeInputs(h, newer[..b1.size])))
  {
    hide NodesOf, AcceptsConsistency, AcceptsInclusion, Mth, LeafHash, InclusionFormat, ConsistencyFormat;
    hide VerifyCheckpoint, Path, Texts, Proof, TreeInputs, ConsistencyHashed, InclusionInputs;
    pair := ConsistencyArtifactExact(h, c, ac, vk, b1, b2, newer);
    if && InclusionVerdict(h, c, ai, leaf, vk) == Some(b1) && ConsistencyVerdict(h, c, ac, vk) == Some((b1, b2))
       && b1.root == Mth(h, newer[..b1.size]) {
      pair := InclusionExact(h, newer[..b1.size], ai.index, leaf, NodesOf(ai.hashes).value);
    }
  }

  lemma VerdictIsCheckpoint(h: Hash, c: Scheme, a: InclusionArtifact, leaf: Bytes, vk: VerifierKey)
    ensures InclusionVerdict(h, c, a, leaf, vk).Some? ==>
              InclusionVerdict(h, c, a, leaf, vk) == VerifyCheckpoint(c, a.checkpoint, vk)
  {
    hide NodesOf, VerifyCheckpoint, AcceptsInclusion, InclusionFormat;
  }

  lemma NewKeyName(h: Hash, name: Bytes, publicKey: Digest)
    ensures NewKey(h, name, publicKey).Some? ==> NewKey(h, name, publicKey).value.name == name
  {
  }

  // ----- building -----

  function SignCheckpoint(h: Hash, c: Scheme, leaves: seq<Bytes>, origin: Bytes, seed: Digest): Option<Bytes> {
    match NewBody(origin, |leaves|, Mth(h, leaves))
    case None => None
    case Some(body) => SignNote(h, c, Encode(body), origin, seed)
  }

  /** Emitted only when the artifact passes the verification a third party runs. */
  function BuildInclusion(h: Hash, c: Scheme, leaves: seq<Bytes>, leaf: Bytes, origin: Bytes, seed: Digest, index: nat)
    : Option<InclusionArtifact>
  {
    if |leaves| >= MAX_JSON_TREE_SIZE || index >= |leaves| then None
    else
      match (SignCheckpoint(h, c, leaves, origin, seed), NewKey(h, origin, c.publicKey(seed)),
             ChunkProofBytes(Join(Path(h, index, leaves))))
      case (Some(checkpoint), Some(vk), Some(hashes)) =>
        var a := InclusionArtifact(InclusionFormat(), |leaves|, index, hashes, checkpoint);
        if InclusionVerdict(h, c, a, leaf, vk).Some? then Some(a) else None
      case _ => None
  }

  function BuildConsistency(h: Hash, c: Scheme, older: seq<Bytes>, newer: seq<Bytes>, origin: Bytes, seed: Digest)
    : Option<ConsistencyArtifact>
  {
    if |newer| >= MAX_JSON_TREE_SIZE || |older| == 0 || |older| >= |newer| then None
    else
      match (SignCheckpoint(h, c, older, origin, seed), SignCheckpoint(h, c, newer, origin, seed),
             NewKey(h, origin, c.publicKey(seed)), ChunkProofBytes(Join(Proof(h, |older|, newer))))
      case (Some(cp1), Some(cp2), Some(vk), Some(hashes)) =>
        var a := ConsistencyArtifact(ConsistencyFormat(), |older|, |newer|, hashes, cp1, cp2);
        if ConsistencyVerdict(h, c, a, vk).Some? then Some(a) else None
      case _ => None
  }

  /** The checkpoint over `leaves` can be signed: a key name without control octets, and a
      note within the cap. */
  predicate Signable(origin: Bytes, size: nat) {
    ValidName(origin) && NoControl(origin) &&
    |Encode(CheckpointBody(origin, size, seq(32, _ => 0)))| + |origin| + 99 <= 1_048_576
  }

  lemma EncodeLength(origin: Bytes, size: nat, r: Digest, s: Digest)
    ensures |Encode(CheckpointBody(origin, size, r))| == |Encode(CheckpointBody(origin, size, s))|
  {
    UnfoldEncode(CheckpointBody(origin, size, r));
    UnfoldEncode(CheckpointBody(origin, size, s));
  }

  /** A log's own checkpoint: signing succeeds exactly when the origin is signable, and
      verification returns the origin, size and root that were signed. */
  lemma OwnCheckpoint(h: Hash, c: Scheme, leaves: seq<Bytes>, origin: Bytes, seed: Digest)
    requires SignaturesVerify(c) && |leaves| < MAX_JSON_TREE_SIZE
    ensures SignCheckpoint(h, c, leaves, origin, seed).Some? <==> Signable(origin, |leaves|)
    ensures SignCheckpoint(h, c, leaves, origin, seed).Some? ==>
              && NewKey(h, origin, c.publicKey(seed)).Some?
              && var note := SignCheckpoint(h, c, leaves, origin, seed).value;
                 var vk := NewKey(h, origin, c.publicKey(seed)).value;
                 VerifyCheckpoint(c, note, vk) == Some(CheckpointBody(origin, |leaves|, Mth(h, leaves)))
  {
    hide Encode, VerifyCheckpoint, SignNote, Mth;
    JsonBound();
    if ValidName(origin) {
      var b := CheckpointBody(origin, |leaves|, Mth(h, leaves));
      EncodeLength(origin, |leaves|, b.root, seq(32, _ => 0));
      SignableCheckpoint(h, c, b, seed);
      if SignCheckpoint(h, c, leaves, origin, seed).Some? {
        CheckpointRoundTrip(h, c, b, seed, NewKey(h, origin, c.publicKey(seed)).value);
      }
    }
  }

  /** The inclusion builder emits exactly for the leaf bytes at that index of a signable
      log within the bounds, or an input hashed for the bytes given and the tree's own path
      collides with one of the tree. */
  lemma BuildInclusionExact(h: Hash, c: Scheme, leaves: seq<Bytes>, leaf: Bytes, origin: Bytes, seed: Digest,
                            index: nat)
    returns (pair: (Bytes, Bytes))
    requires SignaturesVerify(c)
    ensures BuildInclusion(h, c, leaves, leaf, origin, seed, index).Some? ==>
              && index < |leaves| < MAX_JSON_TREE_SIZE && Signable(origin, |leaves|)
              && (|| leaf == leaves[index]
                  || CollidesAmong(h, pair, InclusionInputs(h, index, |leaves|, leaf, Path(h, index, leaves)),
                                   TreeInputs(h, leaves)))
    ensures index < |leaves| < MAX_JSON_TREE_SIZE && Signable(origin, |leaves|) && leaf == leaves[index] ==>
              BuildInclusion(h, c, leaves, leaf, origin, seed, index).Some?
  {
    hide SignCheckpoint, VerifyCheckpoint, NewKey, InclusionVerdict, Mth, Path, Join, Nodes, Texts, Signable;
    hide InclusionFormat, NodesOf, InclusionInputs, TreeInputs, SignedCheckpoint;
    pair := ([], []);
    if index < |leaves| < MAX_JSON_TREE_SIZE {
      var path := Path(h, index, leaves);
      OwnCheckpoint(h, c, leaves, origin, seed);
      NodesJoin(path);
      NodesOfExact(Texts(path), path);
      if SignCheckpoint(h, c, leaves, origin, seed).Some? {
        var vk, note := NewKey(h, origin, c.publicKey(seed)).value, SignCheckpoint(h, c, leaves, origin, seed).value;
        var a := InclusionArtifact(InclusionFormat(), |leaves|, index, Texts(path), note);
        pair := InclusionArtifactExact(h, c, a, leaf, vk, CheckpointBody(origin, |leaves|, Mth(h, leaves)), leaves);
        VerifyCheckpointExact(c, note, vk, CheckpointBody(origin, |leaves|, Mth(h, leaves)));
        VerdictIsCheckpoint(h, c, a, leaf, vk);
        NewKeyName(h, origin, c.publicKey(seed));
      }
    }
  }

  /** Two lists that may be given to the consistency builder under a signable origin. */
  predicate Buildable(older: seq<Bytes>, newer: seq<Bytes>, origin: Bytes) {
    0 < |older| < |newer| < MAX_JSON_TREE_SIZE && Signable(origin, |older|) && Signable(origin, |newer|)
  }

  /** The consistency builder emits for every signable log and each of its proper non-empty
      prefixes, and for no other pair of lists unless an input hashed for the older list or
      the proof collides with one hashed for the newer list or its prefix. */
  lemma BuildConsistencyExact(h: Hash, c: Scheme, older: seq<Bytes>, newer: seq<Bytes>, origin: Bytes, seed: Digest)
    returns (pair: (Bytes, Bytes))
    requires SignaturesVerify(c)
    ensures BuildConsistency(h, c, older, newer, origin, seed).Some? ==>
              && Buildable(older, newer, origin)
              && var path := Seeded(|older|, Mth(h, older), Proof(h, |older|, newer));
                 || older < newer
                 || CollidesAmong(h, pair, TreeInputs(h, older) + RootsInputs(h, |older|, |newer|, path),
                                  TreeInputs(h, newer) + TreeInputs(h, newer[..|older|]))
    ensures Buildable(older, newer, origin) && older < newer ==>
              BuildConsistency(h, c, older, newer, origin, seed).Some?
  {
    hide SignCheckpoint, VerifyCheckpoint, NewKey, Mth, Proof, Join, Nodes, Texts, Signable, AcceptsConsistency;
    hide ConsistencyFormat, NodesOf, TreeInputs, RootsInputs;
    pair := ([], []);
    if 0 < |older| < |newer| < MAX_JSON_TREE_SIZE {
      var path := Proof(h, |older|, newer);
      OwnCheckpoint(h, c, older, origin, seed);
      OwnCheckpoint(h, c, newer, origin, seed);
      NodesJoin(path);
      NodesOfExact(Texts(path), path);
      ProofSizeBound(h, |older|, newer);
      if older < newer {
        assert newer[..|older|] == older;
        ProofAccepted(h, |older|, newer);
      } else if AcceptsConsistency(h, |older|, |newer|, Mth(h, older), Mth(h, newer), path) {
        pair := PrefixCollision(h, older, newer, path);
      }
    }
  }
}
