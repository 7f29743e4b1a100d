/** The artifact builders as they run: on tree objects, with the verifier loops for the
    self-verification. */
module ArtifactBuilder {
  import opened Octets
  import opened Merkle
  import opened MerkleSize
  import opened Names
  import opened Signing
  import opened SignedNote
  import opened ProofText
  import opened Checkpoint
  import opened Artifacts
  import Tree

  /** The log's own checkpoint over the current tree. */
  method SignTree(c: Scheme, tree: Tree.AppendOnlyTree, origin: Bytes, seed: Digest) returns (note: Option<Bytes>)
    ensures note == SignCheckpoint(tree.h, c, tree.leaves, origin, seed)
  {
    hide NewBody, SignNote, Encode, Mth;
    var root := tree.Root();
    var body := NewBody(origin, root.size, root.hash);
    if body.None? {
      return None;
    }
    note := SignNote(tree.h, c, Encode(body.value), origin, seed);
  }

  method BuildInclusionArtifact(c: Scheme, tree: Tree.AppendOnlyTree, leaf: Bytes, origin: Bytes, seed: Digest,
                                index: nat)
    returns (r: Option<InclusionArtifact>)
    ensures r == BuildInclusion(tree.h, c, tree.leaves, leaf, origin, seed, index)
  {
    hide SignCheckpoint, NewKey, InclusionVerdict, Mth, Path, ChunkProofBytes, Join, InclusionFormat;
    if |tree.leaves| >= MAX_JSON_TREE_SIZE {
      return None;
    }
    var path := tree.ProveInclusion(index);
    if path.None? {
      return None;
    }
    var hashes := ChunkProofBytes(Join(path.value));
    if hashes.None? {
      return None;
    }
    var checkpoint := SignTree(c, tree, origin, seed);
    if checkpoint.None? {
      return None;
    }
    var a := InclusionArtifact(InclusionFormat(), |tree.leaves|, index, hashes.value, checkpoint.value);
    var vk := NewKey(tree.h, origin, c.publicKey(seed));
    if vk.None? {
      return None;
    }
    var verdict, _ := VerifyInclusionArtifact(tree.h, c, a, leaf, vk.value);
    r := if verdict.Some? then Some(a) else None;
  }

  method BuildConsistencyArtifact(c: Scheme, older: Tree.AppendOnlyTree, newer: Tree.AppendOnlyTree,
                                  origin: Bytes, seed: Digest)
    returns (r: Option<ConsistencyArtifact>)
    requires older.h == newer.h
    ensures r == BuildConsistency(newer.h, c, older.leaves, newer.leaves, origin, seed)
  {
    hide SignCheckpoint, NewKey, ConsistencyVerdict, Mth, Proof, ChunkProofBytes, Join, ConsistencyFormat;
    var oldSize, newSize := |older.leaves|, |newer.leaves|;
    if newSize >= MAX_JSON_TREE_SIZE || oldSize == 0 || oldSize >= newSize {
      return None;
    }
    var path := newer.ProveConsistency(oldSize, newSize);
    var hashes := ChunkProofBytes(Join(path.value));
    if hashes.None? {
      return None;
    }
    var checkpoint1 := SignTree(c, older, origin, seed);
    var checkpoint2 := SignTree(c, newer, origin, seed);
    if checkpoint1.None? || checkpoint2.None? {
      return None;
    }
    var a := ConsistencyArtifact(ConsistencyFormat(), oldSize, newSize, hashes.value, checkpoint1.value,
                                 checkpoint2.value);
    var vk := NewKey(newer.h, origin, c.publicKey(seed));
    if vk.None? {
      return None;
    }
    var verdict, _ := VerifyConsistencyArtifact(newer.h, c, a, vk.value);
    r := if verdict.Some? then Some(a) else None;
  }
}
