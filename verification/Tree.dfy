/** The append-only raw-leaf tree object: only appending changes it. */
module Tree {
  import opened Octets
  import opened Merkle
  import opened MerkleRecursion
  import opened MerkleVerify
  import opened MerkleSoundness

  /** A root hash carries the leaf count it was computed at. */
  datatype RootHash = RootHash(hash: Digest, size: nat)

  lemma ProofOfWhole(h: Hash, leaves: seq<Bytes>)
    requires leaves != []
    ensures Proof(h, |leaves|, leaves) == [] && leaves[..|leaves|] == leaves
  {
  }

  class AppendOnlyTree {
    const h: Hash
    var leaves: seq<Bytes>

    constructor (h: Hash)
      ensures this.h == h && leaves == []
    {
      this.h := h;
      leaves := [];
    }

    function Root(): RootHash
      reads this
    {
      RootHash(Mth(h, leaves), |leaves|)
    }

    method AppendRaw(leaf: Bytes) returns (size: nat)
      modifies this
      ensures leaves == old(leaves) + [leaf] && size == |leaves|
    {
      leaves := leaves + [leaf];
      size := |leaves|;
    }

    /** A path for every index in range, which the verifier accepts for the leaf there and
        the current root. An index at or past the end is an error, never a panic of the
        tree library. */
    method ProveInclusion(index: nat) returns (path: Option<seq<Digest>>)
      ensures path.Some? <==> index < |leaves|
      ensures path.Some? ==>
                && path.value == Path(h, index, leaves)
                && AcceptsInclusion(h, LeafHash(h, leaves[index]), index, |leaves|, path.value, Root().hash)
    {
      hide Climb, Path, Mth, LeafHash;
      if index >= |leaves| {
        return None;
      }
      path := Some(Path(h, index, leaves));
      PathRecomputesRoot(h, index, leaves, LeafHash(h, leaves[index]));
    }

    /** A proof from every non-empty prefix to the whole tree, which the verifier accepts for
        the root the tree had at the older size and the current root. */
    method ProveConsistency(oldSize: nat, newSize: nat) returns (path: Option<seq<Digest>>)
      ensures path.Some? <==> newSize == |leaves| && 0 < oldSize <= newSize
      ensures path.Some? ==>
                && path.value == Proof(h, oldSize, leaves)
                && AcceptsConsistency(h, oldSize, newSize, Mth(h, leaves[..oldSize]), Root().hash, path.value)
    {
      hide Roots, SubProof, Mth, IsPow2;
      if newSize != |leaves| || oldSize == 0 || oldSize > newSize {
        return None;
      }
      path := Some(Proof(h, oldSize, leaves));
      if oldSize < newSize {
        ProofAccepted(h, oldSize, leaves);
      } else {
        ProofOfWhole(h, leaves);
      }
    }

    /** Rebuilding from the leaves in append order gives back the tree. */
    static method Reconstruct(h: Hash, leaves: seq<Bytes>) returns (tree: AppendOnlyTree)
      ensures fresh(tree) && tree.h == h && tree.leaves == leaves
    {
      tree := new AppendOnlyTree(h);
      for i := 0 to |leaves|
        invariant fresh(tree) && tree.h == h && tree.leaves == leaves[..i]
      {
        var _ := tree.AppendRaw(leaves[i]);
      }
    }
  }
}
