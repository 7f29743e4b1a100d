/** How long proofs get: logarithmic in the tree size, so the artifact caps never
    reject an honest proof. */
module MerkleSize {
  import opened Octets
  import opened Merkle

  function Exp2(e: nat): nat { if e == 0 then 1 else 2 * Exp2(e - 1) }

  /** The JSON-safe bound on tree sizes. */
  const MAX_JSON_TREE_SIZE: nat := Exp2(53)

  lemma Exp2Plus6(e: nat)
    ensures Exp2(e + 6) == 64 * Exp2(e)
  {
    assert Exp2(e + 1) == 2 * Exp2(e) && Exp2(e + 2) == 2 * Exp2(e + 1) && Exp2(e + 3) == 2 * Exp2(e + 2);
    assert Exp2(e + 4) == 2 * Exp2(e + 3) && Exp2(e + 5) == 2 * Exp2(e + 4) && Exp2(e + 6) == 2 * Exp2(e + 5);
  }

  /** The JSON-safe bound in full. */
  lemma JsonBound()
    ensures MAX_JSON_TREE_SIZE == 9_007_199_254_740_992 < U64_LIMIT
  {
    assert Exp2(5) == 32;
    hide Exp2;
    Exp2Plus6(5);
    Exp2Plus6(11);
    Exp2Plus6(17);
    Exp2Plus6(23);
    Exp2Plus6(29);
    Exp2Plus6(35);
    Exp2Plus6(41);
    Exp2Plus6(47);
  }

  /** Powers of two have no power of two strictly between them and their double. */
  lemma {:induction false} Pow2Doubles(k: nat, e: nat)
    requires IsPow2(k) && k < Exp2(e)
    ensures 2 * k <= Exp2(e)
  {
    if k > 1 {
      Pow2Doubles(k / 2, e - 1);
    }
  }

  lemma {:induction false} PathLength(h: Hash, m: nat, leaves: seq<Bytes>, e: nat)
    requires m < |leaves| <= Exp2(e)
    ensures |Path(h, m, leaves)| <= e
    decreases |leaves|
  {
    hide Split, IsPow2, Mth;
    if |leaves| > 1 {
      var k := Split(|leaves|);
      Pow2Doubles(k, e);
      if m < k {
        PathLength(h, m, leaves[..k], e - 1);
      } else {
        PathLength(h, m - k, leaves[k..], e - 1);
      }
    }
  }

  lemma {:induction false} SubProofLength(h: Hash, m: nat, leaves: seq<Bytes>, complete: bool, e: nat)
    requires 0 < m <= |leaves| <= Exp2(e)
    ensures |SubProof(h, m, leaves, complete)| <= e + 1
    decreases |leaves|
  {
    hide Split, IsPow2, Mth;
    if m < |leaves| {
      var k := Split(|leaves|);
      Pow2Doubles(k, e);
      if m <= k {
        SubProofLength(h, m, leaves[..k], complete, e - 1);
      } else {
        SubProofLength(h, m - k, leaves[k..], false, e - 1);
      }
    }
  }

  /** Below the JSON-safe bound an audit path has at most 53 nodes and a consistency
      proof at most 54. */
  lemma ProofSizeBound(h: Hash, m: nat, leaves: seq<Bytes>)
    requires |leaves| < MAX_JSON_TREE_SIZE
    ensures m < |leaves| ==> |Path(h, m, leaves)| <= 53
    ensures 0 < m <= |leaves| ==> |Proof(h, m, leaves)| <= 54
  {
    hide Path, SubProof;
    if m < |leaves| {
      PathLength(h, m, leaves, 53);
    }
    if 0 < m <= |leaves| {
      SubProofLength(h, m, leaves, true, 53);
    }
  }

  lemma Exp2IsPow2(e: nat)
    ensures IsPow2(Exp2(e)) && (e > 0 ==> Exp2(e) > 1 && Split(Exp2(e)) == Exp2(e - 1))
  {
    if e > 0 {
      Exp2IsPow2(e - 1);
      SplitUnique(Exp2(e), Exp2(e - 1));
    }
  }

  /** In a complete tree every path has the full length. */
  lemma {:induction false} CompletePath(h: Hash, leaves: seq<Bytes>, e: nat)
    requires |leaves| == Exp2(e)
    ensures leaves != [] && |Path(h, 0, leaves)| == e
  {
    hide Split, IsPow2, Mth;
    Exp2IsPow2(e);
    if e > 0 {
      CompletePath(h, leaves[..Exp2(e - 1)], e - 1);
    }
  }

  /** In a complete tree the proof from three leaves has one node more than a path. */
  lemma {:induction false} CompleteProofOfThree(h: Hash, leaves: seq<Bytes>, e: nat)
    requires e >= 2 && |leaves| == Exp2(e)
    ensures Exp2(e) >= 4 && |SubProof(h, 3, leaves, true)| == e + 1
  {
    hide Split, IsPow2, Mth;
    Exp2IsPow2(e);
    if e == 2 {
      Exp2IsPow2(1);
      assert |leaves| == 4 && Split(4) == 2 && Split(2) == 1;
      var right := leaves[2..];
      assert |SubProof(h, 1, right[..1], false)| == 1;
      assert |SubProof(h, 1, right, false)| == 2;
    } else {
      CompleteProofOfThree(h, leaves[..Exp2(e - 1)], e - 1);
    }
  }

  /** Both bounds are reached, by every tree of more than 2^52 leaves below the JSON-safe
      bound: on the path of leaf 0 and on the proof from size 3. */
  lemma ProofSizeReached(h: Hash, leaves: seq<Bytes>)
    requires Exp2(52) < |leaves| < MAX_JSON_TREE_SIZE
    ensures |leaves| > 3 && |Path(h, 0, leaves)| == 53 && |Proof(h, 3, leaves)| == 54
  {
    assert Exp2(53) == 2 * Exp2(52);
    hide Split, IsPow2, Mth, Exp2;
    Exp2IsPow2(52);
    SplitUnique(|leaves|, Exp2(52));
    var left := leaves[..Exp2(52)];
    CompletePath(h, left, 52);
    CompleteProofOfThree(h, left, 52);
  }
}
