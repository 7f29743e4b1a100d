/** What an accepted proof proves. Each result is exact, or two different inputs among
    those hashed for the lists and the proof at hand have the same hash. */
module MerkleSoundness {
  import opened Octets
  import opened Merkle
  import opened MerkleRecursion
  import opened MerkleVerify
  import opened MerkleInputs

  // ----- roots bind leaf lists -----

  lemma NodeInputInjective(l: Digest, r: Digest, l': Digest, r': Digest)
    requires [0x01] + l + r == [0x01] + l' + r'
    ensures l == l' && r == r'
  {
    var x, y := [0x01] + l + r, [0x01] + l' + r';
    assert l == x[1..33] && r == x[33..] && l' == y[1..33] && r' == y[33..];
  }

  lemma NodeInputParts(h: Hash, leaves: seq<Bytes>, l: Digest, r: Digest)
    requires |leaves| > 1 && [0x01] + l + r == TopInput(h, leaves)
    ensures l == Mth(h, leaves[..Split(|leaves|)]) && r == Mth(h, leaves[Split(|leaves|)..])
  {
    hide TopInput, Mth, Split;
    InnerInput(h, leaves);
    NodeInputInjective(l, r, Mth(h, leaves[..Split(|leaves|)]), Mth(h, leaves[Split(|leaves|)..]));
  }

  lemma TopInputTag(h: Hash, a: seq<Bytes>)
    ensures |a| == 0 ==> TopInput(h, a) == []
    ensures |a| == 1 ==> |TopInput(h, a)| > 0 && TopInput(h, a)[0] == 0x00 && TopInput(h, a)[1..] == a[0]
    ensures |a| > 1 ==> |TopInput(h, a)| > 0 && TopInput(h, a)[0] == 0x01
  {
  }

  /** The prefixes separate empty, leaf and inner inputs. */
  lemma SmallTopInput(h: Hash, a: seq<Bytes>, b: seq<Bytes>)
    requires |a| <= 1 && TopInput(h, a) == TopInput(h, b)
    ensures a == b
  {
    hide TopInput, Mth;
    TopInputTag(h, a);
    TopInputTag(h, b);
  }

  /** Equal inner inputs of different lists: equal children hashes, a different child. */
  lemma SameInnerInput(h: Hash, a: seq<Bytes>, b: seq<Bytes>)
    requires a != b && |a| > 1 && |b| > 1 && TopInput(h, a) == TopInput(h, b)
    ensures var i, j := Split(|a|), Split(|b|);
            && Mth(h, a[..i]) == Mth(h, b[..j]) && Mth(h, a[i..]) == Mth(h, b[j..])
            && (a[..i] != b[..j] || a[i..] != b[j..])
  {
    hide Split, Mth;
    var i, j := Split(|a|), Split(|b|);
    NodeInputInjective(Mth(h, a[..i]), Mth(h, a[i..]), Mth(h, b[..j]), Mth(h, b[j..]));
    assert a == a[..i] + a[i..] && b == b[..j] + b[j..];
  }

  /** Two different leaf lists with one root, even of different sizes, contain a collision:
      descend both trees along equal hashes until the hashed inputs differ. The 0x00 and
      0x01 prefixes keep a leaf from posing as a node. */
  function RootCollision(h: Hash, a: seq<Bytes>, b: seq<Bytes>): (pair: (Bytes, Bytes))
    requires a != b && Mth(h, a) == Mth(h, b)
    ensures CollidesAmong(h, pair, TreeInputs(h, a), TreeInputs(h, b))
    decreases |a|
  {
    if TopInput(h, a) != TopInput(h, b) then (TopInput(h, a), TopInput(h, b))
    else
      assert |a| > 1 && |b| > 1 by {
        if |a| <= 1 { SmallTopInput(h, a, b); }
        if |b| <= 1 { SmallTopInput(h, b, a); }
      }
      SameInnerInput(h, a, b);
      var i, j := Split(|a|), Split(|b|);
      if a[..i] != b[..j] then RootCollision(h, a[..i], b[..j])
      else RootCollision(h, a[i..], b[j..])
  }

  // ----- inclusion -----

  lemma MthNode(h: Hash, leaves: seq<Bytes>)
    requires |leaves| > 1
    ensures var k := Split(|leaves|);
            Mth(h, leaves) == NodeHash(h, Mth(h, leaves[..k]), Mth(h, leaves[k..]))
  {
  }

  lemma PathStep(h: Hash, m: nat, leaves: seq<Bytes>)
    requires |leaves| > 1 && m < |leaves|
    ensures var k := Split(|leaves|);
            Path(h, m, leaves) == if m < k then Path(h, m, leaves[..k]) + [Mth(h, leaves[k..])]
                                  else Path(h, m - k, leaves[k..]) + [Mth(h, leaves[..k])]
  {
    hide Split;
  }

  /** The audit path of leaf `m` recomputes the root. */
  lemma {:induction false} PathRecomputesRoot(h: Hash, m: nat, leaves: seq<Bytes>, older: Digest)
    requires m < |leaves|
    ensures var r := Climb(h, m, |leaves|, older, LeafHash(h, leaves[m]), Path(h, m, leaves));
            r.Some? && r.value.1 == Mth(h, leaves)
    decreases |leaves|
  {
    hide Split, IsPow2, NodeHash, LeafHash, Mth, Path;
    if |leaves| == 1 {
      PathOfOne(h, leaves);
    } else {
      var k := Split(|leaves|);
      var path := Path(h, m, leaves);
      MthNode(h, leaves);
      PathStep(h, m, leaves);
      if m < k {
        assert path[..|path| - 1] == Path(h, m, leaves[..k]);
        PathRecomputesRoot(h, m, leaves[..k], older);
      } else {
        assert path[..|path| - 1] == Path(h, m - k, leaves[k..]);
        PathRecomputesRoot(h, m - k, leaves[k..], older);
      }
    }
  }

  lemma PathOfOne(h: Hash, leaves: seq<Bytes>)
    requires |leaves| == 1
    ensures Path(h, 0, leaves) == [] && Mth(h, leaves) == LeafHash(h, leaves[0])
  {
  }

  /** The recomputed root is the tree's root but the leaf or the path is not the tree's. */
  ghost predicate WrongInclusion(h: Hash, leaves: seq<Bytes>, m: nat, leaf: Bytes, path: seq<Digest>) {
    && m < |leaves| && FromLeaf(h, m, |leaves|, leaf, path) == Some(Mth(h, leaves))
    && (leaf != leaves[m] || path != Path(h, m, leaves))
  }

  /** Descend the tree along the recomputed nodes until the hashed inputs differ. */
  lemma {:induction false} InclusionCollision(h: Hash, leaves: seq<Bytes>, m: nat, leaf: Bytes, path: seq<Digest>)
    returns (pair: (Bytes, Bytes))
    requires WrongInclusion(h, leaves, m, leaf, path)
    ensures CollidesAmong(h, pair, InclusionInputs(h, m, |leaves|, leaf, path), TreeInputs(h, leaves))
    decreases |leaves|
  {
    hide FromLeaf, Mth, Path, Split, WrongInclusion, TopInput, TreeInputs, InclusionInputs;
    WrongInclusionRange(h, leaves, m, leaf, path);
    if |leaves| == 1 {
      WrongLeaf(h, leaves, m, leaf, path);
      return ([0x00] + leaf, [0x00] + leaves[0]);
    }
    TreeInputsStep(h, leaves);
    var k := Split(|leaves|);
    var last, rest := path[|path| - 1], path[..|path| - 1];
    if m < k {
      WrongInclusionLeft(h, leaves, m, leaf, path);
      InclusionInputsLeft(h, m, |leaves|, leaf, path);
      var node := [0x01] + FromLeaf(h, m, k, leaf, rest).value + last;
      if node != TopInput(h, leaves) {
        return (node, TopInput(h, leaves));
      }
      pair := InclusionCollision(h, leaves[..k], m, leaf, rest);
    } else {
      WrongInclusionRight(h, leaves, m, leaf, path);
      InclusionInputsRight(h, m, |leaves|, leaf, path);
      var node := [0x01] + last + FromLeaf(h, m - k, |leaves| - k, leaf, rest).value;
      if node != TopInput(h, leaves) {
        return (node, TopInput(h, leaves));
      }
      pair := InclusionCollision(h, leaves[k..], m - k, leaf, rest);
    }
  }

  lemma WrongInclusionRange(h: Hash, leaves: seq<Bytes>, m: nat, leaf: Bytes, path: seq<Digest>)
    requires WrongInclusion(h, leaves, m, leaf, path)
    ensures m < |leaves| && (|leaves| > 1 ==> path != [])
  {
  }

  lemma WrongLeaf(h: Hash, leaves: seq<Bytes>, m: nat, leaf: Bytes, path: seq<Digest>)
    requires |leaves| == 1 && WrongInclusion(h, leaves, m, leaf, path)
    ensures Collides(h, ([0x00] + leaf, [0x00] + leaves[0])) && [0x00] + leaves[0] == TopInput(h, leaves)
  {
    hide Split;
    assert ([0x00] + leaf)[1..] == leaf && ([0x00] + leaves[0])[1..] == leaves[0];
  }

  /** One descent to the left: with equal node inputs the wrong part lies there. */
  lemma WrongInclusionLeft(h: Hash, leaves: seq<Bytes>, m: nat, leaf: Bytes, path: seq<Digest>)
    requires |leaves| > 1 && path != [] && m < Split(|leaves|) && WrongInclusion(h, leaves, m, leaf, path)
    ensures var k := Split(|leaves|);
            var last, rest := path[|path| - 1], path[..|path| - 1];
            var r := FromLeaf(h, m, k, leaf, rest);
            && r.Some? && Mth(h, leaves) == h([0x01] + r.value + last)
            && ([0x01] + r.value + last == TopInput(h, leaves) ==> WrongInclusion(h, leaves[..k], m, leaf, rest))
  {
    hide Split, IsPow2, FromLeaf, TopInput, Mth, Path;
    FromLeafStep(h, m, |leaves|, leaf, path);
    PathStep(h, m, leaves);
    var k := Split(|leaves|);
    var last, rest := path[|path| - 1], path[..|path| - 1];
    var r := FromLeaf(h, m, k, leaf, rest);
    assert path == rest + [last];
    if [0x01] + r.value + last == TopInput(h, leaves) {
      NodeInputParts(h, leaves, r.value, last);
    }
  }

  /** One descent to the right: with equal node inputs the wrong part lies there. */
  lemma WrongInclusionRight(h: Hash, leaves: seq<Bytes>, m: nat, leaf: Bytes, path: seq<Digest>)
    requires |leaves| > 1 && path != [] && Split(|leaves|) <= m < |leaves| && WrongInclusion(h, leaves, m, leaf, path)
    ensures var k := Split(|leaves|);
            var last, rest := path[|path| - 1], path[..|path| - 1];
            var r := FromLeaf(h, m - k, |leaves| - k, leaf, rest);
            && r.Some? && Mth(h, leaves) == h([0x01] + last + r.value)
            && ([0x01] + last + r.value == TopInput(h, leaves) ==> WrongInclusion(h, leaves[k..], m - k, leaf, rest))
  {
    hide Split, IsPow2, FromLeaf, TopInput, Mth, Path;
    FromLeafStep(h, m, |leaves|, leaf, path);
    PathStep(h, m, leaves);
    var k := Split(|leaves|);
    var last, rest := path[|path| - 1], path[..|path| - 1];
    var r := FromLeaf(h, m - k, |leaves| - k, leaf, rest);
    assert path == rest + [last];
    if [0x01] + last + r.value == TopInput(h, leaves) {
      NodeInputParts(h, leaves, last, r.value);
    }
  }

  /** Against the root of `leaves`, exactly the leaf at `m` with its audit path is accepted;
      any other accepted leaf or path makes an input of the verifier collide with one of
      the tree. */
  lemma InclusionExact(h: Hash, leaves: seq<Bytes>, m: nat, leaf: Bytes, path: seq<Digest>)
    returns (pair: (Bytes, Bytes))
    requires m < |leaves|
    ensures leaf == leaves[m] && path == Path(h, m, leaves) ==>
              AcceptsInclusion(h, LeafHash(h, leaf), m, |leaves|, path, Mth(h, leaves))
    ensures AcceptsInclusion(h, LeafHash(h, leaf), m, |leaves|, path, Mth(h, leaves)) ==>
              || (leaf == leaves[m] && path == Path(h, m, leaves))
              || CollidesAmong(h, pair, InclusionInputs(h, m, |leaves|, leaf, path), TreeInputs(h, leaves))
  {
    hide Climb, Mth, Path, LeafHash, InclusionInputs, TreeInputs;
    PathRecomputesRoot(h, m, leaves, LeafHash(h, leaf));
    pair := ([], []);
    if WrongInclusion(h, leaves, m, leaf, path) {
      pair := InclusionCollision(h, leaves, m, leaf, path);
    }
  }

  // ----- consistency -----

  /** A list and its longer extensions share the split of the longer one when they cross it. */
  lemma PrefixSplit(m: nat, n: nat)
    requires n > 1 && Split(n) < m <= n
    ensures Split(m) == Split(n)
  {
  }

  lemma MthPrefixAcross(h: Hash, m: nat, leaves: seq<Bytes>)
    requires |leaves| > 1 && Split(|leaves|) < m <= |leaves|
    ensures var k := Split(|leaves|);
            Mth(h, leaves[..m]) == NodeHash(h, Mth(h, leaves[..k]), Mth(h, leaves[k..][..m - k]))
  {
    hide Split, IsPow2, NodeHash, Mth;
    var k := Split(|leaves|);
    PrefixSplit(m, |leaves|);
    MthNode(h, leaves[..m]);
    assert leaves[..m][..k] == leaves[..k] && leaves[..m][k..] == leaves[k..][..m - k];
  }

  /** The consistency path with its first node recomputes both roots. */
  lemma {:induction false} SubProofRecomputesRoots(h: Hash, m: nat, leaves: seq<Bytes>)
    requires 0 < m <= |leaves|
    ensures Roots(h, m, |leaves|, SubProof(h, m, leaves, false)) == Some((Mth(h, leaves[..m]), Mth(h, leaves)))
    decreases |leaves|
  {
    hide Split, IsPow2, NodeHash;
    if m == |leaves| {
      assert leaves[..m] == leaves;
    } else {
      var k := Split(|leaves|);
      var path := SubProof(h, m, leaves, false);
      if m <= k {
        assert path[..|path| - 1] == SubProof(h, m, leaves[..k], false);
        assert leaves[..k][..m] == leaves[..m];
        SubProofRecomputesRoots(h, m, leaves[..k]);
      } else {
        assert path[..|path| - 1] == SubProof(h, m - k, leaves[k..], false);
        MthPrefixAcross(h, m, leaves);
        SubProofRecomputesRoots(h, m - k, leaves[k..]);
      }
    }
  }

  /** PROOF omits the first node exactly when the older size is a power of two. */
  lemma {:induction false} ProofSeeded(h: Hash, m: nat, leaves: seq<Bytes>)
    requires 0 < m <= |leaves| && (m == |leaves| ==> IsPow2(m))
    ensures SubProof(h, m, leaves, false) == Seeded(m, Mth(h, leaves[..m]), Proof(h, m, leaves))
    decreases |leaves|
  {
    hide Mth, Split;
    if m == |leaves| {
      assert leaves[..m] == leaves;
    } else {
      var k := Split(|leaves|);
      if m <= k {
        assert leaves[..k][..m] == leaves[..m];
        ProofSeeded(h, m, leaves[..k]);
      } else {
        NoPow2Between(k, m);
      }
    }
  }

  lemma {:induction false} NoPow2Between(k: nat, m: nat)
    requires IsPow2(k) && k < m < 2 * k
    ensures !IsPow2(m)
  {
    if k > 1 && m % 2 == 0 {
      NoPow2Between(k / 2, m / 2);
    }
  }

  /** The consistency proof of any prefix is accepted. */
  lemma ProofAccepted(h: Hash, m: nat, leaves: seq<Bytes>)
    requires 0 < m < |leaves|
    ensures AcceptsConsistency(h, m, |leaves|, Mth(h, leaves[..m]), Mth(h, leaves), Proof(h, m, leaves))
  {
    SubProofRecomputesRoots(h, m, leaves);
    ProofSeeded(h, m, leaves);
    assert Proof(h, m, leaves) != [] by {
      hide Mth, Split, Roots;
    }
  }

  /** The recomputed newer root is the tree's but the older root or the path is not. */
  ghost predicate WrongRoots(h: Hash, m: nat, leaves: seq<Bytes>, older: Digest, path: seq<Digest>) {
    && 0 < m <= |leaves|
    && Roots(h, m, |leaves|, path) == Some((older, Mth(h, leaves)))
    && (older != Mth(h, leaves[..m]) || path != SubProof(h, m, leaves, false))
  }

  /** Descend the tree along the recomputed nodes until the hashed inputs differ. */
  lemma {:induction false} RootsCollision(h: Hash, m: nat, leaves: seq<Bytes>, older: Digest, path: seq<Digest>)
    returns (pair: (Bytes, Bytes))
    requires WrongRoots(h, m, leaves, older, path)
    ensures CollidesAmong(h, pair, RootsInputs(h, m, |leaves|, path), TreeInputs(h, leaves))
    decreases |leaves|
  {
    hide Roots, Mth, SubProof, Split, WrongRoots, TopInput, TreeInputs, RootsInputs;
    WrongRootsInner(h, m, leaves, older, path);
    TreeInputsStep(h, leaves);
    var k := Split(|leaves|);
    var last, rest := path[|path| - 1], path[..|path| - 1];
    if m <= k {
      WrongRootsLeft(h, m, leaves, older, path);
      RootsInputsLeft(h, m, |leaves|, path);
      var inner := Roots(h, m, k, rest).value;
      var node := [0x01] + inner.1 + last;
      if node != TopInput(h, leaves) {
        return (node, TopInput(h, leaves));
      }
      pair := RootsCollision(h, m, leaves[..k], inner.0, rest);
    } else {
      WrongRootsRight(h, m, leaves, older, path);
      RootsInputsRight(h, m, |leaves|, path);
      var inner := Roots(h, m - k, |leaves| - k, rest).value;
      var node := [0x01] + last + inner.1;
      if node != TopInput(h, leaves) {
        return (node, TopInput(h, leaves));
      }
      pair := RootsCollision(h, m - k, leaves[k..], inner.0, rest);
    }
  }

  /** A complete subtree cannot be wrong. */
  lemma WrongRootsInner(h: Hash, m: nat, leaves: seq<Bytes>, older: Digest, path: seq<Digest>)
    requires WrongRoots(h, m, leaves, older, path)
    ensures 0 < m < |leaves| && path != []
  {
    hide Split, NodeHash;
    assert leaves[..|leaves|] == leaves;
  }

  /** One descent to the left: with equal node inputs the wrong part lies there. */
  lemma WrongRootsLeft(h: Hash, m: nat, leaves: seq<Bytes>, older: Digest, path: seq<Digest>)
    requires WrongRoots(h, m, leaves, older, path) && |leaves| > 1 && path != [] && m <= Split(|leaves|)
    ensures var k := Split(|leaves|);
            var last, rest := path[|path| - 1], path[..|path| - 1];
            var r := Roots(h, m, k, rest);
            && r.Some? && Mth(h, leaves) == h([0x01] + r.value.1 + last)
            && ([0x01] + r.value.1 + last == TopInput(h, leaves) ==> WrongRoots(h, m, leaves[..k], r.value.0, rest))
  {
    hide TopInput, Split, IsPow2;
    var k := Split(|leaves|);
    var last, rest := path[|path| - 1], path[..|path| - 1];
    var r := Roots(h, m, k, rest);
    assert path == rest + [last] && leaves[..k][..m] == leaves[..m];
    if [0x01] + r.value.1 + last == TopInput(h, leaves) {
      NodeInputParts(h, leaves, r.value.1, last);
    }
  }

  lemma SubProofRight(h: Hash, m: nat, leaves: seq<Bytes>)
    requires |leaves| > 1 && Split(|leaves|) < m < |leaves|
    ensures var k := Split(|leaves|);
            SubProof(h, m, leaves, false) == SubProof(h, m - k, leaves[k..], false) + [Mth(h, leaves[..k])]
  {
    hide Split, Mth;
  }

  /** One descent to the right: with equal node inputs the wrong part lies there. */
  lemma WrongRootsRight(h: Hash, m: nat, leaves: seq<Bytes>, older: Digest, path: seq<Digest>)
    requires |leaves| > 1 && Split(|leaves|) < m < |leaves| && path != []
    requires WrongRoots(h, m, leaves, older, path)
    ensures var k := Split(|leaves|);
            var last, rest := path[|path| - 1], path[..|path| - 1];
            var r := Roots(h, m - k, |leaves| - k, rest);
            && r.Some? && Mth(h, leaves) == h([0x01] + last + r.value.1)
            && ([0x01] + last + r.value.1 == TopInput(h, leaves) ==> WrongRoots(h, m - k, leaves[k..], r.value.0, rest))
  {
    hide TopInput, Split, IsPow2, Mth, SubProof;
    var k := Split(|leaves|);
    var last, rest := path[|path| - 1], path[..|path| - 1];
    var r := Roots(h, m - k, |leaves| - k, rest);
    assert path == rest + [last];
    MthPrefixAcross(h, m, leaves);
    SubProofRight(h, m, leaves);
    if [0x01] + last + r.value.1 == TopInput(h, leaves) {
      NodeInputParts(h, leaves, last, r.value.1);
    }
  }

  /** Accepted roots of `first` and `second` with `first` not a prefix of `second` are a
      collision between an input of `first` or of the verifier and one of `second` or of
      its prefix of the size of `first`. */
  lemma PrefixCollision(h: Hash, first: seq<Bytes>, second: seq<Bytes>, path: seq<Digest>)
    returns (pair: (Bytes, Bytes))
    requires AcceptsConsistency(h, |first|, |second|, Mth(h, first), Mth(h, second), path)
    requires !(first <= second)
    ensures var nodes := Seeded(|first|, Mth(h, first), path);
            CollidesAmong(h, pair, TreeInputs(h, first) + RootsInputs(h, |first|, |second|, nodes),
                          TreeInputs(h, second) + TreeInputs(h, second[..|first|]))
  {
    hide TreeInputs, RootsInputs, Mth, Roots, IsPow2;
    var m := |first|;
    if m == |second| {
      pair := RootCollision(h, first, second);
    } else if Mth(h, first) != Mth(h, second[..m]) {
      pair := RootsCollision(h, m, second, Mth(h, first), Seeded(m, Mth(h, first), path));
    } else {
      pair := RootCollision(h, first, second[..m]);
    }
  }

  /** Against the roots of a list and of its prefix, only PROOF is accepted, or an input of
      the verifier collides with one of the tree. */
  lemma ConsistencyExact(h: Hash, m: nat, leaves: seq<Bytes>, path: seq<Digest>) returns (pair: (Bytes, Bytes))
    requires 0 < m < |leaves|
    ensures path == Proof(h, m, leaves) ==>
              AcceptsConsistency(h, m, |leaves|, Mth(h, leaves[..m]), Mth(h, leaves), path)
    ensures AcceptsConsistency(h, m, |leaves|, Mth(h, leaves[..m]), Mth(h, leaves), path) ==>
              || path == Proof(h, m, leaves)
              || CollidesAmong(h, pair, RootsInputs(h, m, |leaves|, Seeded(m, Mth(h, leaves[..m]), path)),
                               TreeInputs(h, leaves))
  {
    hide Mth, Roots, SubProof, Proof, IsPow2, RootsInputs, TreeInputs;
    var older := Mth(h, leaves[..m]);
    ProofAccepted(h, m, leaves);
    ProofSeeded(h, m, leaves);
    pair := ([], []);
    var nodes := Seeded(m, older, path);
    if WrongRoots(h, m, leaves, older, nodes) {
      pair := RootsCollision(h, m, leaves, older, nodes);
    } else if nodes == SubProof(h, m, leaves, false) && IsPow2(m) {
      assert path == nodes[1..] && Proof(h, m, leaves) == ([older] + Proof(h, m, leaves))[1..];
    }
  }
}
