/** The RFC 6962 tree: the Merkle Tree Hash of section 2.1, the audit path of
    section 2.1.1 and the consistency proof of section 2.1.2, over raw leaves. */
module Merkle {
  import opened Octets

  predicate IsPow2(n: nat) {
    n == 1 || (n > 1 && n % 2 == 0 && IsPow2(n / 2))
  }

  /** The largest power of two strictly below `n`. */
  function Split(n: nat): (k: nat)
    requires n > 1
    ensures 0 < k < n <= 2 * k && IsPow2(k)
  {
    if n == 2 then 1 else 2 * Split((n + 1) / 2)
  }

  /** Only one power of two `k` satisfies `k < n <= 2k`. */
  lemma {:induction false} SplitUnique(n: nat, k: nat)
    requires n > 1 && IsPow2(k) && k < n <= 2 * k
    ensures Split(n) == k
  {
    if k > 1 {
      SplitUnique((n + 1) / 2, k / 2);
    }
  }

  function LeafHash(h: Hash, leaf: Bytes): Digest { h([0x00] + leaf) }

  function NodeHash(h: Hash, left: Digest, right: Digest): Digest { h([0x01] + left + right) }

  /** MTH(D[n]). */
  function Mth(h: Hash, leaves: seq<Bytes>): Digest {
    if |leaves| == 0 then h([])
    else if |leaves| == 1 then LeafHash(h, leaves[0])
    else
      var k := Split(|leaves|);
      NodeHash(h, Mth(h, leaves[..k]), Mth(h, leaves[k..]))
  }

  /** PATH(m, D[n]). */
  function Path(h: Hash, m: nat, leaves: seq<Bytes>): seq<Digest>
    requires m < |leaves|
    decreases |leaves|
  {
    if |leaves| == 1 then []
    else
      var k := Split(|leaves|);
      if m < k then Path(h, m, leaves[..k]) + [Mth(h, leaves[k..])]
      else Path(h, m - k, leaves[k..]) + [Mth(h, leaves[..k])]
  }

  /** SUBPROOF(m, D[n], b). */
  function SubProof(h: Hash, m: nat, leaves: seq<Bytes>, complete: bool): seq<Digest>
    requires 0 < m <= |leaves|
    decreases |leaves|
  {
    if m == |leaves| then
      if complete then [] else [Mth(h, leaves)]
    else
      var k := Split(|leaves|);
      if m <= k then SubProof(h, m, leaves[..k], complete) + [Mth(h, leaves[k..])]
      else SubProof(h, m - k, leaves[k..], false) + [Mth(h, leaves[..k])]
  }

  /** PROOF(m, D[n]). */
  function Proof(h: Hash, m: nat, leaves: seq<Bytes>): seq<Digest>
    requires 0 < m <= |leaves|
  {
    SubProof(h, m, leaves, true)
  }

  /** The shapes RFC 6962 gives for up to three leaves, spelled out on hash inputs. */
  lemma SmallTrees(h: Hash, a: Bytes, b: Bytes, c: Bytes)
    ensures Mth(h, []) == h([]) && Mth(h, [a]) == h([0x00] + a)
    ensures var la, lb, lc := h([0x00] + a), h([0x00] + b), h([0x00] + c);
            && Mth(h, [a, b]) == h([0x01] + la + lb)
            && Mth(h, [a, b, c]) == h([0x01] + h([0x01] + la + lb) + lc)
            && Path(h, 0, [a, b, c]) == [lb, lc] && Path(h, 2, [a, b, c]) == [h([0x01] + la + lb)]
            && Proof(h, 1, [a, b, c]) == [lb, lc] && Proof(h, 2, [a, b, c]) == [lc]
  {
    var one, ab, abc := [a], [a, b], [a, b, c];
    assert Split(2) == 1 && Split(3) == 2;
    hide Split;
    assert abc[..2] == ab && abc[2..] == [c] && ab[..1] == one && ab[1..] == [b];
    assert Path(h, 0, ab) == Path(h, 0, one) + [Mth(h, [b])];
    assert Path(h, 0, abc) == Path(h, 0, ab) + [Mth(h, [c])];
    assert SubProof(h, 1, ab, true) == SubProof(h, 1, one, true) + [Mth(h, [b])];
    assert SubProof(h, 1, abc, true) == SubProof(h, 1, ab, true) + [Mth(h, [c])];
    assert SubProof(h, 2, abc, true) == SubProof(h, 2, ab, true) + [Mth(h, [c])];
  }
}
