/** The verifier loops of section 2.1.3.2 and section 2.1.4.2 of RFC 9162, which walk
    the index bits bottom-up, proved equal to the top-down recomputation. Each loop also
    records what it hashes on the way to the newer root. */
module MerkleVerify {
  import opened Octets
  import opened Merkle
  import opened MerkleRecursion
  import opened MerkleInputs
  import opened MerkleTrace

  /** The leaf hash at `index` and the path recompute `root` for a tree of `size` leaves. */
  predicate AcceptsInclusion(h: Hash, leaf: Digest, index: nat, size: nat, path: seq<Digest>, root: Digest) {
    index < size && match Climb(h, index, size, leaf, leaf, path)
                    case None => false
                    case Some((_, newer)) => newer == root
  }

  /** The path recomputes both roots. When the older size is a power of two its root is
      itself the first node and the path omits it. */
  predicate AcceptsConsistency(h: Hash, m: nat, n: nat, older: Digest, newer: Digest, path: seq<Digest>) {
    0 < m <= n &&
    if m == n then path == [] && older == newer
    else path != [] && Roots(h, m, n, Seeded(m, older, path)) == Some((older, newer))
  }

  function Seeded(m: nat, older: Digest, path: seq<Digest>): seq<Digest> {
    if IsPow2(m) then [older] + path else path
  }

  /** Shifts past the levels where the last node is promoted without a sibling. */
  method SkipPromoted(h: Hash, edge: nat, ghost older: Digest, ghost newer: Digest, ghost path: seq<Digest>)
    returns (e: nat)
    requires edge > 0
    ensures 0 < e <= edge && e % 2 == 1
    ensures Climb(h, edge, edge + 1, older, newer, path) == Climb(h, e, e + 1, older, newer, path)
    ensures ClimbInputs(h, edge, edge + 1, newer, path) == ClimbInputs(h, e, e + 1, newer, path)
  {
    hide Climb, ClimbInputs;
    e := edge;
    while e % 2 == 0
      invariant 0 < e <= edge
      invariant Climb(h, edge, edge + 1, older, newer, path) == Climb(h, e, e + 1, older, newer, path)
      invariant ClimbInputs(h, edge, edge + 1, newer, path) == ClimbInputs(h, e, e + 1, newer, path)
      decreases e
    {
      ClimbPromote(h, e / 2 + 1, older, newer, path);
      InputsPromote(h, e / 2 + 1, newer, path);
      e := e / 2;
    }
  }

  /** Where the walk stops: the path and the levels must run out together. */
  lemma ClimbEnds(h: Hash, index: nat, size: nat, older: Digest, newer: Digest, path: seq<Digest>)
    requires index < size
    ensures path == [] && size == 1 ==> Climb(h, index, size, older, newer, path) == Some((older, newer))
    ensures (path == []) != (size == 1) ==> Climb(h, index, size, older, newer, path) == None
  {
  }

  /** One turn of the loops: the inputs still to be hashed are this one and the rest. */
  lemma InputsTurn(h: Hash, fn: nat, sn: nat, older: Digest, x: Digest, path: seq<Digest>)
    requires fn <= sn && path != [] && (fn % 2 == 1 || fn < sn) && Climb(h, fn, sn + 1, older, x, path).Some?
    ensures var input := ParentInput(fn, x, path[0]);
            ClimbInputs(h, fn, sn + 1, x, path) == {input} + ClimbInputs(h, fn / 2, sn / 2 + 1, h(input), path[1..])
  {
    hide Climb, ClimbInputs, ParentInput;
    NewerAlone(h, fn, sn + 1, older, x, path);
    InputsUp(h, fn, sn + 1, sn / 2 + 1, x, path);
  }

  method VerifyInclusion(h: Hash, leaf: Digest, index: nat, size: nat, path: seq<Digest>, root: Digest)
    returns (ok: bool, ghost hashed: set<Bytes>)
    ensures ok == AcceptsInclusion(h, leaf, index, size, path, root)
    ensures ok ==> hashed == ClimbInputs(h, index, size, leaf, path)
  {
    hide Climb, ClimbInputs;
    hashed := {};
    if index >= size {
      return false, hashed;
    }
    var fn: nat, sn: nat, r, i := index, size - 1, leaf, 0;
    ghost var older := leaf;
    ghost var target := Climb(h, index, size, leaf, leaf, path);
    assert path[0..] == path;
    while i < |path|
      invariant 0 <= i <= |path| && fn <= sn
      invariant target == Climb(h, fn, sn + 1, older, r, path[i..])
      invariant target.Some? ==>
                  ClimbInputs(h, index, size, leaf, path) == hashed + ClimbInputs(h, fn, sn + 1, r, path[i..])
    {
      ghost var rest := path[i..];
      ClimbEnds(h, fn, sn + 1, older, r, rest);
      if sn == 0 {
        return false, hashed;
      }
      if fn % 2 == 0 && fn == sn {
        fn := SkipPromoted(h, fn, older, r, rest);
        sn := fn;
      }
      if target.Some? {
        InputsTurn(h, fn, sn, older, r, rest);
      }
      hashed := hashed + {ParentInput(fn, r, path[i])};
      if fn % 2 == 1 {
        ClimbRight(h, fn / 2, sn + 1, sn / 2 + 1, older, r, rest);
        older, r := NodeHash(h, path[i], older), NodeHash(h, path[i], r);
      } else {
        ClimbLeft(h, fn / 2, sn + 1, sn / 2 + 1, older, r, rest);
        r := NodeHash(h, r, path[i]);
      }
      assert rest[1..] == path[i + 1..];
      fn, sn, i := fn / 2, sn / 2, i + 1;
    }
    ClimbEnds(h, fn, sn + 1, older, r, path[i..]);
    ClimbInputsEnd(h, fn, sn + 1, r, path[i..]);
    return sn == 0 && r == root, hashed;
  }

  /** Shifts both indices while the older one is a right child, to the level of the
      largest complete subtree that ends the older tree. */
  method SkipComplete(h: Hash, m: nat, n: nat, ghost path: seq<Digest>) returns (fn: nat, sn: nat)
    requires 0 < m < n
    ensures fn < sn && fn % 2 == 0
    ensures Roots(h, m, n, path) == Roots(h, fn + 1, sn + 1, path)
    ensures RootsInputs(h, m, n, path) == RootsInputs(h, fn + 1, sn + 1, path)
  {
    hide Roots, RootsInputs;
    fn, sn := m - 1, n - 1;
    while fn % 2 == 1
      invariant fn < sn
      invariant Roots(h, m, n, path) == Roots(h, fn + 1, sn + 1, path)
      invariant RootsInputs(h, m, n, path) == RootsInputs(h, fn + 1, sn + 1, path)
      decreases fn
    {
      RootsInputsHalve(h, fn / 2 + 1, sn + 1, sn / 2 + 1, path);
      RootsHalve(h, fn / 2 + 1, sn + 1, sn / 2 + 1, path);
      fn, sn := fn / 2, sn / 2;
    }
  }

  method VerifyConsistency(h: Hash, m: nat, n: nat, first: Digest, second: Digest, path: seq<Digest>)
    returns (ok: bool, ghost hashed: set<Bytes>)
    ensures ok == AcceptsConsistency(h, m, n, first, second, path)
    ensures ok ==> 0 < m <= n && hashed == RootsInputs(h, m, n, Seeded(m, first, path))
  {
    hide NodeHash, Roots, Climb, IsPow2, RootsInputs, ClimbInputs;
    hashed := {};
    if m == 0 || m > n {
      return false, hashed;
    }
    if m == n {
      RootsInputsEnd(h, m, n, Seeded(m, first, path));
      return path == [] && first == second, hashed;
    }
    if path == [] {
      return false, hashed;
    }
    var nodes := Seeded(m, first, path);
    var fn, sn := SkipComplete(h, m, n, nodes);
    RootsClimb(h, fn + 1, sn + 1, nodes);
    RootsTrace(h, fn + 1, sn + 1, nodes);
    ghost var target := Roots(h, m, n, nodes);
    ok, hashed := VerifyRoots(h, fn, sn, nodes, first, second, target);
  }

  /** The main loop of section 2.1.4.2, from the level `SkipComplete` reached. */
  method VerifyRoots(h: Hash, start: nat, end: nat, nodes: seq<Digest>, first: Digest, second: Digest,
                     ghost target: Option<(Digest, Digest)>)
    returns (ok: bool, ghost hashed: set<Bytes>)
    requires nodes != [] && start <= end && target == Climb(h, start, end + 1, nodes[0], nodes[0], nodes[1..])
    ensures ok == (target == Some((first, second)))
    ensures ok ==> hashed == ClimbInputs(h, start, end + 1, nodes[0], nodes[1..])
  {
    hide Climb, ClimbInputs;
    var fn, sn, fr, sr, i := start, end, nodes[0], nodes[0], 1;
    hashed := {};
    while i < |nodes|
      invariant 1 <= i <= |nodes| && fn <= sn
      invariant target == Climb(h, fn, sn + 1, fr, sr, nodes[i..])
      invariant target.Some? ==>
                  ClimbInputs(h, start, end + 1, nodes[0], nodes[1..])
                    == hashed + ClimbInputs(h, fn, sn + 1, sr, nodes[i..])
    {
      ghost var rest := nodes[i..];
      ClimbEnds(h, fn, sn + 1, fr, sr, rest);
      if sn == 0 {
        return false, hashed;
      }
      if fn % 2 == 0 && fn == sn {
        fn := SkipPromoted(h, fn, fr, sr, rest);
        sn := fn;
      }
      if target.Some? {
        InputsTurn(h, fn, sn, fr, sr, rest);
      }
      hashed := hashed + {ParentInput(fn, sr, nodes[i])};
      if fn % 2 == 1 {
        ClimbRight(h, fn / 2, sn + 1, sn / 2 + 1, fr, sr, rest);
        fr, sr := NodeHash(h, nodes[i], fr), NodeHash(h, nodes[i], sr);
      } else {
        ClimbLeft(h, fn / 2, sn + 1, sn / 2 + 1, fr, sr, rest);
        sr := NodeHash(h, sr, nodes[i]);
      }
      assert rest[1..] == nodes[i + 1..];
      fn, sn, i := fn / 2, sn / 2, i + 1;
    }
    ClimbEnds(h, fn, sn + 1, fr, sr, nodes[i..]);
    ClimbInputsEnd(h, fn, sn + 1, sr, nodes[i..]);
    return sn == 0 && fr == first && sr == second, hashed;
  }
}
