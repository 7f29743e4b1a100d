/** What a proof means: the roots recomputed top-down along the RFC 6962 tree shape.
    The verifier loops walk bottom-up on index bits; this module proves the one-level
    laws that make the two agree, and the exactness of the recomputation. */
module MerkleRecursion {
  import opened Octets
  import opened Merkle

  /** The (older, newer) pair of a left subtree, seen one node higher. */
  function UnderLeft(h: Hash, left: Option<(Digest, Digest)>, right: Digest): Option<(Digest, Digest)> {
    match left
    case None => None
    case Some((o, n)) => Some((o, NodeHash(h, n, right)))
  }

  /** The (older, newer) pair of a right subtree, seen one node higher. */
  function UnderRight(h: Hash, left: Digest, right: Option<(Digest, Digest)>): Option<(Digest, Digest)> {
    match right
    case None => None
    case Some((o, n)) => Some((NodeHash(h, left, o), NodeHash(h, left, n)))
  }

  /** Roots recomputed from the node at position `index` of a level of `size` nodes:
      `older` is that node truncated to the older tree, `newer` the whole node. The
      older tree ends at `index`, so only left siblings join it. */
  function Climb(h: Hash, index: nat, size: nat, older: Digest, newer: Digest, path: seq<Digest>)
    : Option<(Digest, Digest)>
    requires index < size
    decreases size
  {
    if size == 1 then
      if path == [] then Some((older, newer)) else None
    else if path == [] then None
    else
      var k := Split(size);
      var last, rest := path[|path| - 1], path[..|path| - 1];
      if index < k then
        UnderLeft(h, Climb(h, index, k, older, newer, rest), last)
      else
        UnderRight(h, last, Climb(h, index - k, size - k, older, newer, rest))
  }

  /** Roots of the trees of `m` and `n` leaves recomputed from a consistency path whose
      first node is the largest complete subtree ending at leaf `m`. */
  function Roots(h: Hash, m: nat, n: nat, path: seq<Digest>): Option<(Digest, Digest)>
    requires 0 < m <= n
    decreases n
  {
    if m == n then
      if |path| == 1 then Some((path[0], path[0])) else None
    else if path == [] then None
    else
      var k := Split(n);
      var last, rest := path[|path| - 1], path[..|path| - 1];
      if m <= k then
        UnderLeft(h, Roots(h, m, k, rest), last)
      else
        UnderRight(h, last, Roots(h, m - k, n - k, rest))
  }

  // ----- one level up -----

  /** A level of `size` nodes has `up` parents (a lone last node is its own parent). */
  predicate ParentLevel(size: nat, up: nat) { size == 2 * up || size + 1 == 2 * up }

  /** Parents halve the split point. */
  lemma SplitParents(size: nat, up: nat)
    requires ParentLevel(size, up) && up > 1
    ensures Split(size) == 2 * Split(up)
  {
    if size > 2 {
      assert (size + 1) / 2 == up;
    }
  }

  /** A lone last node is promoted unchanged. */
  lemma {:induction false} ClimbPromote(h: Hash, up: nat, older: Digest, newer: Digest, path: seq<Digest>)
    requires up > 1
    ensures Climb(h, 2 * up - 2, 2 * up - 1, older, newer, path) == Climb(h, up - 1, up, older, newer, path)
  {
    hide Split, IsPow2, UnderLeft, UnderRight, NodeHash;
    SplitParents(2 * up - 1, up);
    var k := Split(up);
    if path != [] {
      var last, rest := path[|path| - 1], path[..|path| - 1];
      if up - k > 1 {
        ClimbPromote(h, up - k, older, newer, rest);
      }
      assert Climb(h, 2 * up - 2, 2 * up - 1, older, newer, path)
          == UnderRight(h, last, Climb(h, 2 * (up - k) - 2, 2 * (up - k) - 1, older, newer, rest));
    }
  }

  /** The right-child law where the path ends or the level has two nodes. */
  lemma ClimbRightBase(h: Hash, i: nat, size: nat, up: nat, older: Digest, newer: Digest, path: seq<Digest>)
    requires ParentLevel(size, up) && 2 * i + 1 < size && path != [] && (up == 1 || |path| == 1)
    ensures Climb(h, 2 * i + 1, size, older, newer, path)
         == Climb(h, i, up, NodeHash(h, path[0], older), NodeHash(h, path[0], newer), path[1..])
  {
  }

  /** A right child joins the left sibling `path[0]` in both trees. */
  lemma {:induction false} ClimbRight(h: Hash, i: nat, size: nat, up: nat, older: Digest, newer: Digest,
                                      path: seq<Digest>)
    requires ParentLevel(size, up) && 2 * i + 1 < size && path != []
    ensures Climb(h, 2 * i + 1, size, older, newer, path)
         == Climb(h, i, up, NodeHash(h, path[0], older), NodeHash(h, path[0], newer), path[1..])
    decreases size
  {
    hide Split, IsPow2, UnderLeft, UnderRight, NodeHash;
    if up == 1 || |path| == 1 {
      ClimbRightBase(h, i, size, up, older, newer, path);
    } else {
      SplitParents(size, up);
      var k := Split(up);
      var last, rest, tail := path[|path| - 1], path[..|path| - 1], path[1..];
      assert rest[1..] == tail[..|tail| - 1] && tail[|tail| - 1] == last;
      if i < k {
        ClimbRight(h, i, 2 * k, k, older, newer, rest);
        assert Climb(h, 2 * i + 1, size, older, newer, path)
            == UnderLeft(h, Climb(h, 2 * i + 1, 2 * k, older, newer, rest), last);
      } else {
        ClimbRight(h, i - k, size - 2 * k, up - k, older, newer, rest);
        assert Climb(h, 2 * i + 1, size, older, newer, path)
            == UnderRight(h, last, Climb(h, 2 * (i - k) + 1, size - 2 * k, older, newer, rest));
      }
    }
  }

  /** The left-child law where the path ends or the level has two nodes. */
  lemma ClimbLeftBase(h: Hash, i: nat, size: nat, up: nat, older: Digest, newer: Digest, path: seq<Digest>)
    requires ParentLevel(size, up) && 2 * i + 1 < size && path != [] && (up == 1 || |path| == 1)
    ensures Climb(h, 2 * i, size, older, newer, path)
         == Climb(h, i, up, older, NodeHash(h, newer, path[0]), path[1..])
  {
  }

  /** A left child with a right sibling joins it in the newer tree only. */
  lemma {:induction false} ClimbLeft(h: Hash, i: nat, size: nat, up: nat, older: Digest, newer: Digest,
                                     path: seq<Digest>)
    requires ParentLevel(size, up) && 2 * i + 1 < size && path != []
    ensures Climb(h, 2 * i, size, older, newer, path)
         == Climb(h, i, up, older, NodeHash(h, newer, path[0]), path[1..])
    decreases size
  {
    hide Split, IsPow2, UnderLeft, UnderRight, NodeHash;
    if up == 1 || |path| == 1 {
      ClimbLeftBase(h, i, size, up, older, newer, path);
    } else {
      SplitParents(size, up);
      var k := Split(up);
      var last, rest, tail := path[|path| - 1], path[..|path| - 1], path[1..];
      assert rest[1..] == tail[..|tail| - 1] && tail[|tail| - 1] == last;
      if i < k {
        ClimbLeft(h, i, 2 * k, k, older, newer, rest);
        assert Climb(h, 2 * i, size, older, newer, path)
            == UnderLeft(h, Climb(h, 2 * i, 2 * k, older, newer, rest), last);
      } else {
        ClimbLeft(h, i - k, size - 2 * k, up - k, older, newer, rest);
        assert Climb(h, 2 * i, size, older, newer, path)
            == UnderRight(h, last, Climb(h, 2 * (i - k), size - 2 * k, older, newer, rest));
      }
    }
  }

  /** While the older size is even, both trees may be viewed one level up. */
  lemma {:induction false} RootsHalve(h: Hash, m: nat, n: nat, up: nat, path: seq<Digest>)
    requires 0 < 2 * m <= n && ParentLevel(n, up) && (2 * m == n ==> IsPow2(m))
    ensures Roots(h, 2 * m, n, path) == Roots(h, m, up, path)
    decreases n
  {
    hide Split, IsPow2, UnderLeft, UnderRight, NodeHash;
    if m < up && path != [] {
      SplitParents(n, up);
      var k := Split(up);
      var last, rest := path[|path| - 1], path[..|path| - 1];
      if m <= k {
        RootsHalve(h, m, 2 * k, k, rest);
        assert Roots(h, 2 * m, n, path) == UnderLeft(h, Roots(h, 2 * m, 2 * k, rest), last);
      } else {
        RootsHalve(h, m - k, n - 2 * k, up - k, rest);
        assert Roots(h, 2 * m, n, path) == UnderRight(h, last, Roots(h, 2 * (m - k), n - 2 * k, rest));
      }
    }
  }

  lemma SplitEven(n: nat)
    requires n > 1
    ensures n > 2 ==> Split(n) % 2 == 0
    ensures n == 2 ==> Split(n) == 1
  {
  }

  lemma RootsEnd(h: Hash, m: nat, n: nat)
    requires 0 < m <= n
    ensures Roots(h, m, n, []) == None
  {
  }

  /** With an odd older size the first path node is the last node of the older level. */
  lemma {:induction false} RootsClimb(h: Hash, m: nat, n: nat, path: seq<Digest>)
    requires 0 < m <= n && m % 2 == 1 && (m == n ==> n == 1) && path != []
    ensures Roots(h, m, n, path) == Climb(h, m - 1, n, path[0], path[0], path[1..])
    decreases n
  {
    hide Split, IsPow2, NodeHash;
    if m < n {
      SplitEven(n);
      var k := Split(n);
      var rest := path[..|path| - 1];
      if rest == [] {
        RootsEnd(h, if m <= k then m else m - k, if m <= k then k else n - k);
      } else {
        assert rest[1..] == path[1..][..|path| - 2];
        if m <= k {
          RootsClimb(h, m, k, rest);
        } else {
          RootsClimb(h, m - k, n - k, rest);
        }
      }
    }
  }
}
