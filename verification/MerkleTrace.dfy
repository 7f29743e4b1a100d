/** The inputs hashed on the way up from one node, one level at a time: what ties the
    inputs of a recomputed root to the loops that hash them. */
module MerkleTrace {
  import opened Octets
  import opened Merkle
  import opened MerkleRecursion
  import opened MerkleInputs

  /** The newer root recomputed from the node `x` at position `m` of a level of `n` nodes. */
  function Newer(h: Hash, m: nat, n: nat, x: Digest, path: seq<Digest>): Option<Digest>
    requires m < n
  {
    match Climb(h, m, n, x, x, path)
    case None => None
    case Some((_, root)) => Some(root)
  }

  /** The input of the node with these children, if both are known. */
  function NodeInputs(left: Option<Digest>, right: Option<Digest>): set<Bytes> {
    if left.Some? && right.Some? then {[0x01] + left.value + right.value} else {}
  }

  /** Every input hashed to recompute that root. */
  function ClimbInputs(h: Hash, m: nat, n: nat, x: Digest, path: seq<Digest>): set<Bytes>
    requires m < n
    decreases n
  {
    if n == 1 || path == [] then {}
    else
      var k := Split(n);
      var last, rest := path[|path| - 1], path[..|path| - 1];
      if m < k then
        ClimbInputs(h, m, k, x, rest) + NodeInputs(Newer(h, m, k, x, rest), Some(last))
      else
        ClimbInputs(h, m - k, n - k, x, rest) + NodeInputs(Some(last), Newer(h, m - k, n - k, x, rest))
  }

  lemma ClimbInputsEnd(h: Hash, m: nat, n: nat, x: Digest, path: seq<Digest>)
    requires m < n && (n == 1 || path == [])
    ensures ClimbInputs(h, m, n, x, path) == {}
  {
  }

  lemma ClimbInputsLeft(h: Hash, m: nat, n: nat, x: Digest, path: seq<Digest>)
    requires n > 1 && path != [] && m < Split(n)
    ensures var k, last, rest := Split(n), path[|path| - 1], path[..|path| - 1];
            ClimbInputs(h, m, n, x, path) ==
              ClimbInputs(h, m, k, x, rest) + NodeInputs(Newer(h, m, k, x, rest), Some(last))
  {
    hide Split, Newer, NodeInputs;
  }

  lemma ClimbInputsRight(h: Hash, m: nat, n: nat, x: Digest, path: seq<Digest>)
    requires n > 1 && path != [] && Split(n) <= m < n
    ensures var k, last, rest := Split(n), path[|path| - 1], path[..|path| - 1];
            ClimbInputs(h, m, n, x, path) ==
              ClimbInputs(h, m - k, n - k, x, rest) + NodeInputs(Some(last), Newer(h, m - k, n - k, x, rest))
  {
    hide Split, Newer, NodeInputs;
  }

  /** The older tree has no part in the newer root. */
  lemma {:induction false} NewerAlone(h: Hash, m: nat, n: nat, older: Digest, x: Digest, path: seq<Digest>)
    requires m < n
    ensures Newer(h, m, n, x, path) == match Climb(h, m, n, older, x, path)
                                       case None => None
                                       case Some((_, root)) => Some(root)
    decreases n
  {
    hide Split, NodeHash;
    if n > 1 && path != [] {
      var k := Split(n);
      var rest := path[..|path| - 1];
      if m < k {
        NewerAlone(h, m, k, older, x, rest);
      } else {
        NewerAlone(h, m - k, n - k, older, x, rest);
      }
    }
  }

  /** A path of the wrong length recomputes nothing, whatever its nodes. */
  lemma NewerShape(h: Hash, m: nat, n: nat, x: Digest, path: seq<Digest>)
    requires m < n && Newer(h, m, n, x, path).Some?
    ensures n == 1 <==> path == []
    ensures n > 1 ==>
              var k, rest := Split(n), path[..|path| - 1];
              if m < k then Newer(h, m, k, x, rest).Some? else Newer(h, m - k, n - k, x, rest).Some?
  {
    hide Split, NodeHash;
  }

  /** The newer-root forms of the one-level laws. */
  lemma NewerUp(h: Hash, i: nat, size: nat, up: nat, x: Digest, path: seq<Digest>)
    requires ParentLevel(size, up) && 2 * i + 1 < size && path != []
    ensures Newer(h, 2 * i + 1, size, x, path) == Newer(h, i, up, NodeHash(h, path[0], x), path[1..])
    ensures Newer(h, 2 * i, size, x, path) == Newer(h, i, up, NodeHash(h, x, path[0]), path[1..])
  {
    hide Climb, NodeHash;
    ClimbRight(h, i, size, up, x, x, path);
    ClimbLeft(h, i, size, up, x, x, path);
    NewerAlone(h, i, up, x, NodeHash(h, x, path[0]), path[1..]);
  }

  // ----- one level up -----

  /** A lone last node is promoted without hashing. */
  lemma {:induction false} InputsPromote(h: Hash, up: nat, x: Digest, path: seq<Digest>)
    requires up > 1
    ensures ClimbInputs(h, 2 * up - 2, 2 * up - 1, x, path) == ClimbInputs(h, up - 1, up, x, path)
  {
    hide Split, IsPow2, Climb, ClimbInputs, NodeInputs;
    if path == [] {
      ClimbInputsEnd(h, 2 * up - 2, 2 * up - 1, x, path);
      ClimbInputsEnd(h, up - 1, up, x, path);
    } else {
      SplitParents(2 * up - 1, up);
      ClimbInputsRight(h, 2 * up - 2, 2 * up - 1, x, path);
      ClimbInputsRight(h, up - 1, up, x, path);
      var k, rest := Split(up), path[..|path| - 1];
      if up - k > 1 {
        InputsPromote(h, up - k, x, rest);
        ClimbPromote(h, up - k, x, x, rest);
      }
    }
  }

  /** The parent of `x` at position `j` with its sibling on the path, and its input. */
  function ParentInput(j: nat, x: Digest, sibling: Digest): Bytes {
    if j % 2 == 1 then [0x01] + sibling + x else [0x01] + x + sibling
  }

  /** A node with a sibling is hashed with the first path node, and then its parent goes up. */
  lemma {:induction false} InputsUp(h: Hash, j: nat, size: nat, up: nat, x: Digest, path: seq<Digest>)
    requires ParentLevel(size, up) && j < size && 2 * (j / 2) + 1 < size
    requires path != [] && Newer(h, j, size, x, path).Some?
    ensures var input := ParentInput(j, x, path[0]);
            && Newer(h, j, size, x, path) == Newer(h, j / 2, up, h(input), path[1..])
            && ClimbInputs(h, j, size, x, path) == {input} + ClimbInputs(h, j / 2, up, h(input), path[1..])
    decreases size
  {
    hide Split, IsPow2, Newer, ClimbInputs, NodeInputs;
    var input := ParentInput(j, x, path[0]);
    NewerUp(h, j / 2, size, up, x, path);
    NewerShape(h, j, size, x, path);
    var last, rest, tail := path[|path| - 1], path[..|path| - 1], path[1..];
    if up == 1 {
      InputsUpBase(h, j, size, x, path);
    } else {
      SplitParents(size, up);
      var k := Split(up);
      NewerShape(h, j / 2, up, h(input), tail);
      assert rest[1..] == tail[..|tail| - 1] && tail[|tail| - 1] == last && rest[0] == path[0];
      if j < 2 * k {
        ClimbInputsLeft(h, j, size, x, path);
        ClimbInputsLeft(h, j / 2, up, h(input), tail);
        InputsUp(h, j, 2 * k, k, x, rest);
      } else {
        ClimbInputsRight(h, j, size, x, path);
        ClimbInputsRight(h, j / 2, up, h(input), tail);
        InputsUp(h, j - 2 * k, size - 2 * k, up - k, x, rest);
      }
    }
  }

  lemma InputsUpBase(h: Hash, j: nat, size: nat, x: Digest, path: seq<Digest>)
    requires size == 2 && j < 2 && path != [] && Newer(h, j, size, x, path).Some?
    ensures ClimbInputs(h, j, size, x, path) == {ParentInput(j, x, path[0])}
    ensures ClimbInputs(h, j / 2, 1, h(ParentInput(j, x, path[0])), path[1..]) == {}
  {
  }

  // ----- the recomputed roots -----

  /** The inputs of an audit path are the leaf's and those on the way up from its hash. */
  lemma {:induction false} InclusionTrace(h: Hash, m: nat, n: nat, leaf: Bytes, path: seq<Digest>)
    requires m < n
    ensures InclusionInputs(h, m, n, leaf, path) == {[0x00] + leaf} + ClimbInputs(h, m, n, LeafHash(h, leaf), path)
    decreases n
  {
    hide Split, LeafHash, Climb;
    if n > 1 && path != [] {
      var k, rest := Split(n), path[..|path| - 1];
      if m < k {
        InclusionTrace(h, m, k, leaf, rest);
      } else {
        InclusionTrace(h, m - k, n - k, leaf, rest);
      }
    }
  }

  function NewerRoot(h: Hash, m: nat, n: nat, path: seq<Digest>): Option<Digest>
    requires 0 < m <= n
  {
    match Roots(h, m, n, path)
    case None => None
    case Some((_, root)) => Some(root)
  }

  lemma RootsInputsStepLeft(h: Hash, m: nat, n: nat, path: seq<Digest>)
    requires 0 < m < n && m <= Split(n) && path != []
    ensures var k, last, rest := Split(n), path[|path| - 1], path[..|path| - 1];
            RootsInputs(h, m, n, path) == RootsInputs(h, m, k, rest) + NodeInputs(NewerRoot(h, m, k, rest), Some(last))
  {
    hide Split, Roots;
  }

  lemma RootsInputsStepRight(h: Hash, m: nat, n: nat, path: seq<Digest>)
    requires 1 < n && Split(n) < m < n && path != []
    ensures var k, last, rest := Split(n), path[|path| - 1], path[..|path| - 1];
            RootsInputs(h, m, n, path) ==
              RootsInputs(h, m - k, n - k, rest) + NodeInputs(Some(last), NewerRoot(h, m - k, n - k, rest))
  {
    hide Split, Roots;
  }

  lemma RootsInputsEnd(h: Hash, m: nat, n: nat, path: seq<Digest>)
    requires 0 < m <= n && (m == n || path == [])
    ensures RootsInputs(h, m, n, path) == {} && (path == [] ==> NewerRoot(h, m, n, path) == None)
  {
  }

  /** An even older size: the same inputs one level up. */
  lemma {:induction false} RootsInputsHalve(h: Hash, m: nat, n: nat, up: nat, path: seq<Digest>)
    requires 0 < 2 * m <= n && ParentLevel(n, up) && (2 * m == n ==> IsPow2(m))
    ensures RootsInputs(h, 2 * m, n, path) == RootsInputs(h, m, up, path)
    decreases n
  {
    hide Split, IsPow2, Roots, RootsInputs, NodeInputs;
    if m == up || path == [] {
      RootsInputsEnd(h, m, up, path);
      RootsInputsEnd(h, 2 * m, n, path);
    } else {
      SplitParents(n, up);
      var k, rest := Split(up), path[..|path| - 1];
      if m <= k {
        RootsInputsStepLeft(h, m, up, path);
        RootsInputsStepLeft(h, 2 * m, n, path);
        RootsInputsHalve(h, m, 2 * k, k, rest);
        RootsHalve(h, m, 2 * k, k, rest);
      } else {
        RootsInputsStepRight(h, m, up, path);
        RootsInputsStepRight(h, 2 * m, n, path);
        RootsInputsHalve(h, m - k, n - 2 * k, up - k, rest);
        RootsHalve(h, m - k, n - 2 * k, up - k, rest);
      }
    }
  }

  /** An odd older size: the inputs on the way up from the first path node. */
  lemma {:induction false} RootsTrace(h: Hash, m: nat, n: nat, path: seq<Digest>)
    requires 0 < m <= n && m % 2 == 1 && (m == n ==> n == 1) && path != []
    ensures RootsInputs(h, m, n, path) == ClimbInputs(h, m - 1, n, path[0], path[1..])
    decreases n
  {
    hide Roots, Climb, IsPow2, RootsInputs, ClimbInputs, Split;
    if m == n {
      RootsInputsEnd(h, m, n, path);
      ClimbInputsEnd(h, m - 1, n, path[0], path[1..]);
    } else {
      SplitEven(n);
      var k, rest, tail := Split(n), path[..|path| - 1], path[1..];
      if m <= k {
        RootsInputsStepLeft(h, m, n, path);
      } else {
        RootsInputsStepRight(h, m, n, path);
      }
      if rest == [] {
        RootsInputsEnd(h, if m <= k then m else m - k, if m <= k then k else n - k, rest);
        ClimbInputsEnd(h, m - 1, n, path[0], tail);
      } else {
        assert rest[1..] == tail[..|tail| - 1] && tail[|tail| - 1] == path[|path| - 1];
        if m <= k {
          ClimbInputsLeft(h, m - 1, n, path[0], tail);
          RootsTrace(h, m, k, rest);
          RootsClimb(h, m, k, rest);
        } else {
          ClimbInputsRight(h, m - 1, n, path[0], tail);
          RootsTrace(h, m - k, n - k, rest);
          RootsClimb(h, m - k, n - k, rest);
        }
      }
    }
  }
}
