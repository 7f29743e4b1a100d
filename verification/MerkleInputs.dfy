/** The finitely many inputs that are hashed for a tree and for a proof. A collision is
    only ever reported among these: some collision always exists somewhere. */
module MerkleInputs {
  import opened Octets
  import opened Merkle
  import opened MerkleRecursion

  /** The input of the topmost hash of a tree. */
  function TopInput(h: Hash, leaves: seq<Bytes>): (input: Bytes)
    ensures h(input) == Mth(h, leaves)
  {
    if |leaves| == 0 then []
    else if |leaves| == 1 then [0x00] + leaves[0]
    else
      var k := Split(|leaves|);
      [0x01] + Mth(h, leaves[..k]) + Mth(h, leaves[k..])
  }

  lemma InnerInput(h: Hash, leaves: seq<Bytes>)
    requires |leaves| > 1
    ensures var k := Split(|leaves|);
            TopInput(h, leaves) == [0x01] + Mth(h, leaves[..k]) + Mth(h, leaves[k..])
  {
  }

  /** Every input hashed to compute the root of `leaves`. */
  function TreeInputs(h: Hash, leaves: seq<Bytes>): (inputs: set<Bytes>)
    ensures TopInput(h, leaves) in inputs
  {
    if |leaves| <= 1 then {TopInput(h, leaves)}
    else
      var k := Split(|leaves|);
      {TopInput(h, leaves)} + TreeInputs(h, leaves[..k]) + TreeInputs(h, leaves[k..])
  }

  /** Every input hashed to recompute a root from the leaf at `m` and an audit path. */
  function InclusionInputs(h: Hash, m: nat, n: nat, leaf: Bytes, path: seq<Digest>): (inputs: set<Bytes>)
    requires m < n
    ensures [0x00] + leaf in inputs
    decreases n
  {
    if n == 1 || path == [] then {[0x00] + leaf}
    else
      var k := Split(n);
      var last, rest := path[|path| - 1], path[..|path| - 1];
      if m < k then
        InclusionInputs(h, m, k, leaf, rest) +
        match FromLeaf(h, m, k, leaf, rest)
        case None => {}
        case Some(inner) => {[0x01] + inner + last}
      else
        InclusionInputs(h, m - k, n - k, leaf, rest) +
        match FromLeaf(h, m - k, n - k, leaf, rest)
        case None => {}
        case Some(inner) => {[0x01] + last + inner}
  }

  /** The root recomputed from a leaf and an audit path. */
  function FromLeaf(h: Hash, m: nat, n: nat, leaf: Bytes, path: seq<Digest>): Option<Digest>
    requires m < n
  {
    match Climb(h, m, n, LeafHash(h, leaf), LeafHash(h, leaf), path)
    case None => None
    case Some((_, root)) => Some(root)
  }

  /** The last path node joins what the rest of the path recomputes. */
  lemma FromLeafStep(h: Hash, m: nat, n: nat, leaf: Bytes, path: seq<Digest>)
    requires m < n && n > 1 && path != []
    ensures var k := Split(n);
            var last, rest := path[|path| - 1], path[..|path| - 1];
            FromLeaf(h, m, n, leaf, path) ==
              if m < k then
                match FromLeaf(h, m, k, leaf, rest)
                case None => None
                case Some(inner) => Some(NodeHash(h, inner, last))
              else
                match FromLeaf(h, m - k, n - k, leaf, rest)
                case None => None
                case Some(inner) => Some(NodeHash(h, last, inner))
  {
    hide Split, NodeHash, LeafHash;
  }

  /** Every input hashed to recompute the newer root from a consistency path. */
  function RootsInputs(h: Hash, m: nat, n: nat, path: seq<Digest>): set<Bytes>
    requires 0 < m <= n
    decreases n
  {
    if m == n || path == [] then {}
    else
      var k := Split(n);
      var last, rest := path[|path| - 1], path[..|path| - 1];
      if m <= k then
        RootsInputs(h, m, k, rest) +
        match Roots(h, m, k, rest)
        case None => {}
        case Some((_, inner)) => {[0x01] + inner + last}
      else
        RootsInputs(h, m - k, n - k, rest) +
        match Roots(h, m - k, n - k, rest)
        case None => {}
        case Some((_, inner)) => {[0x01] + last + inner}
  }

  // ----- the inputs of a part are inputs of the whole -----

  lemma TreeInputsStep(h: Hash, leaves: seq<Bytes>)
    requires |leaves| > 1
    ensures var k := Split(|leaves|);
            && TreeInputs(h, leaves[..k]) <= TreeInputs(h, leaves)
            && TreeInputs(h, leaves[k..]) <= TreeInputs(h, leaves)
  {
    hide Split, TopInput;
  }

  lemma InclusionInputsLeft(h: Hash, m: nat, n: nat, leaf: Bytes, path: seq<Digest>)
    requires n > 1 && m < Split(n) && path != []
    ensures var last, rest := path[|path| - 1], path[..|path| - 1];
            var whole, inner := InclusionInputs(h, m, n, leaf, path), FromLeaf(h, m, Split(n), leaf, rest);
            && InclusionInputs(h, m, Split(n), leaf, rest) <= whole
            && (inner.Some? ==> [0x01] + inner.value + last in whole)
  {
    hide Split, FromLeaf;
  }

  lemma InclusionInputsRight(h: Hash, m: nat, n: nat, leaf: Bytes, path: seq<Digest>)
    requires n > 1 && Split(n) <= m < n && path != []
    ensures var k, last, rest := Split(n), path[|path| - 1], path[..|path| - 1];
            var whole, inner := InclusionInputs(h, m, n, leaf, path), FromLeaf(h, m - k, n - k, leaf, rest);
            && InclusionInputs(h, m - k, n - k, leaf, rest) <= whole
            && (inner.Some? ==> [0x01] + last + inner.value in whole)
  {
    hide Split, FromLeaf;
  }

  lemma RootsInputsLeft(h: Hash, m: nat, n: nat, path: seq<Digest>)
    requires 0 < m < n && m <= Split(n) && path != []
    ensures var last, rest := path[|path| - 1], path[..|path| - 1];
            var whole, inner := RootsInputs(h, m, n, path), Roots(h, m, Split(n), rest);
            && RootsInputs(h, m, Split(n), rest) <= whole
            && (inner.Some? ==> [0x01] + inner.value.1 + last in whole)
  {
    hide Split, Roots;
  }

  lemma RootsInputsRight(h: Hash, m: nat, n: nat, path: seq<Digest>)
    requires 1 < n && Split(n) < m < n && path != []
    ensures var k, last, rest := Split(n), path[|path| - 1], path[..|path| - 1];
            var whole, inner := RootsInputs(h, m, n, path), Roots(h, m - k, n - k, rest);
            && RootsInputs(h, m - k, n - k, rest) <= whole
            && (inner.Some? ==> [0x01] + last + inner.value.1 in whole)
  {
    hide Split, Roots;
  }
}
