/** The log directory as explicit state. A command is a list of file operations; a crash
    ends it after any number of them, or in the middle of a write. */
module LogDisk {
  import opened Octets
  import opened Merkle
  import opened LeafFiles
  import Base64

  /** A JSON file is absent, unreadable as what it should be, or holds its value. */
  datatype ConfigFile = NoConfig | BadConfig | Config(format: Bytes, origin: Bytes)
  datatype StateFile = NoState | BadState | State(size: nat, rootText: Bytes)

  datatype Dir = Dir(config: ConfigFile, state: StateFile, tmp: StateFile, leaves: LeafDir)

  datatype Op =
    | CreateConfig
    | WriteConfig(origin: Bytes)
    | CreateLeaf(name: Bytes)             // O_EXCL
    | WriteLeaf(name: Bytes, data: Bytes)
    | CreateTmp                           // create or truncate state.json.tmp
    | WriteTmp(size: nat, rootText: Bytes)
    | RenameTmp                           // atomic

  function DirFormat(): Bytes { Ascii("lys/log-dir/v1") }

  lemma DirFormatOctets()
    ensures DirFormat() == [0x6C, 0x79, 0x73, 0x2F, 0x6C, 0x6F, 0x67, 0x2D, 0x64, 0x69, 0x72, 0x2F, 0x76, 0x31]
  {
  }

  /** The effect of a completed operation, or None when it is an error. */
  function Apply(d: Dir, op: Op): Option<Dir> {
    match op
    case CreateConfig => Some(d.(config := BadConfig))
    case WriteConfig(origin) => Some(d.(config := Config(DirFormat(), origin)))
    case CreateLeaf(name) => if name in d.leaves then None else Some(d.(leaves := d.leaves[name := Regular([])]))
    case WriteLeaf(name, data) => Some(d.(leaves := d.leaves[name := Regular(data)]))
    case CreateTmp => Some(d.(tmp := BadState))
    case WriteTmp(size, rootText) => Some(d.(tmp := State(size, rootText)))
    case RenameTmp => if d.tmp == NoState then None else Some(d.(state := d.tmp, tmp := NoState))
  }

  /** What an interrupted operation leaves: the first `cut` octets of a leaf, a torn JSON
      file, and nothing at all for the atomic operations. */
  function Interrupt(d: Dir, op: Op, cut: nat): Dir {
    match op
    case WriteLeaf(name, data) => d.(leaves := d.leaves[name := Regular(data[..if cut <= |data| then cut else |data|])])
    case WriteConfig(_) => d.(config := BadConfig)
    case WriteTmp(_, _) => d.(tmp := BadState)
    case _ => d
  }

  /** The directory after running `ops` with a crash after `fuel` of them. */
  function Exec(d: Dir, ops: seq<Op>, fuel: nat, cut: nat): Dir
    decreases |ops|
  {
    if ops == [] then d
    else if fuel == 0 then Interrupt(d, ops[0], cut)
    else
      match Apply(d, ops[0])
      case None => d
      case Some(d') => Exec(d', ops[1..], fuel - 1, cut)
  }

  /** All of `ops` took effect. */
  predicate Completes(d: Dir, ops: seq<Op>, fuel: nat)
    decreases |ops|
  {
    ops == [] || (fuel > 0 && Apply(d, ops[0]).Some? && Completes(Apply(d, ops[0]).value, ops[1..], fuel - 1))
  }

  // ----- the commands -----

  function RootText(h: Hash, leaves: seq<Bytes>): Bytes { Base64.Encode(Mth(h, leaves)) }

  function StateOps(h: Hash, leaves: seq<Bytes>): seq<Op> {
    [CreateTmp, WriteTmp(|leaves|, RootText(h, leaves)), RenameTmp]
  }

  function AppendOps(h: Hash, leaves: seq<Bytes>, leaf: Bytes): seq<Op> {
    [CreateLeaf(Name(|leaves|)), WriteLeaf(Name(|leaves|), leaf)] + StateOps(h, leaves + [leaf])
  }

  function InitOps(h: Hash, origin: Bytes): seq<Op> {
    [CreateConfig, WriteConfig(origin)] + StateOps(h, [])
  }

  function DecodePinnedRoot(text: Bytes): Option<Digest> {
    match Base64.Decode(text)
    case None => None
    case Some(b) => if |b| == 32 then Some(b) else None
  }

  /** A pinned root is accepted exactly as the canonical base64 of 32 octets. */
  lemma DecodePinnedRootExact(text: Bytes, root: Digest)
    ensures DecodePinnedRoot(text) == Some(root) <==> text == Base64.Encode(root)
  {
    hide Base64.Encode, Base64.Decode;
    Base64.DecodeEncode(root);
    if DecodePinnedRoot(text) == Some(root) {
      Base64.EncodeDecode(text);
    }
  }

  lemma NoPinnedRoot(text: Bytes)
    requires DecodePinnedRoot(text) == None
    ensures forall root: Digest :: text != Base64.Encode(root)
  {
    hide Base64.Encode, DecodePinnedRoot;
    forall root: Digest
      ensures text != Base64.Encode(root)
    {
      DecodePinnedRootExact(text, root);
    }
  }

  /** What `open` does with a directory. */
  datatype Plan = Reject | Accept(leaves: seq<Bytes>) | Recover(leaves: seq<Bytes>)

  /** The comparison of the rebuilt tree with the pinned size and root; `size + 1` wraps. */
  function CheckAgainstState(h: Hash, leaves: seq<Bytes>, size: nat, root: Digest): Plan {
    if |leaves| == size && Mth(h, leaves) == root then Accept(leaves)
    else if |leaves| == (size + 1) % U64_LIMIT && size <= |leaves| && Mth(h, leaves[..size]) == root
    then Recover(leaves)
    else Reject
  }

  /** The directory parses: configuration, a u64 size, a 32-byte root, contiguous leaves. */
  ghost predicate Loads(d: Dir, root: Digest, leaves: seq<Bytes>) {
    && d.config.Config? && d.config.format == DirFormat()
    && d.state.State? && d.state.size < U64_LIMIT && d.state.rootText == Base64.Encode(root)
    && Holds(d.leaves, leaves)
  }

  ghost predicate Loadable(d: Dir) { exists root, leaves :: Loads(d, root, leaves) }

  ghost function PlanOf(h: Hash, d: Dir): Plan {
    if Loadable(d) then
      var root, leaves :| Loads(d, root, leaves);
      CheckAgainstState(h, leaves, d.state.size, root)
    else Reject
  }

  /** The plan depends on the directory alone, not on how it was enumerated. */
  lemma PlanOfLoads(h: Hash, d: Dir, root: Digest, leaves: seq<Bytes>)
    requires Loads(d, root, leaves)
    ensures PlanOf(h, d) == CheckAgainstState(h, leaves, d.state.size, root)
  {
    hide Holds, CheckAgainstState, Base64.Encode, Base64.Decode;
    Base64.DecodeEncode(root);
    forall r: Digest, l: seq<Bytes> | Loads(d, r, l)
      ensures r == root && l == leaves
    {
      Base64.DecodeEncode(r);
      HoldsUnique(d.leaves, l, leaves);
    }
  }

  // ----- running operations in steps -----

  lemma ExecStep(d: Dir, op: Op, rest: seq<Op>, fuel: nat, cut: nat)
    ensures Exec(d, [op] + rest, fuel, cut) ==
              if fuel == 0 then Interrupt(d, op, cut)
              else if Apply(d, op).None? then d else Exec(Apply(d, op).value, rest, fuel - 1, cut)
    ensures Completes(d, [op] + rest, fuel) <==>
              fuel > 0 && Apply(d, op).Some? && Completes(Apply(d, op).value, rest, fuel - 1)
  {
  }
}
