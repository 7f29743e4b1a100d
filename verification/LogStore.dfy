/** The log store object and its commands, with a disk that may stop at any operation. */
module LogStore {
  import opened Octets
  import opened Merkle
  import opened LeafFiles
  import opened LogDisk
  import opened Names
  import Tree
  import Base64

  /** `fuel` operations complete before the crash; an interrupted write keeps `cut` octets. */
  class Disk {
    var d: Dir
    var fuel: nat
    var cut: nat

    constructor (d: Dir, fuel: nat, cut: nat)
      ensures this.d == d && this.fuel == fuel && this.cut == cut
    {
      this.d, this.fuel, this.cut := d, fuel, cut;
    }

    /** One file operation. After a failure the command must return. */
    method Do(op: Op) returns (ok: bool)
      modifies this
      ensures cut == old(cut)
      ensures ok <==> old(fuel) > 0 && Apply(old(d), op).Some?
      ensures ok ==> d == Apply(old(d), op).value && fuel == old(fuel) - 1
      ensures !ok ==> d == if old(fuel) == 0 then Interrupt(old(d), op, cut) else old(d)
    {
      if fuel == 0 {
        d := Interrupt(d, op, cut);
        return false;
      }
      fuel := fuel - 1;
      var after := Apply(d, op);
      if after.None? {
        return false;
      }
      d := after.value;
      return true;
    }
  }

  /** Atomic rewrite of the state file: temp file, then rename. */
  method WriteState(disk: Disk, root: Tree.RootHash) returns (ok: bool)
    modifies disk
    ensures var ops := [CreateTmp, WriteTmp(root.size, Base64.Encode(root.hash)), RenameTmp];
            && disk.d == Exec(old(disk.d), ops, old(disk.fuel), old(disk.cut))
            && ok == Completes(old(disk.d), ops, old(disk.fuel))
  {
    hide Apply, Interrupt, Base64.Encode;
    ghost var d, fuel := disk.d, disk.fuel;
    var text := Base64.Encode(root.hash);
    ghost var rest: seq<Op> := [WriteTmp(root.size, text), RenameTmp];
    assert [CreateTmp] + rest == [CreateTmp, WriteTmp(root.size, text), RenameTmp];
    assert [WriteTmp(root.size, text)] + [RenameTmp] == rest && [RenameTmp] + [] == [RenameTmp];
    ExecStep(d, CreateTmp, rest, fuel, disk.cut);
    ok := disk.Do(CreateTmp);
    if !ok {
      return;
    }
    ExecStep(disk.d, WriteTmp(root.size, text), [RenameTmp], disk.fuel, disk.cut);
    ok := disk.Do(WriteTmp(root.size, text));
    if !ok {
      return;
    }
    ExecStep(disk.d, RenameTmp, [], disk.fuel, disk.cut);
    ok := disk.Do(RenameTmp);
  }

  /** Creates the configuration and pins the empty log; refuses an existing one. */
  method Init(h: Hash, disk: Disk, origin: Bytes) returns (ok: bool)
    modifies disk
    ensures (!ValidName(origin) || old(disk.d.config) != NoConfig) ==> !ok && disk.d == old(disk.d)
    ensures ValidName(origin) && old(disk.d.config) == NoConfig ==>
              && disk.d == Exec(old(disk.d), InitOps(h, origin), old(disk.fuel), old(disk.cut))
              && ok == Completes(old(disk.d), InitOps(h, origin), old(disk.fuel))
  {
    hide Apply, Interrupt, Base64.Encode, ValidName, Mth;
    if !ValidName(origin) || disk.d.config != NoConfig {
      return false;
    }
    var rest := StateOps(h, []);
    ExecStep(disk.d, CreateConfig, [WriteConfig(origin)] + rest, disk.fuel, disk.cut);
    assert InitOps(h, origin) == [CreateConfig] + ([WriteConfig(origin)] + rest);
    ok := disk.Do(CreateConfig);
    if !ok {
      return;
    }
    ExecStep(disk.d, WriteConfig(origin), rest, disk.fuel, disk.cut);
    ok := disk.Do(WriteConfig(origin));
    if !ok {
      return;
    }
    ok := WriteState(disk, Tree.RootHash(Mth(h, []), 0));
  }

  class LogStore {
    const h: Hash
    const disk: Disk
    var origin: Bytes
    var leaves: seq<Bytes>
    var tree: Tree.AppendOnlyTree

    /** The tree in memory is the tree of the leaves in memory. */
    ghost predicate Valid()
      reads this, tree
    {
      tree.h == h && tree.leaves == leaves
    }

    constructor (h: Hash, disk: Disk, origin: Bytes, leaves: seq<Bytes>, tree: Tree.AppendOnlyTree)
      requires tree.h == h && tree.leaves == leaves
      ensures Valid() && this.h == h && this.disk == disk
      ensures this.origin == origin && this.leaves == leaves && this.tree == tree
    {
      this.h, this.disk, this.origin, this.leaves, this.tree := h, disk, origin, leaves, tree;
    }

    /** The tree over the first `size` leaves, or None when there are fewer. */
    method PrefixTree(size: nat) returns (prefix: Tree.AppendOnlyTree?)
      requires Valid()
      ensures prefix == null <==> size > |leaves|
      ensures prefix != null ==> fresh(prefix) && prefix.h == h && prefix.leaves == leaves[..size]
    {
      if size > |leaves| {
        return null;
      }
      prefix := Tree.AppendOnlyTree.Reconstruct(h, leaves[..size]);
    }

    /** Writes the leaf with O_EXCL, extends memory, pins the new root. */
    method Append(leaf: Bytes) returns (r: Option<(nat, Digest)>)
      requires Valid()
      modifies this, tree, disk
      ensures Valid() && tree == old(tree) && origin == old(origin)
      ensures disk.d == Exec(old(disk.d), AppendOps(h, old(leaves), leaf), old(disk.fuel), old(disk.cut))
      ensures r.Some? <==> Completes(old(disk.d), AppendOps(h, old(leaves), leaf), old(disk.fuel))
      ensures r.Some? ==> leaves == old(leaves) + [leaf] && r.value == (|old(leaves)|, LeafHash(h, leaf))
      ensures r.None? ==> leaves == if Completes(old(disk.d), AppendOps(h, old(leaves), leaf)[..2], old(disk.fuel))
                                    then old(leaves) + [leaf] else old(leaves)
    {
      hide Apply, Interrupt, Base64.Encode, Mth, Name, LeafHash;
      var index := |tree.leaves|;
      ghost var rest := StateOps(h, leaves + [leaf]);
      assert AppendOps(h, leaves, leaf) == [CreateLeaf(Name(index))] + ([WriteLeaf(Name(index), leaf)] + rest);
      ExecStep(disk.d, CreateLeaf(Name(index)), [WriteLeaf(Name(index), leaf)] + rest, disk.fuel, disk.cut);
      assert AppendOps(h, leaves, leaf)[..2] == [CreateLeaf(Name(index))] + [WriteLeaf(Name(index), leaf)];
      ExecStep(disk.d, CreateLeaf(Name(index)), [WriteLeaf(Name(index), leaf)], disk.fuel, disk.cut);
      var ok := disk.Do(CreateLeaf(Name(index)));
      if !ok {
        return None;
      }
      assert [WriteLeaf(Name(index), leaf)] + [] == [WriteLeaf(Name(index), leaf)];
      ExecStep(disk.d, WriteLeaf(Name(index), leaf), [], disk.fuel, disk.cut);
      ExecStep(disk.d, WriteLeaf(Name(index), leaf), rest, disk.fuel, disk.cut);
      ok := disk.Do(WriteLeaf(Name(index), leaf));
      if !ok {
        return None;
      }
      var _ := tree.AppendRaw(leaf);
      leaves := leaves + [leaf];
      ok := WriteState(disk, tree.Root());
      if !ok {
        return None;
      }
      return Some((index, LeafHash(h, leaf)));
    }

    /** Open-time comparison with the pinned state, repairing one interrupted append. */
    method CheckAgainstState(size: nat, root: Digest) returns (ok: bool)
      requires Valid() && size < U64_LIMIT
      modifies disk
      ensures Valid()
      ensures match LogDisk.CheckAgainstState(h, leaves, size, root)
              case Reject => !ok && disk.d == old(disk.d)
              case Accept(_) => ok && disk.d == old(disk.d)
              case Recover(_) =>
                && disk.d == Exec(old(disk.d), StateOps(h, leaves), old(disk.fuel), old(disk.cut))
                && ok == Completes(old(disk.d), StateOps(h, leaves), old(disk.fuel))
    {
      hide Exec, Completes, Mth, Base64.Encode;
      var rebuilt := tree.Root();
      if rebuilt.size == size && rebuilt.hash == root {
        return true;
      }
      if rebuilt.size == (size + 1) % U64_LIMIT {
        var prefix := PrefixTree(size);
        if prefix == null {
          return false;
        }
        if prefix.Root().hash == root {
          ok := WriteState(disk, tree.Root());
          return;
        }
      }
      return false;
    }
  }

  /** Opens a directory whose leaf names the system lists as `names`. */
  method Open(h: Hash, disk: Disk, names: seq<Bytes>) returns (store: LogStore?)
    requires Distinct(names) && forall name :: name in names <==> name in disk.d.leaves
    modifies disk
    ensures match PlanOf(h, old(disk.d))
            case Reject => store == null && disk.d == old(disk.d)
            case Accept(l) => store != null && store.leaves == l && disk.d == old(disk.d)
            case Recover(l) =>
              && disk.d == Exec(old(disk.d), StateOps(h, l), old(disk.fuel), old(disk.cut))
              && (store != null <==> Completes(old(disk.d), StateOps(h, l), old(disk.fuel)))
              && (store != null ==> store.leaves == l)
    ensures store != null ==> fresh(store) && fresh(store.tree) && store.Valid() && store.h == h && store.disk == disk
    ensures store != null ==> old(disk.d).config.Config? && store.origin == old(disk.d).config.origin
  {
    hide Exec, Completes, Holds, LogDisk.CheckAgainstState, DecodePinnedRoot, Base64.Encode, DirFormat;
    var d := disk.d;
    if !d.config.Config? || d.config.format != DirFormat() || !d.state.State? || d.state.size >= U64_LIMIT {
      return null;
    }
    var root := DecodePinnedRoot(d.state.rootText);
    if root.None? {
      NoPinnedRoot(d.state.rootText);
      return null;
    }
    var leaves := ReadLeaves(d.leaves, names);
    if leaves.None? {
      return null;
    }
    DecodePinnedRootExact(d.state.rootText, root.value);
    assert Loads(d, root.value, leaves.value);
    PlanOfLoads(h, d, root.value, leaves.value);
    var tree := Tree.AppendOnlyTree.Reconstruct(h, leaves.value);
    store := new LogStore(h, disk, d.config.origin, leaves.value, tree);
    var ok := store.CheckAgainstState(d.state.size, root.value);
    PlanLeaves(h, leaves.value, d.state.size, root.value);
    if !ok {
      return null;
    }
  }

  lemma PlanLeaves(h: Hash, leaves: seq<Bytes>, size: nat, root: Digest)
    ensures match LogDisk.CheckAgainstState(h, leaves, size, root)
            case Reject => true
            case Accept(l) => l == leaves
            case Recover(l) => l == leaves
  {
  }
}
