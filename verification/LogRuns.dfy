/** The log directory over whole single-writer runs of opens, appends and crashes. */
module LogRuns {
  import opened Octets
  import opened Merkle
  import opened LeafFiles
  import opened LogDisk
  import Base64

  /** The disk, and the leaves of the open store if there is one. */
  datatype World = World(dir: Dir, mem: Option<seq<Bytes>>)

  /** A command runs until it finishes or crashes after `fuel` file operations. */
  datatype Event = Open(fuel: nat, cut: nat) | Append(leaf: Bytes, fuel: nat, cut: nat) | Close

  predicate Enabled(w: World, e: Event) {
    e.Append? ==> w.mem.Some? && |w.mem.value| + 1 < U64_LIMIT
  }

  /** A store is dropped after a failed append: its memory may be ahead of the disk. */
  ghost function Step(h: Hash, w: World, e: Event): World
    requires Enabled(w, e)
  {
    match e
    case Close => w.(mem := None)
    case Open(fuel, cut) =>
      (match PlanOf(h, w.dir)
       case Reject => w.(mem := None)
       case Accept(l) => w.(mem := Some(l))
       case Recover(l) =>
         var ops := StateOps(h, l);
         World(Exec(w.dir, ops, fuel, cut), if Completes(w.dir, ops, fuel) then Some(l) else None))
    case Append(leaf, fuel, cut) =>
      var ops := AppendOps(h, w.mem.value, leaf);
      World(Exec(w.dir, ops, fuel, cut), if Completes(w.dir, ops, fuel) then Some(w.mem.value + [leaf]) else None)
  }

  /** The state file pins `pinned`; the leaf files hold it and at most one leaf more. */
  ghost predicate Sound(h: Hash, d: Dir, pinned: seq<Bytes>, files: seq<Bytes>) {
    && d.config.Config? && d.config.format == DirFormat()
    && d.state == State(|pinned|, RootText(h, pinned))
    && Holds(d.leaves, files) && |files| < U64_LIMIT
    && (files == pinned || (pinned < files && |files| == |pinned| + 1))
  }

  ghost predicate WorldSound(h: Hash, w: World, pinned: seq<Bytes>, files: seq<Bytes>) {
    Sound(h, w.dir, pinned, files) && (w.mem.Some? ==> w.mem.value == pinned == files)
  }

  // ----- what the commands do to the disk -----

  lemma ExecState(h: Hash, d: Dir, leaves: seq<Bytes>, fuel: nat, cut: nat)
    ensures var d' := Exec(d, StateOps(h, leaves), fuel, cut);
            && d'.leaves == d.leaves && d'.config == d.config
            && d'.state == (if fuel >= 3 then State(|leaves|, RootText(h, leaves)) else d.state)
    ensures Completes(d, StateOps(h, leaves), fuel) <==> fuel >= 3
  {
    hide Exec, Completes, RootText;
    var write := WriteTmp(|leaves|, RootText(h, leaves));
    ExecStep(d, CreateTmp, [write] + [RenameTmp], fuel, cut);
    assert StateOps(h, leaves) == [CreateTmp] + ([write] + [RenameTmp]);
    if fuel > 0 {
      var d1 := Apply(d, CreateTmp).value;
      ExecStep(d1, write, [RenameTmp], fuel - 1, cut);
      if fuel > 1 {
        var d2 := Apply(d1, write).value;
        assert [RenameTmp] + [] == [RenameTmp];
        ExecStep(d2, RenameTmp, [], fuel - 2, cut);
        if fuel > 2 {
          ExecNothing(Apply(d2, RenameTmp).value, fuel - 3, cut);
        }
      }
    }
  }

  lemma ExecNothing(d: Dir, fuel: nat, cut: nat)
    ensures Exec(d, [], fuel, cut) == d && Completes(d, [], fuel)
  {
  }

  /** What a crash during the leaf write leaves of the leaf. */
  function Torn(leaf: Bytes, fuel: nat, cut: nat): Bytes {
    if fuel == 1 && cut <= |leaf| then leaf[..cut] else leaf
  }

  lemma ExecAppend(h: Hash, d: Dir, leaves: seq<Bytes>, leaf: Bytes, fuel: nat, cut: nat)
    requires Name(|leaves|) !in d.leaves
    ensures var d' := Exec(d, AppendOps(h, leaves, leaf), fuel, cut);
            && d'.config == d.config
            && d'.leaves == (if fuel == 0 then d.leaves else d.leaves[Name(|leaves|) := Regular(Torn(leaf, fuel, cut))])
            && d'.state == (if fuel >= 5 then State(|leaves| + 1, RootText(h, leaves + [leaf])) else d.state)
    ensures Completes(d, AppendOps(h, leaves, leaf), fuel) <==> fuel >= 5
  {
    hide Exec, Completes, RootText, Name;
    var name := Name(|leaves|);
    var rest := StateOps(h, leaves + [leaf]);
    ExecStep(d, CreateLeaf(name), [WriteLeaf(name, leaf)] + rest, fuel, cut);
    assert AppendOps(h, leaves, leaf) == [CreateLeaf(name)] + ([WriteLeaf(name, leaf)] + rest);
    if fuel > 0 {
      assert leaf[..|leaf|] == leaf;
      var d1 := Apply(d, CreateLeaf(name)).value;
      var torn := Regular(Torn(leaf, fuel, cut));
      assert d1.leaves[name := torn] == d.leaves[name := torn];
      ExecStep(d1, WriteLeaf(name, leaf), rest, fuel - 1, cut);
      if fuel > 1 {
        ExecState(h, Apply(d1, WriteLeaf(name, leaf)).value, leaves + [leaf], fuel - 2, cut);
      }
    }
  }

  /** A sound directory always opens: as it is, or with the one extra leaf adopted. */
  lemma PlanOfSound(h: Hash, d: Dir, pinned: seq<Bytes>, files: seq<Bytes>)
    requires Sound(h, d, pinned, files)
    ensures PlanOf(h, d) == if files == pinned then Accept(files) else Recover(files)
  {
    hide Holds, Mth, PlanOf, Base64.Encode, Base64.Decode;
    Base64.DecodeEncode(Mth(h, pinned));
    assert DecodePinnedRoot(RootText(h, pinned)) == Some(Mth(h, pinned));
    PlanOfLoads(h, d, Mth(h, pinned), files);
    assert files[..|pinned|] == pinned;
  }

  // ----- one command -----

  /** Opening keeps the files, and with three operations of fuel it succeeds and pins them. */
  lemma OpenSound(h: Hash, w: World, pinned: seq<Bytes>, files: seq<Bytes>, fuel: nat, cut: nat)
    requires WorldSound(h, w, pinned, files)
    ensures var w' := Step(h, w, Open(fuel, cut));
            if files == pinned then w' == World(w.dir, Some(files))
            else if fuel >= 3 then WorldSound(h, w', files, files) && w'.mem == Some(files)
            else WorldSound(h, w', pinned, files) && w'.mem == None
  {
    hide Holds, Mth, PlanOf, Exec, Completes, RootText, StateOps, DirFormat;
    PlanOfSound(h, w.dir, pinned, files);
    ExecState(h, w.dir, files, fuel, cut);
  }

  /** An append pins the leaf, or crashes leaving the log as it was, or leaving one extra
      leaf file whose bytes are a prefix of the leaf. */
  lemma AppendSound(h: Hash, w: World, pinned: seq<Bytes>, leaf: Bytes, fuel: nat, cut: nat)
    requires WorldSound(h, w, pinned, pinned) && w.mem == Some(pinned) && |pinned| + 1 < U64_LIMIT
    ensures var w' := Step(h, w, Append(leaf, fuel, cut));
            if fuel == 0 then WorldSound(h, w', pinned, pinned) && w'.mem == None
            else if fuel < 5 then WorldSound(h, w', pinned, pinned + [Torn(leaf, fuel, cut)]) && w'.mem == None
            else WorldSound(h, w', pinned + [leaf], pinned + [leaf]) && w'.mem == Some(pinned + [leaf])
    ensures Torn(leaf, fuel, cut) <= leaf
  {
    hide Holds, Mth, PlanOf, Exec, Completes, RootText, AppendOps, DirFormat, Name;
    HoldsAppend(w.dir.leaves, pinned, Torn(leaf, fuel, cut));
    ExecAppend(h, w.dir, pinned, leaf, fuel, cut);
  }

  /** Every command keeps the directory sound and only ever extends what is pinned. */
  lemma StepSound(h: Hash, w: World, pinned: seq<Bytes>, files: seq<Bytes>, e: Event)
    returns (pinned': seq<Bytes>, files': seq<Bytes>)
    requires WorldSound(h, w, pinned, files) && Enabled(w, e)
    ensures WorldSound(h, Step(h, w, e), pinned', files')
    ensures pinned <= pinned' <= files' && files <= files'
  {
    hide Step, Sound;
    pinned', files' := pinned, files;
    PrefixOfFiles(h, w.dir, pinned, files);
    match e {
      case Close => CloseSound(h, w, pinned, files);
      case Open(fuel, cut) =>
        OpenSound(h, w, pinned, files, fuel, cut);
        if fuel >= 3 {
          pinned' := files;
        }
      case Append(leaf, fuel, cut) =>
        AppendSound(h, w, pinned, leaf, fuel, cut);
        if fuel > 0 {
          files' := pinned + [Torn(leaf, fuel, cut)];
        }
        if fuel >= 5 {
          pinned' := pinned + [leaf];
        }
    }
  }

  lemma PrefixOfFiles(h: Hash, d: Dir, pinned: seq<Bytes>, files: seq<Bytes>)
    requires Sound(h, d, pinned, files)
    ensures pinned <= files
  {
  }

  lemma CloseSound(h: Hash, w: World, pinned: seq<Bytes>, files: seq<Bytes>)
    requires WorldSound(h, w, pinned, files)
    ensures WorldSound(h, Step(h, w, Close), pinned, files)
  {
  }

  // ----- runs -----

  ghost predicate Run(h: Hash, ws: seq<World>, es: seq<Event>) {
    && |ws| == |es| + 1 && WorldSound(h, ws[0], [], []) && ws[0].mem == None
    && forall i :: 0 <= i < |es| ==> Enabled(ws[i], es[i]) && ws[i + 1] == Step(h, ws[i], es[i])
  }

  ghost predicate History(h: Hash, ws: seq<World>, pinned: seq<seq<Bytes>>, files: seq<seq<Bytes>>) {
    && |pinned| == |files| == |ws|
    && forall i :: 0 <= i < |ws| ==> WorldSound(h, ws[i], pinned[i], files[i]) && pinned[i] <= files[i]
  }

  ghost predicate Growing(lists: seq<seq<Bytes>>) {
    forall i, j :: 0 <= i <= j < |lists| ==> lists[i] <= lists[j]
  }

  /** Every run has a history: at each moment the state file pins a list, the files hold it
      and at most one leaf more, and pinned lists and files only ever grow. */
  lemma {:induction false} RunHistory(h: Hash, ws: seq<World>, es: seq<Event>)
    returns (pinned: seq<seq<Bytes>>, files: seq<seq<Bytes>>)
    requires Run(h, ws, es)
    ensures History(h, ws, pinned, files) && Growing(pinned) && Growing(files)
    decreases |es|
  {
    hide Step, Enabled, WorldSound;
    if es == [] {
      pinned, files := [[]], [[]];
    } else {
      var n := |es| - 1;
      var ws0, es0 := ws[..n + 1], es[..n];
      assert forall i :: 0 <= i < n ==> Enabled(ws[i], es[i]) && ws[i + 1] == Step(h, ws[i], es[i]);
      pinned, files := RunHistory(h, ws0, es0);
      assert WorldSound(h, ws[n], pinned[n], files[n]) by { assert ws0[n] == ws[n]; }
      var p, f := StepSound(h, ws[n], pinned[n], files[n], es[n]);
      GrowingSnoc(pinned, p);
      GrowingSnoc(files, f);
      HistorySnoc(h, ws0, ws[n + 1], pinned, files, p, f);
      assert ws == ws0 + [ws[n + 1]];
      pinned, files := pinned + [p], files + [f];
    }
  }

  lemma GrowingSnoc(lists: seq<seq<Bytes>>, last: seq<Bytes>)
    requires Growing(lists) && lists != [] && lists[|lists| - 1] <= last
    ensures Growing(lists + [last])
  {
  }

  lemma HistorySnoc(h: Hash, ws: seq<World>, w: World, pinned: seq<seq<Bytes>>, files: seq<seq<Bytes>>,
                    p: seq<Bytes>, f: seq<Bytes>)
    requires History(h, ws, pinned, files) && WorldSound(h, w, p, f) && p <= f
    ensures History(h, ws + [w], pinned + [p], files + [f])
  {
  }

  /** Every size and root ever pinned is the size and root of a prefix of every later leaf
      list, on disk or in an open store. */
  lemma PinnedForever(h: Hash, ws: seq<World>, es: seq<Event>, i: nat, j: nat)
    returns (pinned: seq<Bytes>, files: seq<Bytes>)
    requires Run(h, ws, es) && i <= j < |ws|
    ensures ws[i].dir.state == State(|pinned|, Base64.Encode(Mth(h, pinned)))
    ensures Holds(ws[j].dir.leaves, files) && pinned <= files
    ensures ws[j].mem.Some? ==> ws[j].mem.value == files
  {
    hide Run, Step, Enabled, Holds, Mth, Base64.Encode;
    var ps, fs := RunHistory(h, ws, es);
    pinned, files := ps[i], fs[j];
    assert WorldSound(h, ws[i], ps[i], fs[i]) && WorldSound(h, ws[j], ps[j], fs[j]);
    assert ps[i] <= fs[i] && fs[i] <= fs[j];
  }
}
