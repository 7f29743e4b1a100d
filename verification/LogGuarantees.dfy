/** What the log directory promises its operator and its auditors. */
module LogGuarantees {
  import opened Octets
  import opened Merkle
  import opened MerkleSoundness
  import opened MerkleInputs
  import opened MerkleSize
  import opened LeafFiles
  import opened LogDisk
  import opened LogRuns
  import opened Signing
  import Artifacts
  import Base64

  // ----- crash recovery -----

  /** Opens that may themselves be interrupted, one after another. */
  ghost function Opens(h: Hash, w: World, crashes: seq<(nat, nat)>): World
    decreases |crashes|
  {
    if crashes == [] then w else Opens(h, Step(h, w, Open(crashes[0].0, crashes[0].1)), crashes[1..])
  }

  lemma {:induction false} OpensSound(h: Hash, w: World, pinned: seq<Bytes>, files: seq<Bytes>,
                                      crashes: seq<(nat, nat)>)
    returns (p: seq<Bytes>)
    requires WorldSound(h, w, pinned, files)
    ensures WorldSound(h, Opens(h, w, crashes), p, files) && pinned <= p <= files
    decreases |crashes|
  {
    hide Step, Sound;
    p := pinned;
    PrefixOfFiles(h, w.dir, pinned, files);
    if crashes != [] {
      var q := OpenOnce(h, w, pinned, files, crashes[0].0, crashes[0].1);
      p := OpensSound(h, Step(h, w, Open(crashes[0].0, crashes[0].1)), q, files, crashes[1..]);
    }
  }

  lemma OpenOnce(h: Hash, w: World, pinned: seq<Bytes>, files: seq<Bytes>, fuel: nat, cut: nat) returns (p: seq<Bytes>)
    requires WorldSound(h, w, pinned, files)
    ensures WorldSound(h, Step(h, w, Open(fuel, cut)), p, files) && pinned <= p <= files
  {
    hide Step, Sound;
    PrefixOfFiles(h, w.dir, pinned, files);
    OpenSound(h, w, pinned, files, fuel, cut);
    p := if fuel >= 3 then files else pinned;
  }

  /** After a crash anywhere in an append, and any number of opens that crash in turn, the
      next undisturbed open succeeds. It returns the pinned leaves and at most one more,
      a prefix of the interrupted leaf; one more open changes nothing. */
  lemma CrashRecovery(h: Hash, w: World, pinned: seq<Bytes>, leaf: Bytes, fuel: nat, cut: nat,
                      crashes: seq<(nat, nat)>, again: (nat, nat), last: (nat, nat))
    requires WorldSound(h, w, pinned, pinned) && w.mem == Some(pinned) && |pinned| + 1 < U64_LIMIT
    requires fuel < 5 && again.0 >= 3
    ensures var w1 := Opens(h, Step(h, w, Append(leaf, fuel, cut)), crashes);
            var w2 := Step(h, w1, Open(again.0, again.1));
            && w2.mem == Some(if fuel == 0 then pinned else pinned + [Torn(leaf, fuel, cut)])
            && Torn(leaf, fuel, cut) <= leaf
            && Step(h, w2, Open(last.0, last.1)) == w2
  {
    hide Step, Sound, Opens;
    AppendSound(h, w, pinned, leaf, fuel, cut);
    var files := if fuel == 0 then pinned else pinned + [Torn(leaf, fuel, cut)];
    var w0 := Step(h, w, Append(leaf, fuel, cut));
    var p := OpensSound(h, w0, pinned, files, crashes);
    var w1 := Opens(h, w0, crashes);
    OpenSound(h, w1, p, files, again.0, again.1);
    var w2 := Step(h, w1, Open(again.0, again.1));
    assert WorldSound(h, w2, files, files);
    OpenSound(h, w2, files, files, last.0, last.1);
  }

  // ----- tampering -----

  /** For arbitrary directory contents: if the state file pins the size and root of a list
      and the directory opens, the leaves are that list, or it and one more, or an input
      hashed for the leaves read, up to the pinned size, collides with one of the list. */
  lemma OpenIsTamperEvident(h: Hash, d: Dir, pinned: seq<Bytes>) returns (pair: (Bytes, Bytes))
    requires d.state == State(|pinned|, Base64.Encode(Mth(h, pinned))) && PlanOf(h, d) != Reject
    ensures var leaves := PlanOf(h, d).leaves;
            && |pinned| <= |leaves| <= |pinned| + 1
            && (|| pinned <= leaves
                || CollidesAmong(h, pair, TreeInputs(h, leaves[..|pinned|]), TreeInputs(h, pinned)))
  {
    hide Holds, Mth, Base64.Encode, Base64.Decode, DirFormat, TreeInputs;
    pair := ([], []);
    var root: Digest, leaves :| Loads(d, root, leaves);
    PlanOfLoads(h, d, root, leaves);
    Base64.DecodeEncode(root);
    Base64.DecodeEncode(Mth(h, pinned));
    assert |leaves| == |pinned| ==> leaves[..|pinned|] == leaves;
    if leaves[..|pinned|] != pinned {
      pair := RootCollision(h, leaves[..|pinned|], pinned);
    }
  }

  // ----- initialization -----

  lemma ExecInit(h: Hash, d: Dir, origin: Bytes, fuel: nat, cut: nat)
    ensures var d' := Exec(d, InitOps(h, origin), fuel, cut);
            && d'.leaves == d.leaves
            && d'.config == (if fuel == 0 then d.config
                             else if fuel == 1 then BadConfig
                             else Config(DirFormat(), origin))
            && d'.state == (if fuel >= 5 then State(0, RootText(h, [])) else d.state)
  {
    hide Exec, Completes, RootText, DirFormat;
    var rest := StateOps(h, []);
    ExecStep(d, CreateConfig, [WriteConfig(origin)] + rest, fuel, cut);
    assert InitOps(h, origin) == [CreateConfig] + ([WriteConfig(origin)] + rest);
    if fuel > 0 {
      var d1 := Apply(d, CreateConfig).value;
      ExecStep(d1, WriteConfig(origin), rest, fuel - 1, cut);
      if fuel > 1 {
        ExecState(h, Apply(d1, WriteConfig(origin)).value, [], fuel - 2, cut);
      }
    }
  }

  /** A finished init gives an empty sound log. One that crashes after its first operation
      leaves a directory that never opens and that init refuses from then on. */
  lemma InitAllOrUnusable(h: Hash, d: Dir, origin: Bytes, fuel: nat, cut: nat)
    requires d.config == NoConfig && d.state == NoState && Holds(d.leaves, [])
    ensures var d' := Exec(d, InitOps(h, origin), fuel, cut);
            && (fuel >= 5 ==> Sound(h, d', [], []))
            && (0 < fuel < 5 ==> PlanOf(h, d') == Reject && d'.config != NoConfig)
            && (fuel == 0 ==> d'.config == NoConfig)
  {
    hide Holds, Exec, InitOps, DirFormat, RootText;
    ExecInit(h, d, origin, fuel, cut);
  }

  // ----- auditors -----

  /** From any size at least 1 ever pinned in a run to any larger later log, the consistency
      artifact builds and passes its own verification. */
  lemma AnyPinnedSizeIsProvable(h: Hash, c: Scheme, ws: seq<World>, es: seq<Event>, i: nat, j: nat,
                                origin: Bytes, seed: Digest)
    requires Run(h, ws, es) && i <= j < |ws| && ws[j].mem.Some?
    ensures ws[i].dir.state.State? &&
            var size, leaves := ws[i].dir.state.size, ws[j].mem.value;
            && size <= |leaves| && ws[i].dir.state.rootText == Base64.Encode(Mth(h, leaves[..size]))
            && (1 <= size < |leaves| < MAX_JSON_TREE_SIZE && SignaturesVerify(c)
                && Artifacts.Signable(origin, size) && Artifacts.Signable(origin, |leaves|) ==>
                Artifacts.BuildConsistency(h, c, leaves[..size], leaves, origin, seed).Some?)
  {
    hide Run, Step, Artifacts.Signable, Mth, Base64.Encode, Holds, Artifacts.BuildConsistency;
    var pinned, files := PinnedForever(h, ws, es, i, j);
    assert files[..|pinned|] == pinned;
    if SignaturesVerify(c) {
      var _ := Artifacts.BuildConsistencyExact(h, c, pinned, files, origin, seed);
    }
  }
}
