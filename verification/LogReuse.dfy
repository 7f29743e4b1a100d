/** A store kept in use after failed appends: any number of attempts by one store, each
    stopped anywhere, and exactly when the directory still opens. */
module LogReuse {
  import opened Octets
  import opened Merkle
  import opened LeafFiles
  import opened LogDisk
  import opened LogRuns
  import Base64

  /** One call to append, stopped after `fuel` file operations. */
  datatype Attempt = Attempt(leaf: Bytes, fuel: nat, cut: nat)

  /** The directory and the leaves the store has in memory. */
  datatype Used = Used(dir: Dir, mem: seq<Bytes>)

  /** The leaves a store has in memory after an append that stopped after `fuel` operations:
      it extends them between the leaf write and the pinning. */
  ghost function Memory(h: Hash, d: Dir, leaves: seq<Bytes>, leaf: Bytes, fuel: nat): seq<Bytes> {
    if Completes(d, AppendOps(h, leaves, leaf)[..2], fuel) then leaves + [leaf] else leaves
  }

  lemma MemoryAhead(h: Hash, d: Dir, leaves: seq<Bytes>, leaf: Bytes, fuel: nat)
    requires Name(|leaves|) !in d.leaves
    ensures Memory(h, d, leaves, leaf, fuel) == if fuel >= 2 then leaves + [leaf] else leaves
  {
    hide Exec, Completes, StateOps, Name;
    var create, write := CreateLeaf(Name(|leaves|)), WriteLeaf(Name(|leaves|), leaf);
    assert AppendOps(h, leaves, leaf)[..2] == [create] + [write] && [write] == [write] + [];
    ExecStep(d, create, [write], fuel, 0);
    if fuel > 0 {
      var d1 := Apply(d, create).value;
      ExecStep(d1, write, [], fuel - 1, 0);
      if fuel > 1 {
        ExecNothing(Apply(d1, write).value, fuel - 2, 0);
      }
    }
  }

  /** O_EXCL: an append at an index whose file exists changes nothing. */
  lemma ExecAppendTaken(h: Hash, d: Dir, leaves: seq<Bytes>, leaf: Bytes, fuel: nat, cut: nat)
    requires Name(|leaves|) in d.leaves
    ensures Exec(d, AppendOps(h, leaves, leaf), fuel, cut) == d
  {
    hide Exec, Completes, StateOps, Name;
    var create, rest := CreateLeaf(Name(|leaves|)), [WriteLeaf(Name(|leaves|), leaf)] + StateOps(h, leaves + [leaf]);
    assert AppendOps(h, leaves, leaf) == [create] + rest;
    ExecStep(d, create, rest, fuel, cut);
  }

  // ----- the store's attempts -----

  ghost function Attempted(h: Hash, s: Used, a: Attempt): Used {
    Used(Exec(s.dir, AppendOps(h, s.mem, a.leaf), a.fuel, a.cut), Memory(h, s.dir, s.mem, a.leaf, a.fuel))
  }

  ghost function AttemptedAll(h: Hash, s: Used, attempts: seq<Attempt>): Used {
    if attempts == [] then s
    else Attempted(h, AttemptedAll(h, s, attempts[..|attempts| - 1]), attempts[|attempts| - 1])
  }

  // ----- what they do to three lists -----

  /** The leaves pinned by the state file, in memory, and in the leaf files. */
  datatype Lists = Lists(pinned: seq<Bytes>, mem: seq<Bytes>, files: seq<Bytes>)

  /** A leaf file past memory blocks every further append. Otherwise the attempt leaves a
      torn file, or extends files and memory, or pins them as well. */
  function Try(l: Lists, a: Attempt): Lists {
    if |l.files| > |l.mem| || a.fuel == 0 then l
    else if a.fuel == 1 then l.(files := l.mem + [Torn(a.leaf, 1, a.cut)])
    else Lists(if a.fuel >= 5 then l.mem + [a.leaf] else l.pinned, l.mem + [a.leaf], l.mem + [a.leaf])
  }

  function Tries(l: Lists, attempts: seq<Attempt>): Lists {
    if attempts == [] then l else Try(Tries(l, attempts[..|attempts| - 1]), attempts[|attempts| - 1])
  }

  ghost predicate Tracks(h: Hash, s: Used, l: Lists) {
    && s.dir.config.Config? && s.dir.config.format == DirFormat()
    && s.dir.state == State(|l.pinned|, RootText(h, l.pinned))
    && Holds(s.dir.leaves, l.files) && s.mem == l.mem
    && l.pinned <= l.mem <= l.files && |l.files| <= |l.mem| + 1
  }

  lemma TryTracks(h: Hash, s: Used, l: Lists, a: Attempt)
    requires Tracks(h, s, l) && |l.files| + 1 < U64_LIMIT
    ensures Tracks(h, Attempted(h, s, a), Try(l, a)) && |Try(l, a).files| <= |l.files| + 1
  {
    hide Holds, Exec, AppendOps, DirFormat, Name, RootText, Memory, Completes;
    if |l.files| > |l.mem| {
      TakenName(s.dir.leaves, l.mem, l.files);
      ExecAppendTaken(h, s.dir, l.mem, a.leaf, a.fuel, a.cut);
      MemoryTaken(h, s.dir, l.mem, a.leaf, a.fuel);
    } else {
      assert l.files == l.mem;
      HoldsAppend(s.dir.leaves, l.mem, Torn(a.leaf, a.fuel, a.cut));
      ExecAppend(h, s.dir, l.mem, a.leaf, a.fuel, a.cut);
      MemoryAhead(h, s.dir, l.mem, a.leaf, a.fuel);
    }
  }

  lemma TakenName(dir: LeafDir, mem: seq<Bytes>, files: seq<Bytes>)
    requires Holds(dir, files) && |files| > |mem|
    ensures Name(|mem|) in dir
  {
    hide Name;
  }

  lemma MemoryTaken(h: Hash, d: Dir, leaves: seq<Bytes>, leaf: Bytes, fuel: nat)
    requires Name(|leaves|) in d.leaves
    ensures Memory(h, d, leaves, leaf, fuel) == leaves
  {
    hide Name, StateOps;
  }

  lemma {:induction false} TriesTrack(h: Hash, s: Used, l: Lists, attempts: seq<Attempt>)
    requires Tracks(h, s, l) && |l.files| + |attempts| < U64_LIMIT
    ensures Tracks(h, AttemptedAll(h, s, attempts), Tries(l, attempts))
    ensures |Tries(l, attempts).files| <= |l.files| + |attempts| && l.pinned <= Tries(l, attempts).pinned
  {
    hide Tracks, Attempted;
    if attempts != [] {
      var n := |attempts| - 1;
      TriesTrack(h, s, l, attempts[..n]);
      TryTracks(h, AttemptedAll(h, s, attempts[..n]), Tries(l, attempts[..n]), attempts[n]);
      PinnedGrows(h, AttemptedAll(h, s, attempts[..n]), Tries(l, attempts[..n]), attempts[n]);
    }
  }

  lemma PinnedGrows(h: Hash, s: Used, l: Lists, a: Attempt)
    requires Tracks(h, s, l)
    ensures l.pinned <= Try(l, a).pinned
  {
    hide Holds, DirFormat, RootText;
  }

  // ----- when the directory opens -----

  /** A tracked directory opens exactly when at most one leaf file is not pinned. */
  lemma TrackedPlan(h: Hash, s: Used, l: Lists)
    requires Tracks(h, s, l) && |l.files| < U64_LIMIT
    ensures PlanOf(h, s.dir) == if |l.files| == |l.pinned| then Accept(l.files)
                                else if |l.files| == |l.pinned| + 1 then Recover(l.files)
                                else Reject
  {
    hide Holds, Mth, PlanOf, DirFormat, Base64.Encode, Base64.Decode;
    Base64.DecodeEncode(Mth(h, l.pinned));
    assert DecodePinnedRoot(RootText(h, l.pinned)) == Some(Mth(h, l.pinned));
    PlanOfLoads(h, s.dir, Mth(h, l.pinned), l.files);
    assert l.files[..|l.pinned|] == l.pinned && (|l.files| == |l.pinned| ==> l.files == l.pinned);
  }

  /** After any attempts by one store on a log whose files are all pinned: the directory is
      refused exactly when two or more leaf files are not pinned. Otherwise it opens with the
      leaf files, which extend all that was ever pinned. */
  lemma ReuseExact(h: Hash, d: Dir, pinned: seq<Bytes>, attempts: seq<Attempt>)
    requires Sound(h, d, pinned, pinned) && |pinned| + |attempts| < U64_LIMIT
    ensures var l := Tries(Lists(pinned, pinned, pinned), attempts);
            var s := AttemptedAll(h, Used(d, pinned), attempts);
            && s.mem == l.mem && pinned <= l.pinned <= l.mem <= l.files
            && (PlanOf(h, s.dir) == Reject <==> |l.files| >= |l.pinned| + 2)
            && (PlanOf(h, s.dir) != Reject ==> PlanOf(h, s.dir).leaves == l.files)
  {
    hide Holds, PlanOf, DirFormat, RootText;
    TriesTrack(h, Used(d, pinned), Lists(pinned, pinned, pinned), attempts);
    TrackedPlan(h, AttemptedAll(h, Used(d, pinned), attempts), Tries(Lists(pinned, pinned, pinned), attempts));
  }

  /** What the operator can check before the next append: it is safe, wherever it may stop,
      exactly when the store's memory is not ahead of the pinned list. */
  lemma NextAppendSafe(h: Hash, d: Dir, pinned: seq<Bytes>, attempts: seq<Attempt>)
    requires Sound(h, d, pinned, pinned) && |pinned| + |attempts| + 1 < U64_LIMIT
    ensures var l := Tries(Lists(pinned, pinned, pinned), attempts);
            var s := AttemptedAll(h, Used(d, pinned), attempts);
            && s.dir.state == State(|l.pinned|, RootText(h, l.pinned)) && l.pinned <= s.mem
            && ((forall a :: PlanOf(h, Attempted(h, s, a).dir) != Reject) <==> |s.mem| == s.dir.state.size)
  {
    hide Holds, PlanOf, DirFormat, RootText, Attempted, AttemptedAll;
    var l := Tries(Lists(pinned, pinned, pinned), attempts);
    var s := AttemptedAll(h, Used(d, pinned), attempts);
    TriesTrack(h, Used(d, pinned), Lists(pinned, pinned, pinned), attempts);
    forall a
      ensures PlanOf(h, Attempted(h, s, a).dir) == Reject <==> |Try(l, a).files| >= |Try(l, a).pinned| + 2
    {
      TryTracks(h, s, l, a);
      TrackedPlan(h, Attempted(h, s, a), Try(l, a));
    }
    var torn := Attempt([], 1, 0);
    assert |l.mem| > |l.pinned| ==> PlanOf(h, Attempted(h, s, torn).dir) == Reject;
  }

  /** Two attempts: the directory is refused exactly if the first stopped between extending
      memory and pinning and the second between creating its leaf file and pinning. */
  lemma StaleStoreExact(h: Hash, d: Dir, pinned: seq<Bytes>, leaf: Bytes, next: Bytes,
                        first: nat, cut1: nat, second: nat, cut2: nat)
    requires Sound(h, d, pinned, pinned) && |pinned| + 2 < U64_LIMIT
    ensures var d1 := Exec(d, AppendOps(h, pinned, leaf), first, cut1);
            var d2 := Exec(d1, AppendOps(h, Memory(h, d, pinned, leaf, first), next), second, cut2);
            && (PlanOf(h, d2) == Reject <==> 2 <= first < 5 && 1 <= second < 5)
            && (PlanOf(h, d2) != Reject ==> pinned <= PlanOf(h, d2).leaves)
  {
    hide Sound, Exec, AppendOps, PlanOf, Memory;
    var a, b := Attempt(leaf, first, cut1), Attempt(next, second, cut2);
    ReuseExact(h, d, pinned, [a, b]);
    assert [a, b][..1] == [a] && [a][..0] == [];
    var s, l := Used(d, pinned), Lists(pinned, pinned, pinned);
    assert AttemptedAll(h, s, [a]) == Attempted(h, s, a) && Tries(l, [a]) == Try(l, a);
    assert AttemptedAll(h, s, [a, b]) == Attempted(h, Attempted(h, s, a), b);
    assert Tries(l, [a, b]) == Try(Try(l, a), b);
  }
}
