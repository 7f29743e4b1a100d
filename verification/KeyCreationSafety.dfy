/** Safety of the key-creation race over every interleaving. */
module KeyCreationSafety {
  import opened Octets
  import opened KeyCreation

  /** Replacing one thread keeps the thread clauses when the new one is sound. */
  lemma ReplaceThread(w: World, tid: nat, phase: Phase, fs: Fs)
    requires Inv(w) && tid in w.threads
    requires forall t :: t in w.threads && t != tid ==> ThreadOk(fs, w.counters, w.threads[t])
    requires ThreadOk(fs, w.counters, w.threads[tid].(phase := phase))
    requires HasName(phase) ==> HasName(w.threads[tid].phase) && phase.n == w.threads[tid].phase.n
    ensures var w' := At(w, tid, phase);
            ThreadsOk(w'.(fs := fs))
  {
  }

  /** Steps that change one thread and nothing on disk. */
  lemma CheckStep(w: World, e: Event)
    requires Inv(w) && Enabled(w, e) && (e.Check? || e.DirFails?)
    ensures Inv(Step(w, e))
  {
    assert ThreadOk(w.fs, w.counters, w.threads[e.tid]);
    ReplaceThread(w, e.tid, Step(w, e).threads[e.tid].phase, w.fs);
  }

  lemma FailStep(w: World, e: Event)
    requires Inv(w) && Enabled(w, e) && e.StepFails?
    ensures Inv(Step(w, e))
  {
  }

  lemma ReadStep(w: World, e: Event)
    requires Inv(w) && Enabled(w, e) && e.Read?
    ensures Inv(Step(w, e))
  {
    assert ThreadOk(w.fs, w.counters, w.threads[e.tid]);
    ReplaceThread(w, e.tid, Step(w, e).threads[e.tid].phase, w.fs);
  }

  /** Processes and calls come and go; a process with a reused id starts without calls. */
  lemma ProcessStep(w: World, e: Event)
    requires Inv(w) && Enabled(w, e) && (e.Spawn? || e.Call?)
    ensures Inv(Step(w, e))
  {
  }

  lemma CrashStep(w: World, e: Event)
    requires Inv(w) && Enabled(w, e) && e.Crash?
    ensures Inv(Step(w, e))
  {
  }

  /** A thread that saw no key takes the next name. */
  lemma ClaimStep(w: World, e: Event)
    requires Inv(w) && Enabled(w, e) && e.Claim?
    ensures Inv(Step(w, e))
  {
  }

  /** What the disk must keep for a thread that did not move. */
  ghost predicate Kept(fs: Fs, fs': Fs, counters: map<nat, nat>, t: Thread)
    requires t.pid in counters
  {
    && (Key in fs.names ==> Key in fs'.names && fs'.names[Key] == fs.names[Key])
    && (forall s :: Published(fs, s) ==> Published(fs', s))
    && (HasName(t.phase) && !Shared(fs, Tmp(t.pid, t.phase.n)) ==> !Shared(fs', Tmp(t.pid, t.phase.n)))
    && ((t.phase.Writing? || t.phase.Written?) ==>
        var p := Tmp(t.pid, t.phase.n);
        p in fs'.names && p in fs.names && fs'.names[p] == fs.names[p] &&
        (fs.names[p] in fs.data ==> fs.names[p] in fs'.data && fs'.data[fs.names[p]] == fs.data[fs.names[p]]))
  }

  lemma KeptOk(fs: Fs, fs': Fs, counters: map<nat, nat>, t: Thread)
    requires ThreadOk(fs, counters, t)
    requires Kept(fs, fs', counters, t)
    ensures ThreadOk(fs', counters, t)
  {
  }

  /** A disk step by `tid` keeps the invariant when it keeps what every other thread needs. */
  lemma DiskStep(w: World, tid: nat, phase: Phase, fs: Fs)
    requires Inv(w) && tid in w.threads
    requires forall t :: t in w.threads && t != tid ==> Kept(w.fs, fs, w.counters, w.threads[t])
    requires ThreadOk(fs, w.counters, w.threads[tid].(phase := phase))
    requires HasName(phase) ==> HasName(w.threads[tid].phase) && phase.n == w.threads[tid].phase.n
    ensures var w' := At(w, tid, phase);
            ThreadsOk(w'.(fs := fs))
  {
    hide Kept, ThreadOk, FsOk, Accounted;
    forall t | t in w.threads && t != tid
      ensures ThreadOk(fs, w.counters, w.threads[t])
    {
      KeptOk(w.fs, fs, w.counters, w.threads[t]);
    }
    ReplaceThread(w, tid, phase, fs);
  }

  /** The name of another thread, and the names its process has yet to hand out, are not
      this one. */
  ghost predicate Foreign(counters: map<nat, nat>, t: Thread, p: Path)
    requires t.pid in counters
  {
    p.Tmp? && (p.pid == t.pid ==> p.n < counters[t.pid] && (HasName(t.phase) ==> p.n != t.phase.n))
  }

  lemma KeptByOpen(fs: Fs, p: Path, ino: nat, counters: map<nat, nat>, t: Thread)
    requires FsOk(fs) && ThreadOk(fs, counters, t) && Foreign(counters, t, p) && !Shared(fs, p)
    requires if p in fs.names then ino == fs.names[p] else ino !in fs.data
    ensures Kept(fs, Fs(fs.names[p := ino], fs.data[ino := []]), counters, t)
  {
  }

  lemma FsOkByOpen(fs: Fs, p: Path, ino: nat)
    requires FsOk(fs) && p.Tmp? && !Shared(fs, p)
    requires if p in fs.names then ino == fs.names[p] else ino !in fs.data
    ensures FsOk(Fs(fs.names[p := ino], fs.data[ino := []]))
    ensures forall s :: Published(fs, s) ==> Published(Fs(fs.names[p := ino], fs.data[ino := []]), s)
  {
  }

  lemma KeptByWrite(fs: Fs, p: Path, bytes: Bytes, counters: map<nat, nat>, t: Thread)
    requires FsOk(fs) && ThreadOk(fs, counters, t) && Foreign(counters, t, p) && p in fs.names && !Shared(fs, p)
    ensures Kept(fs, fs.(data := fs.data[fs.names[p] := bytes]), counters, t)
  {
  }

  lemma KeptByLink(fs: Fs, p: Path, counters: map<nat, nat>, t: Thread)
    requires FsOk(fs) && ThreadOk(fs, counters, t) && Foreign(counters, t, p) && p in fs.names && Key !in fs.names
    ensures Kept(fs, fs.(names := fs.names[Key := fs.names[p]]), counters, t)
  {
  }

  lemma KeptByRemove(fs: Fs, p: Path, counters: map<nat, nat>, t: Thread)
    requires ThreadOk(fs, counters, t) && Foreign(counters, t, p)
    ensures Kept(fs, fs.(names := fs.names - {p}), counters, t)
    ensures Kept(fs, fs, counters, t)
  {
  }

  /** What the acting thread itself knows. */
  lemma MyThread(w: World, tid: nat)
    requires ThreadsOk(w) && tid in w.threads
    ensures ThreadOk(w.fs, w.counters, w.threads[tid])
  {
  }

  lemma OpenThreads(w: World, e: Event)
    requires Inv(w) && Enabled(w, e) && e.Open? && Harmless(w, e)
    ensures ThreadsOk(Step(w, e))
  {
    hide Kept, Accounted;
    var me := w.threads[e.tid];
    var w' := Step(w, e);
    assert ThreadOk(w.fs, w.counters, me);
    forall t | t in w.threads && t != e.tid
      ensures Kept(w.fs, w'.fs, w.counters, w.threads[t])
    {
      assert ThreadOk(w.fs, w.counters, w.threads[t]) && Apart(w.threads[t], me);
      KeptByOpen(w.fs, Tmp(me.pid, me.phase.n), e.ino, w.counters, w.threads[t]);
    }
    DiskStep(w, e.tid, w'.threads[e.tid].phase, w'.fs);
  }

  /** Opening truncates: the inode is fresh or that of an unshared leftover. */
  lemma OpenStep(w: World, e: Event)
    requires Inv(w) && Enabled(w, e) && e.Open? && Harmless(w, e)
    ensures Inv(Step(w, e))
  {
    hide ThreadsOk, FsOk;
    MyThread(w, e.tid);
    OpenThreads(w, e);
    FsOkByOpen(w.fs, Tmp(w.threads[e.tid].pid, w.threads[e.tid].phase.n), e.ino);
  }

  lemma WriteThreads(w: World, e: Event)
    requires Inv(w) && Enabled(w, e) && e.Write?
    ensures ThreadsOk(Step(w, e))
  {
    hide Kept, Accounted;
    var me := w.threads[e.tid];
    var w' := Step(w, e);
    assert ThreadOk(w.fs, w.counters, me);
    forall t | t in w.threads && t != e.tid
      ensures Kept(w.fs, w'.fs, w.counters, w.threads[t])
    {
      assert ThreadOk(w.fs, w.counters, w.threads[t]) && Apart(w.threads[t], me);
      KeptByWrite(w.fs, Tmp(me.pid, me.phase.n), me.phase.seed[..e.upTo], w.counters, w.threads[t]);
    }
    DiskStep(w, e.tid, w'.threads[e.tid].phase, w'.fs);
  }

  /** Writing touches only the writer's own, unpublished inode. */
  lemma WriteStep(w: World, e: Event)
    requires Inv(w) && Enabled(w, e) && e.Write?
    ensures Inv(Step(w, e))
  {
    hide ThreadsOk;
    MyThread(w, e.tid);
    WriteThreads(w, e);
    assert FsOk(Step(w, e).fs);
  }

  lemma LinkThreads(w: World, e: Event)
    requires Inv(w) && Enabled(w, e) && e.Link?
    ensures ThreadsOk(Step(w, e))
  {
    hide Kept, Accounted;
    var me := w.threads[e.tid];
    var w' := Step(w, e);
    assert ThreadOk(w.fs, w.counters, me);
    forall t | t in w.threads && t != e.tid
      ensures Kept(w.fs, w'.fs, w.counters, w.threads[t])
    {
      assert ThreadOk(w.fs, w.counters, w.threads[t]) && Apart(w.threads[t], me);
      if Key in w.fs.names {
        KeptByRemove(w.fs, Tmp(me.pid, me.phase.n), w.counters, w.threads[t]);
      } else {
        KeptByLink(w.fs, Tmp(me.pid, me.phase.n), w.counters, w.threads[t]);
      }
    }
    DiskStep(w, e.tid, w'.threads[e.tid].phase, w'.fs);
  }

  /** The first link publishes a complete seed; every later link finds the key. */
  lemma LinkStep(w: World, e: Event)
    requires Inv(w) && Enabled(w, e) && e.Link?
    ensures Inv(Step(w, e))
  {
    hide ThreadsOk;
    MyThread(w, e.tid);
    LinkThreads(w, e);
    assert FsOk(Step(w, e).fs);
  }

  lemma RemoveThreads(w: World, e: Event)
    requires Inv(w) && Enabled(w, e) && e.Remove?
    ensures ThreadsOk(Step(w, e))
  {
    hide Kept, Accounted;
    var me := w.threads[e.tid];
    var w' := Step(w, e);
    assert ThreadOk(w.fs, w.counters, me);
    forall t | t in w.threads && t != e.tid
      ensures Kept(w.fs, w'.fs, w.counters, w.threads[t])
    {
      assert ThreadOk(w.fs, w.counters, w.threads[t]) && Apart(w.threads[t], me);
      KeptByRemove(w.fs, Tmp(me.pid, me.phase.n), w.counters, w.threads[t]);
    }
    DiskStep(w, e.tid, w'.threads[e.tid].phase, w'.fs);
  }

  /** Removing a temp name never removes the key, nor the name of another call. */
  lemma RemoveStep(w: World, e: Event)
    requires Inv(w) && Enabled(w, e) && e.Remove?
    ensures Inv(Step(w, e))
  {
    hide ThreadsOk;
    MyThread(w, e.tid);
    RemoveThreads(w, e);
    assert FsOk(Step(w, e).fs);
  }

  /** Every step of every thread and process keeps the invariant, unless it opens a second
      name of the key. */
  lemma StepKeepsInv(w: World, e: Event)
    requires Inv(w) && Enabled(w, e) && Harmless(w, e)
    ensures Inv(Step(w, e))
  {
    hide Inv, Step, Harmless;
    match e {
      case Spawn(_) => ProcessStep(w, e);
      case Call(_, _) => ProcessStep(w, e);
      case Crash(_) => CrashStep(w, e);
      case Check(_, _, _) => CheckStep(w, e);
      case DirFails(_) => CheckStep(w, e);
      case Claim(_) => ClaimStep(w, e);
      case Open(_, _) => OpenStep(w, e);
      case Write(_, _) => WriteStep(w, e);
      case StepFails(_) => FailStep(w, e);
      case Link(_) => LinkStep(w, e);
      case Remove(_, _) => RemoveStep(w, e);
      case Read(_, _) => ReadStep(w, e);
    }
  }
}
