/** Concurrent first use of one key path: any number of threads in any number of
    processes race to publish a seed by a no-clobber hard link. Every file operation may
    fail, the existence check may miss a key that is there (it reports any error as
    "absent"), and processes may crash anywhere. Process ids of live processes differ, but
    an id may be reused after a crash, together with the temp names it left behind. */
module KeyCreation {
  import opened Octets

  /** The key path and the temp names "<key>.<pid>.<n>.tmp". */
  datatype Path = Key | Tmp(pid: nat, n: nat)

  /** Two names may lead to one inode: that is what publishing by link means. */
  datatype Fs = Fs(names: map<Path, nat>, data: map<nat, Bytes>)

  datatype Outcome = Won(seed: Digest) | Lost | Failed

  /** Where a call to `load_or_generate` stands. */
  datatype Phase =
    | Start
    | Generate(seed: Digest)                   // the check reported no key
    | Named(seed: Digest, n: nat)              // took counter value n
    | Writing(seed: Digest, n: nat, ino: nat)  // temp file open, a prefix written
    | Written(seed: Digest, n: nat, ino: nat)  // seed complete, about to link
    | Cleaning(n: nat, outcome: Outcome)       // about to remove the temp name
    | Loading
    | Done(result: Option<Digest>)

  datatype Thread = Thread(pid: nat, phase: Phase)

  /** `counters` holds the per-process counter of every live process. `returned` collects
      the seeds of all successful calls, `leaked` the temp names whose owner crashed or
      failed to remove them, `owner` the thread working under a temp name. */
  datatype World = World(fs: Fs, counters: map<nat, nat>, threads: map<nat, Thread>,
                         returned: set<Digest>, leaked: set<Path>, owner: map<Path, nat>)

  datatype Event =
    | Spawn(pid: nat)
    | Crash(pid: nat)
    | Call(tid: nat, pid: nat)
    | Check(tid: nat, seed: Digest, missed: bool)
    | DirFails(tid: nat)
    | Claim(tid: nat)
    | Open(tid: nat, ino: nat)
    | Write(tid: nat, upTo: nat)
    | StepFails(tid: nat)
    | Link(tid: nat)
    | Remove(tid: nat, ok: bool)
    | Read(tid: nat, ok: bool)

  predicate Enabled(w: World, e: Event) {
    match e
    case Spawn(pid) => pid !in w.counters
    case Crash(pid) => pid in w.counters
    case Call(tid, pid) => tid !in w.threads && pid in w.counters
    case Check(tid, _, _) => tid in w.threads && w.threads[tid].phase.Start?
    case DirFails(tid) => tid in w.threads && w.threads[tid].phase.Generate?
    case Claim(tid) => tid in w.threads && w.threads[tid].phase.Generate? && w.threads[tid].pid in w.counters
    case Open(tid, ino) =>
      tid in w.threads && w.threads[tid].phase.Named? &&
      var p := Tmp(w.threads[tid].pid, w.threads[tid].phase.n);
      if p in w.fs.names then ino == w.fs.names[p] else ino !in w.fs.data
    case Write(tid, upTo) =>
      tid in w.threads && w.threads[tid].phase.Writing? && w.threads[tid].phase.ino in w.fs.data &&
      |w.fs.data[w.threads[tid].phase.ino]| < upTo <= 32
    case StepFails(tid) =>
      tid in w.threads &&
      (w.threads[tid].phase.Named? || w.threads[tid].phase.Writing? || w.threads[tid].phase.Written?)
    case Link(tid) => tid in w.threads && w.threads[tid].phase.Written?
    case Remove(tid, _) => tid in w.threads && w.threads[tid].phase.Cleaning?
    case Read(tid, ok) =>
      tid in w.threads && w.threads[tid].phase.Loading? &&
      (ok ==> Key in w.fs.names && w.fs.names[Key] in w.fs.data)
  }

  function At(w: World, tid: nat, phase: Phase): World
    requires tid in w.threads
  {
    w.(threads := w.threads[tid := w.threads[tid].(phase := phase)])
  }

  function Finish(w: World, tid: nat, result: Option<Digest>): World
    requires tid in w.threads
  {
    At(w, tid, Done(result)).(returned := if result.Some? then w.returned + {result.value} else w.returned)
  }

  function Step(w: World, e: Event): World
    requires Enabled(w, e)
  {
    match e
    case Spawn(pid) => w.(counters := w.counters[pid := 0])
    case Crash(pid) =>
      w.(counters := w.counters - {pid},
         threads := map t | t in w.threads && w.threads[t].pid != pid :: w.threads[t],
         leaked := w.leaked + set p | p in w.fs.names && p.Tmp? && p.pid == pid)
    case Call(tid, pid) => w.(threads := w.threads[tid := Thread(pid, Start)])
    case Check(tid, seed, missed) => At(w, tid, if Key in w.fs.names && !missed then Loading else Generate(seed))
    case DirFails(tid) => Finish(w, tid, None)
    case Claim(tid) =>
      var t := w.threads[tid];
      At(w, tid, Named(t.phase.seed, w.counters[t.pid])).(counters := w.counters[t.pid := w.counters[t.pid] + 1])
    case Open(tid, ino) =>
      var t := w.threads[tid];
      var p := Tmp(t.pid, t.phase.n);
      At(w, tid, Writing(t.phase.seed, t.phase.n, ino)).(
        fs := Fs(w.fs.names[p := ino], w.fs.data[ino := []]), owner := w.owner[p := tid], leaked := w.leaked - {p})
    case Write(tid, upTo) =>
      var ph := w.threads[tid].phase;
      At(w, tid, if upTo == 32 then Written(ph.seed, ph.n, ph.ino) else ph).(
        fs := w.fs.(data := w.fs.data[ph.ino := ph.seed[..upTo]]))
    case StepFails(tid) => At(w, tid, Cleaning(w.threads[tid].phase.n, Failed))
    case Link(tid) =>
      var t := w.threads[tid];
      var p := Tmp(t.pid, t.phase.n);
      if p !in w.fs.names then At(w, tid, Cleaning(t.phase.n, Failed))
      else if Key in w.fs.names then At(w, tid, Cleaning(t.phase.n, Lost))
      else At(w, tid, Cleaning(t.phase.n, Won(t.phase.seed))).(fs := w.fs.(names := w.fs.names[Key := w.fs.names[p]]))
    case Remove(tid, ok) =>
      var t := w.threads[tid];
      var p := Tmp(t.pid, t.phase.n);
      var w1 := if ok then w.(fs := w.fs.(names := w.fs.names - {p}), leaked := w.leaked - {p})
                else w.(leaked := w.leaked + {p});
      (match t.phase.outcome
       case Won(seed) => Finish(w1, tid, Some(seed))
       case Lost => At(w1, tid, Loading)
       case Failed => Finish(w1, tid, None))
    case Read(tid, ok) =>
      if ok && |w.fs.data[w.fs.names[Key]]| == 32 then Finish(w, tid, Some(w.fs.data[w.fs.names[Key]]))
      else Finish(w, tid, None)
  }

  // ----- the invariant -----

  predicate Published(fs: Fs, seed: Bytes) {
    Key in fs.names && fs.names[Key] in fs.data && fs.data[fs.names[Key]] == seed
  }

  /** `p` is a second name of the published inode. */
  predicate Shared(fs: Fs, p: Path) {
    p in fs.names && Key in fs.names && fs.names[p] == fs.names[Key]
  }

  ghost predicate FsOk(fs: Fs) {
    && (forall p :: p in fs.names ==> fs.names[p] in fs.data)
    && (forall p, q :: p in fs.names && q in fs.names && p.Tmp? && q.Tmp? && p != q ==> fs.names[p] != fs.names[q])
    && (Key in fs.names ==> |fs.data[fs.names[Key]]| == 32)
  }

  predicate HasName(phase: Phase) { phase.Named? || phase.Writing? || phase.Written? || phase.Cleaning? }

  predicate Holds(fs: Fs, pid: nat, n: nat, ino: nat) {
    Tmp(pid, n) in fs.names && fs.names[Tmp(pid, n)] == ino && ino in fs.data && !Shared(fs, Tmp(pid, n))
  }

  ghost predicate ThreadOk(fs: Fs, counters: map<nat, nat>, t: Thread) {
    && t.pid in counters
    && (HasName(t.phase) ==> t.phase.n < counters[t.pid])
    && match t.phase
       case Start => true
       case Generate(_) => true
       case Named(_, _) => true
       case Writing(seed, n, ino) => Holds(fs, t.pid, n, ino) && fs.data[ino] <= seed
       case Written(seed, n, ino) => Holds(fs, t.pid, n, ino) && fs.data[ino] == seed
       case Cleaning(n, o) => (o.Won? ==> Published(fs, o.seed)) && (o.Lost? ==> Key in fs.names)
       case Loading => Key in fs.names
       case Done(r) => r.Some? ==> Published(fs, r.value)
  }

  predicate Apart(t: Thread, u: Thread) {
    HasName(t.phase) && HasName(u.phase) && t.pid == u.pid ==> t.phase.n != u.phase.n
  }

  predicate InFlight(t: Thread, p: Path) {
    p.Tmp? && t.pid == p.pid && (t.phase.Writing? || t.phase.Written? || t.phase.Cleaning?) && t.phase.n == p.n
  }

  /** A temp name in the directory belongs to a call in flight or is leaked. */
  ghost predicate Accounted(w: World) {
    forall p :: p in w.fs.names && p.Tmp? && p !in w.leaked ==>
      p in w.owner && w.owner[p] in w.threads && InFlight(w.threads[w.owner[p]], p)
  }

  /** The truncating open of a temp file is harmful exactly where the temp name is a second
      name of the key, left over under a reused process id. */
  predicate Harmless(w: World, e: Event) {
    e.Open? && e.tid in w.threads && w.threads[e.tid].phase.Named? ==>
      !Shared(w.fs, Tmp(w.threads[e.tid].pid, w.threads[e.tid].phase.n))
  }

  ghost predicate ThreadsOk(w: World) {
    && (forall t :: t in w.threads ==> ThreadOk(w.fs, w.counters, w.threads[t]))
    && (forall t, u :: t in w.threads && u in w.threads && t != u ==> Apart(w.threads[t], w.threads[u]))
  }

  ghost predicate Inv(w: World) {
    && FsOk(w.fs)
    && ThreadsOk(w)
    && (forall s :: s in w.returned ==> Published(w.fs, s))
    && Accounted(w)
  }

  /** Nobody is running. Leftover temp files of earlier crashes may exist, and so may a
      complete key, even one that still shares its inode with a leftover temp name. */
  ghost predicate Init(w: World) {
    FsOk(w.fs) && w.counters == map[] && w.threads == map[] && w.returned == {}
    && w.leaked == set p | p in w.fs.names && p.Tmp?
  }
}
