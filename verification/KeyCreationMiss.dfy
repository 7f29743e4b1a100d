/** What keeps temp files from being opened under a second name of the key. The existence
    check reports every error as "absent", so a caller may go on to generate although the key
    is there; then a leftover temp name under a reused process id may be the key's. */
module KeyCreationMiss {
  import opened Octets
  import opened KeyCreation
  import opened KeyCreationSafety
  import opened KeyCreationRuns

  /** Steps from any world, not only an initial one. */
  ghost predicate Steps(ws: seq<World>, es: seq<Event>) {
    && |ws| == |es| + 1
    && forall i :: 0 <= i < |es| ==> Enabled(ws[i], es[i]) && ws[i + 1] == Step(ws[i], es[i])
  }

  lemma StepsCons(w: World, e: Event, ws: seq<World>, es: seq<Event>)
    requires Steps(ws, es) && Enabled(w, e) && ws[0] == Step(w, e)
    ensures Steps([w] + ws, [e] + es)
  {
    hide Step, Enabled;
    var ws', es' := [w] + ws, [e] + es;
    forall i | 0 <= i < |es'|
      ensures Enabled(ws'[i], es'[i]) && ws'[i + 1] == Step(ws'[i], es'[i])
    {
      if i > 0 {
        assert ws'[i] == ws[i - 1] && es'[i] == es[i - 1] && ws'[i + 1] == ws[i];
      }
    }
  }

  lemma Unused(threads: map<nat, Thread>) returns (tid: nat)
    ensures tid !in threads
  {
    var keys := threads.Keys;
    tid := 0;
    while keys != {}
      invariant forall t :: t in threads ==> t < tid || t in keys
      decreases |keys|
    {
      var t :| t in keys;
      keys := keys - {t};
      tid := if t < tid then tid else t + 1;
    }
  }

  /** A thread about to generate while the name `c` its process may still hand out is the
      key's: other callers of the process use up the names before `c`. */
  lemma {:induction false} Truncates(w: World, tid: nat, c: nat) returns (ws: seq<World>, es: seq<Event>)
    requires tid in w.threads && w.threads[tid].phase.Generate?
    requires var pid := w.threads[tid].pid;
             pid in w.counters && w.counters[pid] <= c && Shared(w.fs, Tmp(pid, c))
    ensures Steps(ws, es) && ws[0] == w && Published(ws[|es|].fs, [])
    decreases c - w.counters[w.threads[tid].pid]
  {
    hide Steps;
    var pid := w.threads[tid].pid;
    if w.counters[pid] == c {
      ws, es := TruncatesNow(w, tid);
    } else {
      var t := Unused(w.threads);
      var seed := w.threads[tid].phase.seed;
      var w1 := Step(w, Call(t, pid));
      var w2 := Step(w1, Check(t, seed, true));
      var w3 := Step(w2, Claim(t));
      ws, es := Truncates(w3, tid, c);
      StepsCons(w2, Claim(t), ws, es);
      StepsCons(w1, Check(t, seed, true), [w2] + ws, [Claim(t)] + es);
      StepsCons(w, Call(t, pid), [w1] + ([w2] + ws), [Check(t, seed, true)] + ([Claim(t)] + es));
      ws, es := [w] + ([w1] + ([w2] + ws)), [Call(t, pid)] + ([Check(t, seed, true)] + ([Claim(t)] + es));
    }
  }

  /** Taking the key's second name and opening it with truncation empties the key. */
  lemma TruncatesNow(w: World, tid: nat) returns (ws: seq<World>, es: seq<Event>)
    requires tid in w.threads && w.threads[tid].phase.Generate?
    requires var pid := w.threads[tid].pid;
             pid in w.counters && Shared(w.fs, Tmp(pid, w.counters[pid]))
    ensures Steps(ws, es) && ws[0] == w && Published(ws[|es|].fs, [])
  {
    var ino := w.fs.names[Key];
    var w1 := Step(w, Claim(tid));
    var w2 := Step(w1, Open(tid, ino));
    ws, es := [w, w1, w2], [Claim(tid), Open(tid, ino)];
  }

  // ----- conditions at the claim, at the check and at process start -----

  /** No temp name the process has yet to hand out leads to the published inode. */
  ghost predicate FutureUnshared(fs: Fs, pid: nat, from: nat) {
    forall c :: c >= from ==> !Shared(fs, Tmp(pid, c))
  }

  /** The name a call claims is not a second name of the key. */
  predicate SafeClaim(w: World, e: Event) {
    e.Claim? && e.tid in w.threads && w.threads[e.tid].pid in w.counters ==>
      !Shared(w.fs, Tmp(w.threads[e.tid].pid, w.counters[w.threads[e.tid].pid]))
  }

  /** A check misses the key only where no name its process has yet to hand out is the key's. */
  ghost predicate SafeMiss(w: World, e: Event) {
    e.Check? && e.missed && e.tid in w.threads && w.threads[e.tid].pid in w.counters ==>
      FutureUnshared(w.fs, w.threads[e.tid].pid, w.counters[w.threads[e.tid].pid])
  }

  /** A process starts only where no leftover temp name under its id is the key's. */
  ghost predicate CleanStart(w: World, e: Event) {
    e.Spawn? ==> FutureUnshared(w.fs, e.pid, 0)
  }

  /** Only a link gives the key a second name, and then the linking call's own. */
  lemma SharedStep(w: World, e: Event, p: Path)
    requires Inv(w) && Enabled(w, e) && Harmless(w, e) && p.Tmp? && Shared(Step(w, e).fs, p)
    ensures || Shared(w.fs, p)
            || (e.Link? && p == Tmp(w.threads[e.tid].pid, w.threads[e.tid].phase.n))
  {
    hide Accounted, ThreadsOk;
    if e.Link? || e.Open? {
      MyThread(w, e.tid);
    }
  }

  /** No call holds a claimed name that is the key's. */
  ghost predicate NamesUnshared(w: World) {
    forall t :: t in w.threads && w.threads[t].phase.Named? ==>
      !Shared(w.fs, Tmp(w.threads[t].pid, w.threads[t].phase.n))
  }

  lemma NamesStep(w: World, e: Event)
    requires Inv(w) && NamesUnshared(w) && Enabled(w, e) && SafeClaim(w, e)
    ensures Harmless(w, e) && NamesUnshared(Step(w, e))
  {
    var w' := Step(w, e);
    forall t | t in w'.threads && w'.threads[t].phase.Named?
      ensures !Shared(w'.fs, Tmp(w'.threads[t].pid, w'.threads[t].phase.n))
    {
      NamedBefore(w, e, t);
      var p := Tmp(w'.threads[t].pid, w'.threads[t].phase.n);
      if Shared(w'.fs, p) {
        SharedStep(w, e, p);
      }
    }
  }

  lemma NamedBefore(w: World, e: Event, t: nat)
    requires Inv(w) && Enabled(w, e) && t in Step(w, e).threads && Step(w, e).threads[t].phase.Named?
    ensures if e == Claim(t) then Step(w, e).threads[t].phase.n == w.counters[w.threads[t].pid]
            else && t in w.threads && w.threads[t] == Step(w, e).threads[t]
                 && (e.Link? ==> e.tid in w.threads && e.tid != t)
  {
    hide Accounted, ThreadsOk, FsOk;
  }

  /** No call about to claim belongs to a process with a name to hand out that is the key's. */
  ghost predicate ClaimsUnshared(w: World) {
    forall t :: t in w.threads && w.threads[t].phase.Generate? && w.threads[t].pid in w.counters ==>
      FutureUnshared(w.fs, w.threads[t].pid, w.counters[w.threads[t].pid])
  }

  /** No process has a name to hand out that is the key's. */
  ghost predicate AllUnshared(w: World) {
    forall pid :: pid in w.counters ==> FutureUnshared(w.fs, pid, w.counters[pid])
  }

  lemma FutureStep(w: World, e: Event, pid: nat)
    requires Inv(w) && Enabled(w, e) && Harmless(w, e) && pid in w.counters && pid in Step(w, e).counters
    requires FutureUnshared(w.fs, pid, w.counters[pid])
    ensures FutureUnshared(Step(w, e).fs, pid, Step(w, e).counters[pid])
  {
    hide Accounted;
    var w' := Step(w, e);
    forall c: nat | c >= w'.counters[pid] && Shared(w'.fs, Tmp(pid, c))
      ensures false
    {
      SharedStep(w, e, Tmp(pid, c));
    }
  }

  lemma ClaimsStep(w: World, e: Event)
    requires Inv(w) && ClaimsUnshared(w) && Enabled(w, e) && Harmless(w, e) && SafeMiss(w, e)
    ensures SafeClaim(w, e) && ClaimsUnshared(Step(w, e))
  {
    hide Accounted;
    var w' := Step(w, e);
    forall t | t in w'.threads && w'.threads[t].phase.Generate? && w'.threads[t].pid in w'.counters
      ensures FutureUnshared(w'.fs, w'.threads[t].pid, w'.counters[w'.threads[t].pid])
    {
      GenerateBefore(w, e, t);
      FutureStep(w, e, w'.threads[t].pid);
    }
  }

  lemma GenerateBefore(w: World, e: Event, t: nat)
    requires Inv(w) && Enabled(w, e) && t in Step(w, e).threads && Step(w, e).threads[t].phase.Generate?
    ensures && t in w.threads && w.threads[t].pid == Step(w, e).threads[t].pid && w.threads[t].pid in w.counters
            && (w.threads[t].phase.Generate? || (e.Check? && e.tid == t && (e.missed || Key !in w.fs.names)))
  {
    hide Accounted, ThreadsOk, FsOk;
    if t in w.threads {
      MyThread(w, t);
    }
  }

  lemma UnsharedStep(w: World, e: Event)
    requires Inv(w) && AllUnshared(w) && Enabled(w, e) && Harmless(w, e) && CleanStart(w, e)
    ensures SafeMiss(w, e) && AllUnshared(Step(w, e))
  {
    hide Accounted;
    var w' := Step(w, e);
    forall pid | pid in w'.counters
      ensures FutureUnshared(w'.fs, pid, w'.counters[pid])
    {
      if pid in w.counters {
        FutureStep(w, e, pid);
      }
    }
  }

  /** A name that is not the key's when it is claimed is not the key's when it is opened. */
  lemma {:induction false} SafeClaimsAreCareful(ws: seq<World>, es: seq<Event>, j: nat)
    requires Run(ws, es) && j < |ws| && forall i :: 0 <= i < j ==> SafeClaim(ws[i], es[i])
    ensures Careful(ws, es, j) && NamesUnshared(ws[j])
  {
    hide Step, Enabled, SafeClaim, Harmless, Inv;
    if j > 0 {
      SafeClaimsAreCareful(ws, es, j - 1);
      RunInv(ws, es, j - 1);
      NamesStep(ws[j - 1], es[j - 1]);
    }
  }

  /** In particular the key is safe in every run in which the existence check misses no key. */
  lemma {:induction false} SafeMissesAreCareful(ws: seq<World>, es: seq<Event>, j: nat)
    requires Run(ws, es) && j < |ws| && forall i :: 0 <= i < j ==> SafeMiss(ws[i], es[i])
    ensures Careful(ws, es, j) && NamesUnshared(ws[j]) && ClaimsUnshared(ws[j])
  {
    hide Step, Enabled, SafeMiss, SafeClaim, Harmless, Inv;
    if j > 0 {
      SafeMissesAreCareful(ws, es, j - 1);
      RunInv(ws, es, j - 1);
      SafeMissStep(ws[j - 1], es[j - 1]);
    }
  }

  lemma SafeMissStep(w: World, e: Event)
    requires Inv(w) && NamesUnshared(w) && ClaimsUnshared(w) && Enabled(w, e) && SafeMiss(w, e)
    ensures Harmless(w, e) && NamesUnshared(Step(w, e)) && ClaimsUnshared(Step(w, e))
  {
    hide Step, Inv, SafeMiss, NamesUnshared;
    NamedHarmless(w, e);
    ClaimsStep(w, e);
    NamesStep(w, e);
  }

  lemma NamedHarmless(w: World, e: Event)
    requires NamesUnshared(w)
    ensures Harmless(w, e)
  {
  }

  /** With clean process starts the key is safe whatever the existence checks report. */
  lemma {:induction false} CleanStartsAreCareful(ws: seq<World>, es: seq<Event>, j: nat)
    requires Run(ws, es) && j < |ws| && forall i :: 0 <= i < j ==> CleanStart(ws[i], es[i])
    ensures Careful(ws, es, j) && NamesUnshared(ws[j]) && ClaimsUnshared(ws[j]) && AllUnshared(ws[j])
  {
    hide Step, Enabled, CleanStart, SafeMiss, Harmless, Inv, NamesUnshared, ClaimsUnshared;
    if j == 0 {
      assert NamesUnshared(ws[0]) && ClaimsUnshared(ws[0]) by { EmptyStart(ws[0]); }
    } else {
      CleanStartsAreCareful(ws, es, j - 1);
      RunInv(ws, es, j - 1);
      NamedHarmless(ws[j - 1], es[j - 1]);
      UnsharedStep(ws[j - 1], es[j - 1]);
      SafeMissStep(ws[j - 1], es[j - 1]);
    }
  }

  lemma EmptyStart(w: World)
    requires Init(w)
    ensures NamesUnshared(w) && ClaimsUnshared(w)
  {
  }

  /** The condition at the check is the weakest that is safe whatever follows: where it fails
      some continuation empties the published key. */
  lemma HarmfulMiss(w: World, tid: nat, seed: Digest) returns (ws: seq<World>, es: seq<Event>)
    requires Inv(w) && tid in w.threads && w.threads[tid].phase.Start?
    ensures var miss := Check(tid, seed, true);
            !SafeMiss(w, miss) ==>
              && Steps(ws, es) && ws[0] == Step(w, miss) && Published(ws[|es|].fs, [])
              && exists s :: |s| == 32 && Published(w.fs, s)
  {
    hide Steps, Accounted;
    ws, es := [], [];
    var miss := Check(tid, seed, true);
    if !SafeMiss(w, miss) {
      var pid := w.threads[tid].pid;
      var c: nat :| c >= w.counters[pid] && Shared(w.fs, Tmp(pid, c));
      ws, es := Truncates(Step(w, miss), tid, c);
      assert Published(w.fs, w.fs.data[w.fs.names[Key]]);
    }
  }

  /** An instance from a legal start: a process that published and died before removing its
      temp name, its id reused, and one failing existence check. */
  lemma MissedCheckEmptiesKey(seed: Digest, other: Digest) returns (ws: seq<World>, es: seq<Event>)
    ensures Run(ws, es) && Published(ws[0].fs, seed) && Published(ws[|es|].fs, [])
  {
    var p := Tmp(1, 0);
    var fs := Fs(map[Key := 7, p := 7], map[7 := seed]);
    var w0 := World(fs, map[], map[], {}, {p}, map[]);
    var w1 := Step(w0, Spawn(1));
    var w2 := Step(w1, Call(0, 1));
    var w3 := Step(w2, Check(0, other, true));
    ws, es := TruncatesNow(w3, 0);
    StepsCons(w2, Check(0, other, true), ws, es);
    ws, es := [w2] + ws, [Check(0, other, true)] + es;
    StepsCons(w1, Call(0, 1), ws, es);
    ws, es := [w1] + ws, [Call(0, 1)] + es;
    StepsCons(w0, Spawn(1), ws, es);
    ws, es := [w0] + ws, [Spawn(1)] + es;
    assert w0.leaked == set q | q in w0.fs.names && q.Tmp?;
  }
}
