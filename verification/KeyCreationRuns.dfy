/** What the key-creation race guarantees over whole runs, and why temp names differ. */
module KeyCreationRuns {
  import opened Octets
  import opened KeyCreation
  import opened KeyCreationSafety
  import opened Text
  import Decimal

  ghost predicate Run(ws: seq<World>, es: seq<Event>) {
    && |ws| == |es| + 1 && Init(ws[0])
    && forall i :: 0 <= i < |es| ==> Enabled(ws[i], es[i]) && ws[i + 1] == Step(ws[i], es[i])
  }

  /** None of the first `j` events opens a second name of the key. */
  predicate Careful(ws: seq<World>, es: seq<Event>, j: nat) {
    forall i :: 0 <= i < j && i < |es| && i < |ws| ==> Harmless(ws[i], es[i])
  }

  lemma {:induction false} RunInv(ws: seq<World>, es: seq<Event>, i: nat)
    requires Run(ws, es) && i < |ws| && Careful(ws, es, i)
    ensures Inv(ws[i])
  {
    hide Step, Enabled, Harmless;
    if i == 0 {
      assert Accounted(ws[0]);
    } else {
      RunInv(ws, es, i - 1);
      StepKeepsInv(ws[i - 1], es[i - 1]);
    }
  }

  /** No step changes or unpublishes a published seed, unless it opens a second name of it. */
  lemma StepKeepsKey(w: World, e: Event, seed: Bytes)
    requires Inv(w) && Enabled(w, e) && Harmless(w, e) && Published(w.fs, seed)
    ensures Published(Step(w, e).fs, seed)
  {
    if e.Open? || e.Write? {
      MyThread(w, e.tid);
    }
  }

  lemma {:induction false} RunKeepsKey(ws: seq<World>, es: seq<Event>, i: nat, j: nat, seed: Bytes)
    requires Run(ws, es) && i <= j < |ws| && Careful(ws, es, j) && Published(ws[i].fs, seed)
    ensures Published(ws[j].fs, seed)
  {
    hide Step, Enabled, Published, Harmless;
    if i < j {
      RunKeepsKey(ws, es, i, j - 1, seed);
      RunInv(ws, es, j - 1);
      StepKeepsKey(ws[j - 1], es[j - 1], seed);
    }
  }

  /** Between an earlier and a later world: if the key path existed it held one complete
      32-byte seed, which is still there and is all that any call has returned; if not, no
      call had succeeded. */
  predicate Keeps(v: World, w: World) {
    if Key in v.fs.names then
      && v.fs.names[Key] in v.fs.data
      && var seed := v.fs.data[v.fs.names[Key]];
         |seed| == 32 && Published(w.fs, seed) && w.returned <= {seed}
    else v.returned == {}
  }

  predicate OneKey(ws: seq<World>, j: nat) {
    forall i, k :: 0 <= i <= k <= j && k < |ws| ==> Keeps(ws[i], ws[k])
  }

  lemma {:induction false} CarefulKeeps(ws: seq<World>, es: seq<Event>, i: nat, j: nat)
    requires Run(ws, es) && i <= j < |ws| && Careful(ws, es, j)
    ensures Keeps(ws[i], ws[j])
  {
    hide Step, Enabled, ThreadsOk, Accounted, Harmless;
    RunInv(ws, es, i);
    RunInv(ws, es, j);
    if Key in ws[i].fs.names {
      RunKeepsKey(ws, es, i, j, ws[i].fs.data[ws[i].fs.names[Key]]);
    }
  }

  /** Opening a second name of the key empties the key. */
  lemma HarmfulOpen(w: World, e: Event)
    requires Enabled(w, e) && !Harmless(w, e)
    ensures Key in w.fs.names && Published(Step(w, e).fs, [])
  {
  }

  /** In every interleaving, whatever the existence checks report: there is one key for good,
      returned by every successful call, exactly as long as no temp file is opened under a
      name that is a second name of the key. */
  lemma OneKeyForever(ws: seq<World>, es: seq<Event>, j: nat)
    requires Run(ws, es) && j < |ws|
    ensures OneKey(ws, j) <==> Careful(ws, es, j)
  {
    hide Step, Enabled, Harmless, Run, Keeps;
    if Careful(ws, es, j) {
      forall i, k | 0 <= i <= k <= j
        ensures Keeps(ws[i], ws[k])
      {
        CarefulKeeps(ws, es, i, k);
      }
    } else {
      var i :| 0 <= i < j && i < |es| && !Harmless(ws[i], es[i]);
      NotKept(ws, es, i);
      assert !Keeps(ws[i + 1], ws[i + 1]);
    }
  }

  lemma NotKept(ws: seq<World>, es: seq<Event>, i: nat)
    requires Run(ws, es) && i < |es| && !Harmless(ws[i], es[i])
    ensures !Keeps(ws[i + 1], ws[i + 1])
  {
    hide Step, Enabled, Harmless;
    HarmfulOpen(ws[i], es[i]);
  }

  // ----- a call by itself -----

  /** A call that sees the key returns what it holds and touches no file. */
  lemma SeenKeyIsLoaded(w: World, tid: nat, other: Digest, seed: Digest)
    requires tid in w.threads && w.threads[tid].phase.Start? && Published(w.fs, seed)
    ensures Enabled(w, Check(tid, other, false))
    ensures var w1 := Step(w, Check(tid, other, false));
            Enabled(w1, Read(tid, true)) &&
            var w2 := Step(w1, Read(tid, true));
            w2.threads[tid].phase == Done(Some(seed)) && w2.fs == w.fs
  {
  }

  lemma OpensTemp(w: World, tid: nat, seed: Digest, ino: nat)
    requires tid in w.threads && w.threads[tid].phase.Start? && w.threads[tid].pid in w.counters
    requires Key !in w.fs.names && ino !in w.fs.data
    requires Tmp(w.threads[tid].pid, w.counters[w.threads[tid].pid]) !in w.fs.names
    ensures Enabled(w, Check(tid, seed, false))
    ensures var w1 := Step(w, Check(tid, seed, false));
            Enabled(w1, Claim(tid)) &&
            var w2 := Step(w1, Claim(tid));
            Enabled(w2, Open(tid, ino)) &&
            var w3, pid := Step(w2, Open(tid, ino)), w.threads[tid].pid;
            && tid in w3.threads && w3.threads[tid] == Thread(pid, Writing(seed, w.counters[pid], ino))
            && w3.fs == Fs(w.fs.names[Tmp(pid, w.counters[pid]) := ino], w.fs.data[ino := []])
  {
  }

  lemma PublishesTemp(w: World, tid: nat)
    requires tid in w.threads && w.threads[tid].phase.Writing? && Key !in w.fs.names
    requires var t := w.threads[tid];
             var p := Tmp(t.pid, t.phase.n);
             p in w.fs.names && w.fs.names[p] == t.phase.ino && t.phase.ino in w.fs.data && w.fs.data[t.phase.ino] == []
    ensures Enabled(w, Write(tid, 32))
    ensures var w1 := Step(w, Write(tid, 32));
            Enabled(w1, Link(tid)) &&
            var w2 := Step(w1, Link(tid));
            Enabled(w2, Remove(tid, true)) &&
            var w3, t := Step(w2, Remove(tid, true)), w.threads[tid];
            && tid in w3.threads && w3.threads[tid].phase == Done(Some(t.phase.seed))
            && w3.fs == Fs(w.fs.names[Key := t.phase.ino] - {Tmp(t.pid, t.phase.n)},
                           w.fs.data[t.phase.ino := t.phase.seed])
  {
    var seed := w.threads[tid].phase.seed;
    assert seed[..32] == seed;
  }

  /** The steps of a call that wins. */
  function WinningCall(tid: nat, seed: Digest, ino: nat): seq<Event> {
    [Check(tid, seed, false), Claim(tid), Open(tid, ino), Write(tid, 32), Link(tid), Remove(tid, true)]
  }

  /** A call alone on a missing path publishes its complete seed, returns it, and leaves
      nothing else behind. `ino` is the inode its temp file gets. */
  lemma FirstCallCreates(w: World, tid: nat, seed: Digest, ino: nat)
    requires tid in w.threads && w.threads[tid].phase.Start? && w.threads[tid].pid in w.counters
    requires Key !in w.fs.names && ino !in w.fs.data
    requires Tmp(w.threads[tid].pid, w.counters[w.threads[tid].pid]) !in w.fs.names
    ensures var es := WinningCall(tid, seed, ino);
            Performs(w, es) &&
            var w' := Performed(w, es);
            && tid in w'.threads && w'.threads[tid].phase == Done(Some(seed))
            && w'.fs.names == w.fs.names[Key := ino] && w'.fs.data == w.fs.data[ino := seed]
  {
    hide Step, Enabled, Performs, Performed;
    var es := WinningCall(tid, seed, ino);
    OpensTemp(w, tid, seed, ino);
    var w1 := Step(w, es[0]);
    var w2 := Step(w1, es[1]);
    var w3 := Step(w2, es[2]);
    PublishesTemp(w3, tid);
    var w4 := Step(w3, es[3]);
    var w5 := Step(w4, es[4]);
    SixSteps(w, es, w1, w2, w3, w4, w5, Step(w5, es[5]));
    NamesAfter(w.fs, Tmp(w.threads[tid].pid, w.counters[w.threads[tid].pid]), ino, seed);
  }

  lemma NamesAfter(fs: Fs, t: Path, ino: nat, seed: Bytes)
    requires t.Tmp? && t !in fs.names
    ensures fs.names[t := ino][Key := ino] - {t} == fs.names[Key := ino]
    ensures fs.data[ino := []][ino := seed] == fs.data[ino := seed]
  {
  }

  ghost predicate Performs(w: World, es: seq<Event>)
    decreases |es|
  {
    es == [] || (Enabled(w, es[0]) && Performs(Step(w, es[0]), es[1..]))
  }

  ghost function Performed(w: World, es: seq<Event>): World
    requires Performs(w, es)
    decreases |es|
  {
    if es == [] then w else Performed(Step(w, es[0]), es[1..])
  }

  lemma SixSteps(w: World, es: seq<Event>, w1: World, w2: World, w3: World, w4: World, w5: World, w6: World)
    requires |es| == 6 && Enabled(w, es[0]) && w1 == Step(w, es[0]) && Enabled(w1, es[1]) && w2 == Step(w1, es[1])
    requires Enabled(w2, es[2]) && w3 == Step(w2, es[2]) && Enabled(w3, es[3]) && w4 == Step(w3, es[3])
    requires Enabled(w4, es[4]) && w5 == Step(w4, es[4]) && Enabled(w5, es[5]) && w6 == Step(w5, es[5])
    ensures Performs(w, es) && Performed(w, es) == w6
  {
    hide Step, Enabled;
    var e1, e2, e3, e4, e5 := es[1..], es[2..], es[3..], es[4..], es[5..];
    assert e1[1..] == e2 && e2[1..] == e3 && e3[1..] == e4 && e4[1..] == e5 && e5[1..] == [];
    assert Performs(w5, e5) && Performed(w5, e5) == w6;
    assert Performs(w4, e4) && Performed(w4, e4) == w6;
    assert Performs(w3, e3) && Performed(w3, e3) == w6;
    assert Performs(w2, e2) && Performed(w2, e2) == w6;
    assert Performs(w1, e1) && Performed(w1, e1) == w6;
  }

  // ----- failing calls -----

  /** The file operation of this call failed. */
  predicate Fails(e: Event, tid: nat) {
    e == DirFails(tid) || e == StepFails(tid) || e == Read(tid, false)
  }

  /** The call has failed or is about to report failure. */
  predicate Failing(w: World, tid: nat) {
    tid in w.threads && (w.threads[tid].phase == Done(None) ||
                         (w.threads[tid].phase.Cleaning? && w.threads[tid].phase.outcome == Failed))
  }

  lemma FailingStep(w: World, e: Event, tid: nat)
    requires Inv(w) && Enabled(w, e) && Failing(Step(w, e), tid) && !Failing(w, tid)
    ensures Fails(e, tid) && tid in w.threads
  {
    hide Accounted, ThreadsOk;
    if e.Link? || e.Read? {
      MyThread(w, e.tid);
    }
  }

  /** A call reports failure only if a file operation of its own failed: losing the race
      never makes a call fail. */
  lemma {:induction false} OnlyOwnFailures(ws: seq<World>, es: seq<Event>, j: nat, tid: nat)
    requires Run(ws, es) && j < |ws| && Careful(ws, es, j) && Failing(ws[j], tid)
    ensures exists i :: 0 <= i < j && Fails(es[i], tid) && forall k :: i <= k <= j ==> tid in ws[k].threads
  {
    hide Step, Enabled, Harmless, Inv, Fails;
    if j > 0 {
      if Failing(ws[j - 1], tid) {
        OnlyOwnFailures(ws, es, j - 1, tid);
      } else {
        RunInv(ws, es, j - 1);
        FailingStep(ws[j - 1], es[j - 1], tid);
      }
    }
  }

  // ----- temp files -----

  /** Temp names are handed out once, and each one in the directory has an owner. Unlike the
      whole invariant this holds after every check. */
  ghost predicate Tidy(w: World) { Numbers(w) && Accounted(w) }

  ghost predicate Numbered(counters: map<nat, nat>, t: Thread) {
    t.pid in counters && (HasName(t.phase) ==> t.phase.n < counters[t.pid])
  }

  ghost predicate Numbers(w: World) {
    && (forall t :: t in w.threads ==> Numbered(w.counters, w.threads[t]))
    && (forall t, u :: t in w.threads && u in w.threads && t != u ==> Apart(w.threads[t], w.threads[u]))
  }

  /** Processes come and go, and a claimed number is the next one. */
  lemma NumbersClaimed(w: World, e: Event)
    requires Numbers(w) && Enabled(w, e) && (e.Spawn? || e.Crash? || e.Call? || e.Claim?)
    ensures Numbers(Step(w, e))
  {
  }

  /** All other steps move one thread, which keeps its number or gives it up. */
  lemma StepMovesOne(w: World, e: Event)
    requires Enabled(w, e) && !(e.Spawn? || e.Crash? || e.Call? || e.Claim?)
    ensures var w' := Step(w, e);
            && e.tid in w.threads && w'.counters == w.counters && e.tid in w'.threads
            && var t, t' := w.threads[e.tid], w'.threads[e.tid];
               && w'.threads == w.threads[e.tid := t'] && t'.pid == t.pid
               && (HasName(t'.phase) ==> HasName(t.phase) && t'.phase.n == t.phase.n)
  {
  }

  lemma NumbersKept(w: World, e: Event)
    requires Numbers(w) && Enabled(w, e) && !(e.Spawn? || e.Crash? || e.Call? || e.Claim?)
    ensures Numbers(Step(w, e))
  {
    hide Step, Enabled;
    StepMovesOne(w, e);
  }

  /** The steps that add, remove or abandon temp names. */
  lemma AccountedFiles(w: World, e: Event)
    requires Accounted(w) && Numbers(w) && Enabled(w, e) && (e.Open? || e.Remove? || e.Crash?)
    ensures Accounted(Step(w, e))
  {
    hide Numbered;
  }

  lemma AccountedRest(w: World, e: Event)
    requires Accounted(w) && Enabled(w, e) && !(e.Open? || e.Remove? || e.Crash?)
    ensures Accounted(Step(w, e))
  {
  }

  lemma StepKeepsTidy(w: World, e: Event)
    requires Tidy(w) && Enabled(w, e)
    ensures Tidy(Step(w, e))
  {
    hide Step, Accounted, Numbers, Enabled;
    if e.Spawn? || e.Crash? || e.Call? || e.Claim? {
      NumbersClaimed(w, e);
    } else {
      NumbersKept(w, e);
    }
    if e.Open? || e.Remove? || e.Crash? {
      AccountedFiles(w, e);
    } else {
      AccountedRest(w, e);
    }
  }

  lemma {:induction false} RunTidy(ws: seq<World>, es: seq<Event>, i: nat)
    requires Run(ws, es) && i < |ws|
    ensures Tidy(ws[i])
  {
    hide Step, Enabled;
    if i > 0 {
      RunTidy(ws, es, i - 1);
      StepKeepsTidy(ws[i - 1], es[i - 1]);
    }
  }

  /** The events that leave `p` behind: a call is in flight under it, and its process ends
      or its removal fails. */
  predicate Leaves(w: World, e: Event, p: Path) {
    p.Tmp? &&
    exists t :: t in w.threads && InFlight(w.threads[t], p) && (e == Crash(p.pid) || e == Remove(t, false))
  }

  lemma LeakedStep(w: World, e: Event, p: Path)
    requires Tidy(w) && Enabled(w, e) && p in Step(w, e).leaked && p !in w.leaked
    ensures Leaves(w, e, p)
  {
    hide Numbers;
    if e.Remove? {
      assert InFlight(w.threads[e.tid], p);
    }
  }

  /** Leaked in every world from `i` to `j`. */
  predicate LeakedFrom(ws: seq<World>, i: nat, j: nat, p: Path) {
    forall k :: i <= k <= j && k < |ws| ==> p in ws[k].leaked
  }

  /** A leaked name has been so from the start, or since a call was in flight under it and
      its process ended or its removal failed. */
  lemma {:induction false} LeakedSince(ws: seq<World>, es: seq<Event>, j: nat, p: Path)
    requires Run(ws, es) && j < |ws| && p in ws[j].leaked
    ensures LeakedFrom(ws, 0, j, p) || exists i :: 0 <= i < j && Leaves(ws[i], es[i], p) && LeakedFrom(ws, i + 1, j, p)
  {
    hide Step, Enabled, Init, Leaves, Tidy;
    if j > 0 {
      if p in ws[j - 1].leaked {
        LeakedSince(ws, es, j - 1, p);
        if i :| 0 <= i < j - 1 && Leaves(ws[i], es[i], p) && LeakedFrom(ws, i + 1, j - 1, p) {
          assert LeakedFrom(ws, i + 1, j, p);
        }
      } else {
        RunTidy(ws, es, j - 1);
        LeakedStep(ws[j - 1], es[j - 1], p);
        assert LeakedFrom(ws, j, j, p);
      }
    }
  }

  /** When no call is in flight under a temp name, its file remains only if it was a leftover
      before the run and nobody removed it since, or if the last call under it was cut short:
      its process ended while it was in flight, or its removal failed. */
  lemma NoTempFileLeft(ws: seq<World>, es: seq<Event>, j: nat, p: Path)
    requires Run(ws, es) && j < |ws| && p.Tmp? && p in ws[j].fs.names
    requires forall t :: t in ws[j].threads ==> !InFlight(ws[j].threads[t], p)
    ensures || (p in ws[0].fs.names && LeakedFrom(ws, 0, j, p))
            || exists i :: 0 <= i < j && Leaves(ws[i], es[i], p) && LeakedFrom(ws, i + 1, j, p)
  {
    hide Step, Enabled, Leaves;
    RunTidy(ws, es, j);
    LeakedSince(ws, es, j, p);
  }

  // ----- temp names -----

  const DOT: Byte := 0x2E

  /** The temp file name: key file name, pid and counter in decimal, ".tmp". */
  function TmpName(file: Bytes, pid: nat, n: nat): Bytes {
    file + ([DOT] + (Decimal.Minimal(pid) + [DOT] + (Decimal.Minimal(n) + [DOT] + [0x74, 0x6D, 0x70])))
  }

  /** Distinct (pid, counter) pairs give distinct names, none of them the key's own. */
  lemma TmpNameInjective(file: Bytes, pid: nat, n: nat, pid': nat, n': nat)
    ensures TmpName(file, pid, n) != file
    ensures TmpName(file, pid, n) == TmpName(file, pid', n') ==> pid == pid' && n == n'
  {
    hide Decimal.Minimal, Decimal.Value, Find;
    var ext: Bytes := [0x74, 0x6D, 0x70];
    var a, b, a', b' := Decimal.Minimal(pid), Decimal.Minimal(n), Decimal.Minimal(pid'), Decimal.Minimal(n');
    var x, x' := a + [DOT] + (b + [DOT] + ext), a' + [DOT] + (b' + [DOT] + ext);
    if TmpName(file, pid, n) == TmpName(file, pid', n') {
      assert x == TmpName(file, pid, n)[|file| + 1..] && x' == TmpName(file, pid', n')[|file| + 1..];
      FindFirst(a, DOT, b + [DOT] + ext);
      FindFirst(a', DOT, b' + [DOT] + ext);
      assert a == x[..|a|] && a' == x'[..|a'|];
      assert b + [DOT] + ext == x[|a| + 1..] && b' + [DOT] + ext == x'[|a'| + 1..];
      FindFirst(b, DOT, ext);
      FindFirst(b', DOT, ext);
      assert b == (b + [DOT] + ext)[..|b|] && b' == (b' + [DOT] + ext)[..|b'|];
      Decimal.ValueMinimal(pid);
      Decimal.ValueMinimal(pid');
      Decimal.ValueMinimal(n);
      Decimal.ValueMinimal(n');
    }
  }
}
