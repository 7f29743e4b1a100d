/** The store's methods run exactly the commands of the log's state machine, so what is
    proved of whole runs is proved of the methods. */
module LogDriver {
  import opened Octets
  import opened LeafFiles
  import opened LogDisk
  import opened LogRuns
  import Store = LogStore

  function Mem(store: Store.LogStore?): Option<seq<Bytes>>
    reads store
  {
    if store == null then None else Some(store.leaves)
  }

  /** A store that works on this disk with this hash. */
  ghost predicate Ready(h: Hash, disk: Store.Disk, store: Store.LogStore?)
    reads store, if store == null then {} else {store.tree}
  {
    store != null ==> store.Valid() && store.h == h && store.disk == disk
  }

  function Budget(e: Event): (nat, nat) {
    match e
    case Open(fuel, cut) => (fuel, cut)
    case Append(_, fuel, cut) => (fuel, cut)
    case Close => (0, 0)
  }

  /** One command with the methods of the store. A failed store is dropped. */
  method Command(h: Hash, disk: Store.Disk, store: Store.LogStore?, e: Event, names: seq<Bytes>)
    returns (store': Store.LogStore?)
    requires Ready(h, disk, store) && Enabled(World(disk.d, Mem(store)), e)
    requires Distinct(names) && forall name :: name in names <==> name in disk.d.leaves
    modifies disk, store, if store == null then {} else {store.tree}
    ensures World(disk.d, Mem(store')) == Step(h, old(World(disk.d, Mem(store))), e)
    ensures Ready(h, disk, store')
    ensures store' == null || store' == store || fresh(store')
    ensures store' != null ==> fresh(store'.tree) || (store' == store && store'.tree == old(store.tree))
  {
    hide PlanOf, Exec, Completes, AppendOps, StateOps, Distinct;
    disk.fuel, disk.cut := Budget(e).0, Budget(e).1;
    match e {
      case Close =>
        store' := null;
      case Open(_, _) =>
        store' := Store.Open(h, disk, names);
      case Append(leaf, _, _) =>
        var r := store.Append(leaf);
        store' := if r.Some? then store else null;
    }
  }

  /** The names in a directory, in some order. */
  method ListNames(dir: LeafDir) returns (names: seq<Bytes>)
    ensures Distinct(names) && forall name :: name in names <==> name in dir
  {
    names := [];
    var rest := dir.Keys;
    while rest != {}
      invariant Distinct(names) && rest <= dir.Keys
      invariant forall name :: name in names <==> name in dir && name !in rest
      decreases |rest|
    {
      var name :| name in rest;
      names := names + [name];
      rest := rest - {name};
    }
  }

  /** The world after a program of commands, each stopped anywhere; an append without an
      open store is skipped. */
  ghost function After(h: Hash, w: World, es: seq<Event>): World {
    if es == [] then w
    else
      var before, e := After(h, w, es[..|es| - 1]), es[|es| - 1];
      if Enabled(before, e) then Step(h, before, e) else before
  }

  /** A program of method calls on a log computes what the state machine does. */
  method Drive(h: Hash, disk: Store.Disk, es: seq<Event>) returns (store: Store.LogStore?)
    modifies disk
    ensures World(disk.d, Mem(store)) == After(h, World(old(disk.d), None), es)
  {
    hide Step, Distinct;
    store := null;
    ghost var w := World(disk.d, None);
    for i := 0 to |es|
      invariant Ready(h, disk, store) && (store != null ==> fresh(store) && fresh(store.tree))
      invariant World(disk.d, Mem(store)) == After(h, w, es[..i])
    {
      assert es[..i + 1][..i] == es[..i];
      if !es[i].Append? || (store != null && |store.leaves| + 1 < U64_LIMIT) {
        var names := ListNames(disk.d.leaves);
        store := Command(h, disk, store, es[i], names);
      }
    }
    assert es[..|es|] == es;
  }

  lemma RunSnoc(h: Hash, ws: seq<World>, es: seq<Event>, e: Event)
    requires Run(h, ws, es) && Enabled(ws[|es|], e)
    ensures Run(h, ws + [Step(h, ws[|es|], e)], es + [e])
  {
    hide Step, Enabled, WorldSound;
  }

  /** On a freshly initialized log every program is a run, through the worlds after each of
      its performed commands: all that is proved of runs holds of it. */
  lemma {:induction false} ProgramIsRun(h: Hash, w: World, es: seq<Event>) returns (ws: seq<World>, done: seq<Event>)
    requires WorldSound(h, w, [], []) && w.mem == None
    ensures Run(h, ws, done) && ws[0] == w && ws[|done|] == After(h, w, es)
    ensures forall i :: 0 <= i <= |es| ==> After(h, w, es[..i]) in ws
  {
    hide Step, Enabled, WorldSound;
    if es == [] {
      ws, done := [w], [];
    } else {
      var n := |es| - 1;
      ws, done := ProgramIsRun(h, w, es[..n]);
      ghost var before := ws;
      if Enabled(ws[|done|], es[n]) {
        RunSnoc(h, ws, done, es[n]);
        ws, done := ws + [Step(h, ws[|done|], es[n])], done + [es[n]];
      }
      forall i | 0 <= i <= |es|
        ensures After(h, w, es[..i]) in ws
      {
        if i <= n {
          assert es[..n][..i] == es[..i];
          assert After(h, w, es[..i]) in before;
        } else {
          assert es[..i] == es;
        }
      }
    }
  }
}
