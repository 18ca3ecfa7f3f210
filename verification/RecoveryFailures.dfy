/**
  Where the durability protocol fails, by runs that the service itself can make, and under
  which conditions it does not (internal/core/service.go, internal/core/persistence.go).
 */
module RecoveryFailures {
  import opened Distance
  import opened VectorStores
  import opened Wal
  import opened ServiceState
  import opened ServiceCalls
  import opened Recovery

  /** After a power loss that leaves this much of the WAL, a restart computes a map that never existed. */
  ghost predicate FitsNoPrefix(p: Protocol, w: World, survivors: nat) {
    && Enabled(p, w, PowerLoss(survivors))
    && forall k | 0 <= k <= |w.log| :: Recover(p.cfg, Step(p, w, PowerLoss(survivors)).disk) != State(p.cfg, w.log[..k])
  }

  /** A history in which every operation is a call of its own. */
  ghost predicate Genuine(cfg: Config, log: seq<Op>) {
    forall k: nat :: GenuineAt(cfg, log, k)
  }

  ghost predicate GenuineAt(cfg: Config, log: seq<Op>, k: nat) {
    k < |log| ==> IsCall(cfg, State(cfg, log[..k]), [log[k]])
  }

  /** Names that differ in their length. */
  function Name(i: nat): (r: Id)
    ensures |r| == i + 1 && !IsBlank(r)
  {
    var r := seq(i + 1, k => 'v');
    assert !IsSpace(r[0]);
    r
  }

  predicate Usable(cfg: Config, x: Vec) {
    0 < |x| <= cfg.maxVectorDim
  }

  /** A new name each time, except that operation t deletes the name that the one before it inserted. */
  ghost function Trap(x: Vec, t: nat, n: nat): seq<Op>
    requires 0 < t
  {
    seq(n, i requires 0 <= i < n => if i == t then Delete(Name(t - 1)) else Upsert(Name(i), x))
  }

  /** The stored names are shorter than the next one. */
  lemma {:induction false} TrapNames(cfg: Config, x: Vec, t: nat, n: nat, k: nat)
    requires Usable(cfg, x) && 0 < t && k <= n
    ensures var s := State(cfg, Trap(x, t, n)[..k]); forall id | id in s :: |id| <= k && |s[id]| == |x|
  {
    if k > 0 {
      TrapNames(cfg, x, t, n, k - 1);
      var ops := Trap(x, t, n);
      assert ops[..k][..k - 1] == ops[..k - 1] && ops[..k][k - 1] == ops[k - 1];
      if k - 1 != t {
        assert |Name(k - 1)| == k;
      }
    }
  }

  /** Only operation t - 1 inserts name t - 1, and the next one deletes it. */
  lemma {:induction false} TrapName(cfg: Config, x: Vec, t: nat, n: nat, k: nat)
    requires Usable(cfg, x) && 0 < t && k <= n
    ensures Name(t - 1) in State(cfg, Trap(x, t, n)[..k]) <==> k == t
  {
    if k > 0 {
      TrapName(cfg, x, t, n, k - 1);
      var ops := Trap(x, t, n);
      assert ops[..k][..k - 1] == ops[..k - 1] && ops[..k][k - 1] == ops[k - 1];
      if k - 1 != t {
        assert ops[k - 1] == Upsert(Name(k - 1), x) && Storable(cfg, Name(k - 1), x);
        assert |Name(k - 1)| == k && |Name(t - 1)| == t;
      }
    }
  }

  lemma TrapIsGenuine(cfg: Config, x: Vec, t: nat, n: nat)
    requires Usable(cfg, x) && 0 < t < n
    ensures Genuine(cfg, Trap(x, t, n))
  {
    var log := Trap(x, t, n);
    forall k: nat
      ensures GenuineAt(cfg, log, k)
    {
      if k < n {
        TrapNames(cfg, x, t, n, k);
        TrapName(cfg, x, t, n, k);
        var s := State(cfg, log[..k]);
        if k == t {
          assert IsDeletion(s, [log[k]]);
        } else {
          assert |Name(k)| == k + 1;
          assert IsInsertion(cfg, s, [log[k]]);
        }
      }
    }
  }

  /** Replaying the first t operations brings name t - 1 back and takes nothing away. */
  lemma {:induction false} TrapAgain(cfg: Config, x: Vec, t: nat, n: nat, k: nat, m: Vectors, id: Id)
    requires Usable(cfg, x) && 0 < t < n && k <= t && id in m
    ensures var s := ApplyAll(cfg, m, Trap(x, t, n)[..k]); id in s && (k == t ==> Name(t - 1) in s)
  {
    if k > 0 {
      TrapAgain(cfg, x, t, n, k - 1, m, id);
      var ops := Trap(x, t, n);
      assert ops[..k][..k - 1] == ops[..k - 1] && ops[..k][k - 1] == ops[k - 1] == Upsert(Name(k - 1), x);
      assert Storable(cfg, Name(k - 1), x);
    }
  }

  /** A restart that has just saved its snapshot over a WAL of n operations. */
  ghost function TrapWorld(p: Protocol, x: Vec, t: nat, n: nat, synced: nat): World
    requires 0 < t
  {
    var wal := Trap(x, t, n);
    World(Disk(Some(State(p.cfg, wal)), wal, synced), Resaved(State(p.cfg, wal)), 0, 0, wal, 0, 0, n, 0)
  }

  lemma TrapWorldIsOk(p: Protocol, x: Vec, t: nat, n: nat, synced: nat)
    requires p.syncEvery > 0 && 0 < t < n && synced <= n
    ensures Inv(p, TrapWorld(p, x, t, n, synced))
  {
    var wal := Trap(x, t, n);
    assert wal[..n] == wal && wal[0..] == wal;
    StateIsSound(p, wal);
    SaveThenLoad(p.cfg, State(p.cfg, wal));
  }

  /** The result has both the deleted name and the one that was inserted after the deletion. */
  lemma MixedIsNew(cfg: Config, x: Vec, t: nat, n: nat)
    requires Usable(cfg, x) && 0 < t && t + 2 <= n
    ensures var log := Trap(x, t, n); var mixed := ApplyAll(cfg, State(cfg, log), log[..t]);
      forall k | 0 <= k <= n :: mixed != State(cfg, log[..k])
  {
    var log := Trap(x, t, n);
    LaterIsKept(cfg, x, t, n, n);
    assert log[..n] == log;
    TrapAgain(cfg, x, t, n, t, State(cfg, log), Name(t + 1));
    forall k | 0 <= k <= n
      ensures ApplyAll(cfg, State(cfg, log), log[..t]) != State(cfg, log[..k])
    {
      TrapNames(cfg, x, t, n, k);
      TrapName(cfg, x, t, n, k);
      assert |Name(t + 1)| == t + 2;
    }
  }

  lemma TrapCloses(p: Protocol, x: Vec, t: nat, n: nat, synced: nat)
    requires Usable(p.cfg, x) && 0 < t && t + 2 <= n && synced <= t
    ensures FitsNoPrefix(p, TrapWorld(p, x, t, n, synced), t)
  {
    var log := Trap(x, t, n);
    MixedIsNew(p.cfg, x, t, n);
    StateIsSound(p, log);
    SaveThenLoad(p.cfg, State(p.cfg, log));
    assert Recover(p.cfg, Step(p, TrapWorld(p, x, t, n, synced), PowerLoss(t)).disk) == ApplyAll(p.cfg, State(p.cfg, log), log[..t]);
  }

  /** In every shape that is not harmless, some history of calls makes a power loss mix two states into one that never existed. */
  lemma HarmfulRestore(p: Protocol, x: Vec, n: nat, synced: nat) returns (w: World, survivors: nat)
    requires p.syncEvery > 0 && Usable(p.cfg, x) && synced <= n && !HarmlessShape(n, synced)
    ensures Inv(p, w) && Genuine(p.cfg, w.log) && w.snap - w.base == n && w.disk.synced == synced
    ensures FitsNoPrefix(p, w, survivors)
  {
    survivors := if synced == 0 then 1 else synced;
    w := TrapWorld(p, x, survivors, n, synced);
    TrapWorldIsOk(p, x, survivors, n, synced);
    TrapIsGenuine(p.cfg, x, survivors, n);
    TrapCloses(p, x, survivors, n, synced);
  }

  lemma {:induction false} LaterIsKept(cfg: Config, x: Vec, t: nat, n: nat, k: nat)
    requires Usable(cfg, x) && 0 < t && t + 2 <= k <= n
    ensures Name(t + 1) in State(cfg, Trap(x, t, n)[..k])
  {
    var ops := Trap(x, t, n);
    assert ops[..k][..k - 1] == ops[..k - 1] && ops[..k][k - 1] == ops[k - 1] == Upsert(Name(k - 1), x);
    assert Storable(cfg, Name(k - 1), x);
    if k > t + 2 {
      LaterIsKept(cfg, x, t, n, k - 1);
    }
  }

  /** A call that a snapshot of the whole map follows, which empties the WAL, or that is acknowledged, or whose snapshot fails. */
  ghost function DeleteSteps(p: Protocol, id: Id): seq<Event> {
    if p.snapshotEvery > 1 then [Write([Delete(id)])] + [FinishAppend] + [SkipSnapshot]
    else [Write([Delete(id)])] + [FinishAppend] + [SyncForSnapshot] + [FailSave]
  }

  const BOOT := [Load] + [Resave] + [TruncateAfterRestore]

  /** The first process dies after its first write. */
  lemma WriteFirst(p: Protocol, w: World, op: Op)
    requires Init(p, w) && IsCall(p.cfg, map[], [op])
    ensures Lawful(p, w, BOOT + [Write([op])] + [Kill])
    ensures After(p, w, BOOT + [Write([op])] + [Kill]) == World(Disk(Some(map[]), [op], 0), Down, 1, 0, [op], 0, 0, 0, 0)
  {
    Restart(p, w);
    assert Recover(p.cfg, w.disk) == map[];
    RunMore(p, w, BOOT, Write([op]));
    RunMore(p, w, BOOT + [Write([op])], Kill);
  }

  /** The next one restarts, which puts that write into the snapshot. */
  lemma StoreFirst(p: Protocol, w: World, x: Vec)
    requires Init(p, w) && Usable(p.cfg, x)
    ensures var events := BOOT + [Write([Upsert(Name(0), x)])] + [Kill] + BOOT; var m := map[Name(0) := ToFloat32(p.cfg.narrow, x)];
      && Lawful(p, w, events) && (forall i | 0 <= i < |events| :: !IsFailure(events[i]))
      && After(p, w, events) == World(Disk(Some(m), [], 0), Up(m), 0, 0, [Upsert(Name(0), x)], 0, 1, 1, 0)
  {
    var op := Upsert(Name(0), x);
    assert IsInsertion(p.cfg, map[], [op]);
    WriteFirst(p, w, op);
    OneOp(p.cfg, map[], op);
    assert Loaded(p.cfg, Some(map[])) == map[];
    Restart(p, After(p, w, BOOT + [Write([op])] + [Kill]));
    RunThen(p, w, BOOT + [Write([op])] + [Kill], BOOT);
  }

  lemma OneOp(cfg: Config, m: Vectors, op: Op)
    ensures ApplyAll(cfg, m, [op]) == Apply(cfg, m, op)
  {
    assert [op][..0] == [];
  }

  /** The steps in which something other than the process itself fails. */
  predicate IsFailure(e: Event) {
    e.FailSync? || e.FailSave? || e.FailTruncate? || e.FailResave? || e.FailTruncateRestore? || LoadFails(e)
  }

  ghost predicate Fresh(w: World, id: Id) {
    && w.phase.Up? && id in w.phase.m && !IsBlank(id)
    && w.disk.wal == [] && w.disk.synced == 0 && w.pending == 0 && w.persistOps == 0
  }

  /** The delete is in the WAL, synced or not, and the snapshot is as before. */
  ghost predicate Deleted(w: World, w': World, id: Id)
    requires w.phase.Up?
  {
    && w'.phase == Up(w.phase.m - {id}) && w'.log == w.log + [Delete(id)] && w'.base == w.base && w'.snap == w.snap
    && w'.disk.snapshot == w.disk.snapshot && w'.disk.wal == [Delete(id)] && w'.disk.synced <= 1
  }

  lemma DeleteAppended(p: Protocol, w: World, id: Id)
    requires Fresh(w, id) && p.syncEvery > 0
    ensures var events := [Write([Delete(id)])] + [FinishAppend];
      && Lawful(p, w, events) && After(p, w, events).phase == Appended(w.phase.m - {id})
      && Deleted(w, After(p, w, events).(phase := Up(w.phase.m - {id})), id) && After(p, w, events).persistOps == 0
  {
    var ops := [Delete(id)];
    assert IsDeletion(w.phase.m, ops);
    OneOp(p.cfg, w.phase.m, Delete(id));
    RunOne(p, w, Write(ops));
    RunMore(p, w, [Write(ops)], FinishAppend);
  }

  lemma DeleteFirst(p: Protocol, w: World, id: Id)
    requires Fresh(w, id) && p.syncEvery > 0
    ensures Lawful(p, w, DeleteSteps(p, id)) && Deleted(w, After(p, w, DeleteSteps(p, id)), id)
    ensures p.snapshotEvery > 1 ==> forall i | 0 <= i < |DeleteSteps(p, id)| :: !IsFailure(DeleteSteps(p, id)[i])
  {
    DeleteAppended(p, w, id);
    var appended := [Write([Delete(id)])] + [FinishAppend];
    if p.snapshotEvery > 1 {
      RunMore(p, w, appended, SkipSnapshot);
    } else {
      RunMore(p, w, appended, SyncForSnapshot);
      RunMore(p, w, appended + [SyncForSnapshot], FailSave);
    }
  }

  /** A process that dies during a write, and a restart that gets as far as saving its snapshot. */
  lemma WriteDieRestart(p: Protocol, w: World, batch: seq<Op>)
    requires Enabled(p, w, Write(batch))
    ensures var events := [Write(batch)] + [Kill] + [Load] + [Resave]; var disk := w.disk.Flush(batch);
      && Lawful(p, w, events)
      && After(p, w, events) == w.(disk := disk.Save(Recover(p.cfg, disk)), phase := Resaved(Recover(p.cfg, disk)), pending := 0,
           log := w.log + batch, snap := |w.log + batch|)
  {
    RunOne(p, w, Write(batch));
    RunMore(p, w, [Write(batch)], Kill);
    RunMore(p, w, [Write(batch)] + [Kill], Load);
    RunMore(p, w, [Write(batch)] + [Kill] + [Load], Resave);
  }

  ghost function AddSteps(a: Id, b: Id, x: Vec): seq<Event> {
    [Write([Upsert(a, x), Upsert(b, x)])] + [Kill] + [Load] + [Resave]
  }

  /** With a in the snapshot and its delete in the WAL, a process dies while adding a and b, and the next one restarts. */
  lemma AddBoth(p: Protocol, w: World, a: Id, b: Id, x: Vec)
    requires a != b && !IsBlank(a) && !IsBlank(b) && Usable(p.cfg, x)
    requires w.phase == Up(map[]) && w.log == [Upsert(a, x), Delete(a)] && w.disk.wal == [Delete(a)] && w.disk.synced <= 1
    requires w.disk.snapshot == Some(map[a := ToFloat32(p.cfg.narrow, x)])
    ensures Lawful(p, w, AddSteps(a, b, x)) && FitsNoPrefix(p, After(p, w, AddSteps(a, b, x)), 1)
  {
    var batch := [Upsert(a, x), Upsert(b, x)];
    assert IsInsertion(p.cfg, map[], batch);
    WriteDieRestart(p, w, batch);
    var w' := After(p, w, AddSteps(a, b, x));
    assert w'.log == Story(a, b, x) && w'.disk.wal == w'.log[1..];
    OneIsLoaded(p.cfg, a, x);
    MixedState(p, w', a, b, x);
  }

  /**
    A harmful state is reachable when snapshots are not taken after every call, or when a step
    fails: with name 0 in the snapshot, delete it, die while adding it again together with
    another, restart, and lose power with only the delete on disk.
   */
  lemma HarmfulRestoreIsReachable(p: Protocol, w: World, x: Vec) returns (events: seq<Event>)
    requires Init(p, w) && Usable(p.cfg, x)
    ensures Lawful(p, w, events) && FitsNoPrefix(p, After(p, w, events), 1)
    ensures p.snapshotEvery > 1 ==> forall i | 0 <= i < |events| :: !IsFailure(events[i])
  {
    var a, b := Name(0), Name(1);
    assert |a| == 1 && |b| == 2;
    var first := BOOT + [Write([Upsert(a, x)])] + [Kill] + BOOT;
    StoreFirst(p, w, x);
    var w1 := After(p, w, first);
    DeleteFirst(p, w1, a);
    RunThen(p, w, first, DeleteSteps(p, a));
    var w2 := After(p, w1, DeleteSteps(p, a));
    assert w1.phase.m - {a} == map[];
    AddBoth(p, w2, a, b, x);
    RunThen(p, w, first + DeleteSteps(p, a), AddSteps(a, b, x));
    events := first + DeleteSteps(p, a) + AddSteps(a, b, x);
  }

  lemma OneIsLoaded(cfg: Config, id: Id, x: Vec)
    requires Storable(cfg, id, x)
    ensures var m := map[id := ToFloat32(cfg.narrow, x)]; Loaded(cfg, Some(m)) == m
  {
    NarrowTwice(cfg.narrow, x);
  }

  /** a added and deleted, then a and b added. */
  ghost function Story(a: Id, b: Id, x: Vec): seq<Op> {
    [Upsert(a, x), Delete(a), Upsert(a, x), Upsert(b, x)]
  }

  lemma StoryStates(cfg: Config, a: Id, b: Id, x: Vec, k: nat)
    requires a != b && Storable(cfg, a, x) && Storable(cfg, b, x) && k <= 4
    ensures State(cfg, Story(a, b, x)[..k]) == var v := ToFloat32(cfg.narrow, x);
      if k == 0 || k == 2 then map[] else if k == 4 then map[a := v, b := v] else map[a := v]
  {
    var log := Story(a, b, x);
    if k > 0 {
      StoryStates(cfg, a, b, x, k - 1);
      assert log[..k][..k - 1] == log[..k - 1] && log[..k][k - 1] == log[k - 1];
    }
  }

  /** Replaying the delete alone over {a, b} leaves {b}, which no prefix of the story does. */
  lemma MixedState(p: Protocol, w: World, a: Id, b: Id, x: Vec)
    requires a != b && Storable(p.cfg, a, x) && Storable(p.cfg, b, x)
    requires w.log == Story(a, b, x) && w.disk.wal == w.log[1..] && w.disk.synced <= 1
    requires w.disk.snapshot == Some(ApplyAll(p.cfg, map[a := ToFloat32(p.cfg.narrow, x)], w.disk.wal))
    ensures forall k | 0 <= k <= |w.log| :: Recover(p.cfg, Step(p, w, PowerLoss(1)).disk) != State(p.cfg, w.log[..k])
  {
    var v, log := ToFloat32(p.cfg.narrow, x), w.log;
    StoryStates(p.cfg, a, b, x, 1);
    StoryStates(p.cfg, a, b, x, 4);
    assert log == log[..1] + w.disk.wal && log[..4] == log;
    ApplyAppended(p.cfg, map[], log[..1], w.disk.wal);
    assert w.disk.snapshot == Some(map[a := v, b := v]);
    DeleteAlone(p.cfg, a, b, x);
    assert w.disk.wal[..1] == [Delete(a)];
    forall k | 0 <= k <= |log|
      ensures State(p.cfg, log[..k]) != map[b := v]
    {
      StoryStates(p.cfg, a, b, x, k);
      assert a !in map[b := v] && b in map[b := v];
    }
  }

  lemma DeleteAlone(cfg: Config, a: Id, b: Id, x: Vec)
    requires a != b && Storable(cfg, a, x) && Storable(cfg, b, x)
    ensures var v := ToFloat32(cfg.narrow, x); ApplyAll(cfg, Loaded(cfg, Some(map[a := v, b := v])), [Delete(a)]) == map[b := v]
  {
    NarrowTwice(cfg.narrow, x);
    var v := ToFloat32(cfg.narrow, x);
    assert Loaded(cfg, Some(map[a := v, b := v])) == map[a := v, b := v];
    OneOp(cfg, map[a := v, b := v], Delete(a));
  }

  /**
    When a snapshot follows every call, the WAL holds at most part of one call, and the snapshot
    either none or all of it.
   */
  ghost predicate OneCallAtATime(p: Protocol, w: World) {
    && w.disk.Valid() && w.base + |w.disk.wal| <= |w.log| && w.disk.wal == w.log[w.base..w.base + |w.disk.wal|]
    && (w.base < |w.log| ==> IsCall(p.cfg, State(p.cfg, w.log[..w.base]), w.log[w.base..]))
    && (w.snap == |w.log| || (w.snap == w.base && w.base + |w.disk.wal| == |w.log|))
    && Loaded(p.cfg, w.disk.snapshot) == State(p.cfg, w.log[..w.snap])
    && w.acked <= w.base
    && (!w.phase.Down? ==> w.phase.m == State(p.cfg, w.log))
    && (w.phase.Up? ==> w.base == |w.log|)
    && (w.phase.Resaved? || w.phase.Snapshotted? ==> w.snap == |w.log|)
  }

  lemma OneCallRecovers(p: Protocol, w: World)
    requires OneCallAtATime(p, w)
    ensures Recover(p.cfg, w.disk) == State(p.cfg, w.log)
  {
    var head, call, n := w.log[..w.base], w.log[w.base..], |w.disk.wal|;
    assert w.log == head + call && w.disk.wal == call[..n] && w.log[..|w.log|] == w.log;
    ApplyAppended(p.cfg, map[], head, call);
    if w.base == |w.log| {
      assert call == [] && head == w.log;
    } else if w.snap == |w.log| {
      ReplayPartOfCall(p.cfg, State(p.cfg, head), call, n);
    } else {
      assert call[..n] == call;
    }
  }

  lemma WriteIsOneCall(p: Protocol, w: World, batch: seq<Op>)
    requires OneCallAtATime(p, w) && Enabled(p, w, Write(batch))
    ensures OneCallAtATime(p, Step(p, w, Write(batch)))
  {
    var w' := Step(p, w, Write(batch));
    assert w.disk.wal == [] && w.log[..w.base] == w.log;
    assert w'.log[..w.base] == w.log && w'.log[w.base..] == batch;
    ApplyAppended(p.cfg, map[], w.log, batch);
  }

  lemma PowerLossInOneCall(p: Protocol, w: World, survivors: nat)
    requires OneCallAtATime(p, w) && Enabled(p, w, PowerLoss(survivors))
    ensures var w' := Step(p, w, PowerLoss(survivors)); OneCallAtATime(p, w') && w'.log <= w.log && |w'.log| >= w.base + w.disk.synced && w'.acked == w.acked
  {
    var w' := Step(p, w, PowerLoss(survivors));
    assert w.disk.wal[..survivors] == w.log[w.base..w.base + survivors];
    assert w'.log[..w.base] == w.log[..w.base] && w'.log[..w'.snap] == w.log[..w.snap];
    if w.snap == |w.log| {
      assert w'.log == w.log;
    } else {
      assert w'.log == w.log[..w.base + survivors];
      if survivors > 0 {
        PrefixIsCall(p.cfg, State(p.cfg, w.log[..w.base]), w.log[w.base..], survivors);
        assert w'.log[w.base..] == w.log[w.base..][..survivors];
      }
    }
  }

  lemma SaveInOneCall(p: Protocol, w: World, e: Event)
    requires OneCallAtATime(p, w) && Enabled(p, w, e) && (e.SaveSnapshot? || e.Resave?)
    ensures OneCallAtATime(p, Step(p, w, e))
  {
    StateIsSound(p, w.log);
    SaveThenLoad(p.cfg, w.phase.m);
    assert w.log[..|w.log|] == w.log;
  }

  lemma OneCallStep(p: Protocol, w: World, e: Event)
    requires p.snapshotEvery <= 1 && OneCallAtATime(p, w) && Enabled(p, w, e) && !IsFailure(e)
    ensures OneCallAtATime(p, Step(p, w, e))
  {
    match e
    case Write(batch) => WriteIsOneCall(p, w, batch);
    case SaveSnapshot => SaveInOneCall(p, w, e);
    case Resave => SaveInOneCall(p, w, e);
    case Load => OneCallRecovers(p, w);
    case PowerLoss(survivors) => PowerLossInOneCall(p, w, survivors);
    case _ =>
  }

  ghost function Reached(p: Protocol, w: World, events: seq<Event>): World
    requires EnabledRun(p, w, events)
    decreases |events|
  {
    if events == [] then w else Reached(p, Step(p, w, events[0]), events[1..])
  }

  lemma {:induction false} OneCallRun(p: Protocol, w: World, events: seq<Event>)
    requires p.snapshotEvery <= 1 && OneCallAtATime(p, w) && EnabledRun(p, w, events)
    requires forall i | 0 <= i < |events| :: !IsFailure(events[i])
    ensures OneCallAtATime(p, Reached(p, w, events))
    decreases |events|
  {
    if events != [] {
      OneCallStep(p, w, events[0]);
      OneCallRun(p, Step(p, w, events[0]), events[1..]);
    }
  }

  /**
    So when a snapshot follows every call and no step fails, nothing acknowledged is ever lost and
    every restart computes the map after a prefix of the history, through any number of kills and
    of power losses at any points.
   */
  lemma SnapshotEveryCallLosesNothing(p: Protocol, w: World, events: seq<Event>, survivors: nat)
    requires Init(p, w) && p.snapshotEvery <= 1 && EnabledRun(p, w, events) && forall i | 0 <= i < |events| :: !IsFailure(events[i])
    requires Enabled(p, Reached(p, w, events), PowerLoss(survivors))
    ensures var before := Reached(p, w, events); var after := Step(p, before, PowerLoss(survivors));
      && after.log <= before.log && |after.log| >= before.base + before.disk.synced && before.acked <= |after.log|
      && Recover(p.cfg, after.disk) == State(p.cfg, after.log)
  {
    OneCallRun(p, w, events);
    var before := Reached(p, w, events);
    PowerLossInOneCall(p, before, survivors);
    OneCallRecovers(p, Step(p, before, PowerLoss(survivors)));
  }

  /** What one kill and one failed restart add to the operations that a power loss may take beyond syncEvery. */
  lemma InheritedGrows(p: Protocol, w: World)
    requires Inv(p, w) && w.phase.Up?
    ensures var events := [Kill] + [Load] + [FailResave];
      && Lawful(p, w, events)
      && After(p, w, events) == w.(pending := 0, persistOps := 0, inherited := w.inherited + w.pending)
      && After(p, w, events).inherited < w.inherited + p.syncEvery
  {
    RecoverIsState(p, w);
    RunOne(p, w, Kill);
    RunMore(p, w, [Kill], Load);
    RunMore(p, w, [Kill] + [Load], FailResave);
  }

  /** One append that is acknowledged without a snapshot being due. */
  lemma WriteAndAcknowledge(p: Protocol, w: World, batch: seq<Op>)
    requires Enabled(p, w, Write(batch)) && w.pending + |batch| < p.syncEvery && w.persistOps + 1 < p.snapshotEvery
    ensures Lawful(p, w, [Write(batch)] + [FinishAppend] + [SkipSnapshot])
    ensures After(p, w, [Write(batch)] + [FinishAppend] + [SkipSnapshot])
      == w.(disk := w.disk.Flush(batch), pending := w.pending + |batch|, persistOps := w.persistOps + 1, log := w.log + batch,
            phase := Up(ApplyAll(p.cfg, w.phase.m, batch)), acked := |w.log + batch|)
  {
    RunOne(p, w, Write(batch));
    RunMore(p, w, [Write(batch)], FinishAppend);
    RunMore(p, w, [Write(batch)] + [FinishAppend], SkipSnapshot);
  }

  /** One insertion of n new names. */
  ghost function NewNames(x: Vec, from: nat, n: nat): (r: seq<Op>)
    ensures |r| == n && forall i | 0 <= i < n :: r[i] == Upsert(Name(from + i), x)
  {
    seq(n, i requires 0 <= i < n => Upsert(Name(from + i), x))
  }

  ghost predicate NamesBelow(m: Vectors, x: Vec, from: nat) {
    forall id | id in m :: |id| <= from && |m[id]| == |x|
  }

  lemma NewNamesAreACall(cfg: Config, m: Vectors, x: Vec, from: nat, n: nat)
    requires Usable(cfg, x) && NamesBelow(m, x, from) && n > 0
    ensures IsCall(cfg, m, NewNames(x, from, n))
  {
    var ops := NewNames(x, from, n);
    forall i: nat
      ensures Inserts(cfg, m, ops, i)
    {
      assert i < n ==> |ops[i].id| == from + i + 1;
    }
    forall i: nat, j: nat
      ensures AreDistinct(ops, i, j)
    {
      assert i < j < n ==> |ops[i].id| == from + i + 1 && |ops[j].id| == from + j + 1;
    }
    assert IsInsertion(cfg, m, ops);
  }

  lemma {:induction false} NewNamesStayBelow(cfg: Config, m: Vectors, x: Vec, from: nat, n: nat, k: nat)
    requires Usable(cfg, x) && NamesBelow(m, x, from) && k <= n
    ensures NamesBelow(ApplyAll(cfg, m, NewNames(x, from, n)[..k]), x, from + n)
  {
    if k > 0 {
      NewNamesStayBelow(cfg, m, x, from, n, k - 1);
      var ops := NewNames(x, from, n);
      assert ops[..k][..k - 1] == ops[..k - 1] && ops[..k][k - 1] == ops[k - 1];
      assert |ops[k - 1].id| == from + k;
    }
  }

  /**
    So after a kill and a failed restart the bound of syncEvery no longer holds: a restarted
    process counts from zero over an unsynced WAL, and acknowledges syncEvery - 1 operations more.
   */
  lemma FailedRestartLosesMore(p: Protocol, w: World, x: Vec) returns (events: seq<Event>)
    requires Init(p, w) && p.syncEvery > 1 && p.snapshotEvery > 1 && Usable(p.cfg, x)
    ensures Lawful(p, w, events) && Safe(After(p, w, events)) && Enabled(p, After(p, w, events), PowerLoss(0))
    ensures After(p, w, events).acked == 2 * (p.syncEvery - 1) >= p.syncEvery
    ensures Step(p, After(p, w, events), PowerLoss(0)).log == []
  {
    var n := p.syncEvery - 1;
    var one, two := NewNames(x, 0, n), NewNames(x, n, n);
    var w1 := InheritFirst(p, w, x);
    NewNamesStayBelow(p.cfg, map[], x, 0, n, n);
    assert one[..n] == one;
    NewNamesAreACall(p.cfg, w1.phase.m, x, n, n);
    WriteAndAcknowledge(p, w1, two);
    var first := BOOT + CallSteps(one) + ([Kill] + [Load] + [FailResave]);
    RunThen(p, w, first, CallSteps(two));
    events := first + CallSteps(two);
  }

  /** One acknowledged call of syncEvery - 1 operations, a kill, and a restart that fails. */
  lemma InheritFirst(p: Protocol, w: World, x: Vec) returns (w': World)
    requires Init(p, w) && p.syncEvery > 1 && p.snapshotEvery > 1 && Usable(p.cfg, x)
    ensures var one := NewNames(x, 0, p.syncEvery - 1); var events := BOOT + CallSteps(one) + ([Kill] + [Load] + [FailResave]);
      && Lawful(p, w, events) && w' == After(p, w, events)
      && w' == World(Disk(Some(map[]), one, 0), Up(State(p.cfg, one)), 0, 0, one, |one|, 0, 0, |one|)
  {
    var one := NewNames(x, 0, p.syncEvery - 1);
    Restart(p, w);
    RunKeepsInv(p, w, BOOT);
    var up := After(p, w, BOOT);
    assert up.phase.m == map[];
    NewNamesAreACall(p.cfg, map[], x, 0, p.syncEvery - 1);
    WriteAndAcknowledge(p, up, one);
    RunThen(p, w, BOOT, CallSteps(one));
    RunKeepsInv(p, up, CallSteps(one));
    var first := After(p, up, CallSteps(one));
    assert first.disk.wal == one && first.log == one;
    InheritedGrows(p, first);
    RunThen(p, w, BOOT + CallSteps(one), [Kill] + [Load] + [FailResave]);
    w' := After(p, first, [Kill] + [Load] + [FailResave]);
  }

  ghost function CallSteps(batch: seq<Op>): seq<Event> {
    [Write(batch)] + [FinishAppend] + [SkipSnapshot]
  }

  /** A restart that cannot read its files serves an empty store over a full disk: consistent only if nothing was stored. */
  lemma FailedLoadIsInconsistent(p: Protocol, w: World)
    requires Inv(p, w) && w.phase.Down?
    ensures Inv(p, Step(p, w, FailLoad)) <==> State(p.cfg, w.log) == map[]
  {
  }

  /** A restart whose replay stops at a line it cannot read is consistent only if the rest of the log changes nothing. */
  lemma StoppedReplayIsInconsistent(p: Protocol, w: World, k: nat)
    requires Inv(p, w) && w.phase.Down? && k <= |w.disk.wal|
    ensures Inv(p, Step(p, w, FailReplay(k)))
      <==> ApplyAll(p.cfg, Loaded(p.cfg, w.disk.snapshot), w.disk.wal[..k]) == ApplyAll(p.cfg, Loaded(p.cfg, w.disk.snapshot), w.disk.wal)
  {
    RecoverIsState(p, w);
  }

  /**
    The next snapshot that is due makes the loss permanent: the disk then holds what such a
    restart kept and what was written since, as if the rest had never been written. A failed load
    keeps nothing; a stopped replay keeps the snapshot and k operations.
   */
  lemma FailedLoadForgets(p: Protocol, w: World, kept: Vectors, since: seq<Op>, batch: seq<Op>) returns (w': World)
    requires Sound(p.cfg, kept) && w.phase == Up(ApplyAll(p.cfg, kept, since)) && w.persistOps + 1 >= p.snapshotEvery
    requires IsCall(p.cfg, w.phase.m, batch)
    ensures var events := [Write(batch)] + [FinishAppend] + [SyncForSnapshot] + [SaveSnapshot] + [TruncateAfterSnapshot];
      && Lawful(p, w, events) && w' == After(p, w, events)
    ensures Recover(p.cfg, w'.disk) == ApplyAll(p.cfg, kept, since + batch) && w'.log == w.log + batch
  {
    RunOne(p, w, Write(batch));
    RunMore(p, w, [Write(batch)], FinishAppend);
    RunMore(p, w, [Write(batch)] + [FinishAppend], SyncForSnapshot);
    RunMore(p, w, [Write(batch)] + [FinishAppend] + [SyncForSnapshot], SaveSnapshot);
    RunMore(p, w, [Write(batch)] + [FinishAppend] + [SyncForSnapshot] + [SaveSnapshot], TruncateAfterSnapshot);
    w' := After(p, w, [Write(batch)] + [FinishAppend] + [SyncForSnapshot] + [SaveSnapshot] + [TruncateAfterSnapshot]);
    ApplyAppended(p.cfg, kept, since, batch);
    AppliedIsSound(p.cfg, kept, since + batch);
    SaveThenLoad(p.cfg, ApplyAll(p.cfg, kept, since + batch));
  }
}
