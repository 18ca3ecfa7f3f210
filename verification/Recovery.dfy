/**
  Durability over whole runs: the append, snapshot and restore protocols as the single steps
  they take on the disk, with a crash possible between any two of them
  (internal/core/service.go, internal/core/persistence.go).
 */
module Recovery {
  import opened Ordering
  import opened Distance
  import opened Wal
  import opened ServiceCalls

  /** Where the process is; `m` is the map in memory. */
  datatype Phase =
    | Down
    | Replayed(m: Vectors)
    | Resaved(m: Vectors)
    | Up(m: Vectors)
    | Written(m: Vectors)
    | Appended(m: Vectors)
    | Synced(m: Vectors)
    | Snapshotted(m: Vectors)

  datatype Protocol = Protocol(cfg: Config, syncEvery: nat, snapshotEvery: int)

  /**
    The process and its disk, with a history: every operation ever written and not lost, how
    many of them up to the last acknowledged one, how many are gone from the WAL, how many the
    snapshot includes, and how many unsynced ones this process inherited without counting them.
   */
  datatype World = World(disk: Disk, phase: Phase, pending: nat, persistOps: nat,
                         log: seq<Op>, acked: nat, base: nat, snap: nat, inherited: nat)

  /** Each step of append, snapshot and restore, its failure without effect, and the two ways to die. */
  datatype Event =
    | Write(batch: seq<Op>)
    | FinishAppend
    | SkipSnapshot
    | SyncForSnapshot
    | FailSync
    | SaveSnapshot
    | FailSave
    | TruncateAfterSnapshot
    | FailTruncate
    | SyncOnClose
    | Load
    | FailLoad
    | FailReplay(k: nat)
    | Resave
    | FailResave
    | TruncateAfterRestore
    | FailTruncateRestore
    | PowerLoss(survivors: nat)
    | Kill

  /** A write is what one call of the service logs at the map in memory. */
  ghost predicate Enabled(p: Protocol, w: World, e: Event) {
    match e
    case Write(batch) => w.phase.Up? && IsCall(p.cfg, w.phase.m, batch)
    case FinishAppend => w.phase.Written?
    case SkipSnapshot => w.phase.Appended? && w.persistOps + 1 < p.snapshotEvery
    case SyncForSnapshot => w.phase.Appended? && w.persistOps + 1 >= p.snapshotEvery
    case FailSync => w.phase.Appended? && w.persistOps + 1 >= p.snapshotEvery && w.pending != 0
    case SaveSnapshot => w.phase.Synced?
    case FailSave => w.phase.Synced?
    case TruncateAfterSnapshot => w.phase.Snapshotted?
    case FailTruncate => w.phase.Snapshotted?
    case SyncOnClose => w.phase.Up?
    case Load => w.phase.Down?
    case FailLoad => w.phase.Down?
    case FailReplay(k) => w.phase.Down? && k <= |w.disk.wal|
    case Resave => w.phase.Replayed?
    case FailResave => w.phase.Replayed?
    case TruncateAfterRestore => w.phase.Resaved?
    case FailTruncateRestore => w.phase.Resaved?
    case PowerLoss(survivors) => w.disk.synced <= survivors <= |w.disk.wal|
    case Kill => true
  }

  /** A restart that did not read all that is on disk: the snapshot unreadable, or the replay stopped after k operations. */
  predicate LoadFails(e: Event) {
    e.FailLoad? || e.FailReplay?
  }

  function FsyncIf(w: World, due: bool): World {
    if due then w.(disk := w.disk.Fsync(), pending := 0, inherited := 0) else w
  }

  /** NewService ignores an error of restoreState and runs on with what it has, and with no operation counted as pending. */
  function RunOn(w: World, m: Vectors): World {
    w.(phase := Up(m), pending := 0, persistOps := 0, inherited := Unsynced(w.disk))
  }

  function Unsynced(disk: Disk): nat {
    if disk.synced < |disk.wal| then |disk.wal| - disk.synced else 0
  }

  /** How many operations of the history survive when the WAL keeps `survivors` of its own. */
  function Kept(w: World, survivors: nat): nat {
    if w.snap > w.base + survivors then w.snap else w.base + survivors
  }

  ghost function Step(p: Protocol, w: World, e: Event): World
    requires Enabled(p, w, e)
  {
    match e
    case Write(batch) =>
      w.(disk := w.disk.Flush(batch), pending := w.pending + |batch|, log := w.log + batch, phase := Written(ApplyAll(p.cfg, w.phase.m, batch)))
    case FinishAppend => FsyncIf(w, w.pending >= p.syncEvery).(phase := Appended(w.phase.m))
    case SkipSnapshot => w.(persistOps := w.persistOps + 1, phase := Up(w.phase.m), acked := |w.log|)
    case SyncForSnapshot => FsyncIf(w, w.pending != 0).(persistOps := w.persistOps + 1, phase := Synced(w.phase.m))
    case FailSync => w.(persistOps := w.persistOps + 1, phase := Up(w.phase.m))
    case SaveSnapshot => w.(disk := w.disk.Save(w.phase.m), phase := Snapshotted(w.phase.m), snap := |w.log|)
    case FailSave => w.(phase := Up(w.phase.m))
    case TruncateAfterSnapshot =>
      w.(disk := w.disk.Truncate(), pending := 0, persistOps := 0, phase := Up(w.phase.m), acked := |w.log|, base := |w.log|, inherited := 0)
    case FailTruncate => w.(phase := Up(w.phase.m))
    case SyncOnClose => FsyncIf(w, w.pending != 0)
    case Load => w.(phase := Replayed(Recover(p.cfg, w.disk)), pending := 0)
    case FailLoad => RunOn(w, map[])
    case FailReplay(k) => RunOn(w, ApplyAll(p.cfg, Loaded(p.cfg, w.disk.snapshot), w.disk.wal[..k]))
    case Resave => w.(disk := w.disk.Save(w.phase.m), phase := Resaved(w.phase.m), snap := |w.log|)
    case FailResave => RunOn(w, w.phase.m)
    case TruncateAfterRestore =>
      w.(disk := w.disk.Truncate(), pending := 0, persistOps := 0, phase := Up(w.phase.m), base := |w.log|, inherited := 0)
    case FailTruncateRestore => RunOn(w, w.phase.m)
    case PowerLoss(survivors) =>
      var kept := Min(Kept(w, survivors), |w.log|);
      w.(disk := Disk(w.disk.snapshot, w.disk.wal[..survivors], survivors), phase := Down, log := w.log[..kept], acked := Min(w.acked, kept), inherited := 0)
    case Kill => w.(phase := Down)
  }

  /** Everything the snapshot includes is gone from the WAL or synced there. */
  ghost predicate Safe(w: World) {
    w.snap <= w.base + w.disk.synced
  }

  ghost predicate DiskOk(p: Protocol, w: World) {
    && w.disk.Valid()
    && w.base + |w.disk.wal| == |w.log| && w.disk.wal == w.log[w.base..]
    && w.base <= w.snap <= |w.log|
    && Loaded(p.cfg, w.disk.snapshot) == State(p.cfg, w.log[..w.snap])
  }

  ghost predicate MemoryOk(p: Protocol, w: World) {
    && (!w.phase.Down? ==> w.phase.m == State(p.cfg, w.log))
    && (w.phase.Resaved? || w.phase.Snapshotted? ==> w.snap == |w.log|)
  }

  predicate Running(phase: Phase) {
    phase.Up? || phase.Written? || phase.Appended? || phase.Synced? || phase.Snapshotted?
  }

  /** Beyond what the process inherited, fewer than syncEvery acknowledged operations are not yet on disk. */
  ghost predicate AcksOk(p: Protocol, w: World) {
    && p.syncEvery > 0 && w.acked <= |w.log|
    && w.acked < w.base + w.disk.synced + w.inherited + p.syncEvery
    && (Running(w.phase) ==> w.pending + w.inherited == |w.disk.wal| - w.disk.synced)
    && (w.phase.Up? || w.phase.Appended? ==> w.pending < p.syncEvery)
    && (w.phase.Synced? || w.phase.Snapshotted? || w.phase.Replayed? || w.phase.Resaved? ==> w.pending == 0)
  }

  ghost predicate Inv(p: Protocol, w: World) {
    DiskOk(p, w) && MemoryOk(p, w) && AcksOk(p, w)
  }

  ghost predicate Init(p: Protocol, w: World) {
    p.syncEvery > 0 && w == World(Disk(None, [], 0), Down, 0, 0, [], 0, 0, 0, 0)
  }

  lemma StateIsSound(p: Protocol, log: seq<Op>)
    ensures Sound(p.cfg, State(p.cfg, log))
  {
    AppliedIsSound(p.cfg, map[], log);
  }

  /** Replaying a WAL over a snapshot that includes the first part of it gives what the WAL gives. */
  lemma ReplayOverlap(cfg: Config, head: seq<Op>, seen: seq<Op>, rest: seq<Op>)
    ensures ApplyAll(cfg, State(cfg, head + seen), seen + rest) == State(cfg, head + (seen + rest))
  {
    ApplyAppended(cfg, map[], head, seen);
    ReplayTwice(cfg, State(cfg, head), seen);
    ApplyAppended(cfg, State(cfg, head + seen), seen, rest);
    ApplyAppended(cfg, State(cfg, head), seen, rest);
    ApplyAppended(cfg, map[], head, seen + rest);
  }

  /** Restoring from the disk of any reachable state gives the map after the whole remaining history. */
  lemma RecoverIsState(p: Protocol, w: World)
    requires DiskOk(p, w)
    ensures Recover(p.cfg, w.disk) == State(p.cfg, w.log)
  {
    var head, seen, rest := w.log[..w.base], w.log[w.base..w.snap], w.log[w.snap..];
    assert w.log[..w.snap] == head + seen && w.disk.wal == seen + rest && w.log == head + (seen + rest);
    ReplayOverlap(p.cfg, head, seen, rest);
  }

  lemma WriteKeepsInv(p: Protocol, w: World, batch: seq<Op>)
    requires Inv(p, w) && Enabled(p, w, Write(batch))
    ensures Inv(p, Step(p, w, Write(batch)))
  {
    var w' := Step(p, w, Write(batch));
    ApplyAppended(p.cfg, map[], w.log, batch);
    assert w'.log[w.base..] == w.log[w.base..] + batch;
    assert w'.log[..w.snap] == w.log[..w.snap];
  }

  lemma SnapshotKeepsInv(p: Protocol, w: World, e: Event)
    requires Inv(p, w) && Enabled(p, w, e) && (e.SaveSnapshot? || e.Resave?)
    ensures Inv(p, Step(p, w, e))
  {
    StateIsSound(p, w.log);
    SaveThenLoad(p.cfg, w.phase.m);
    assert w.log[..|w.log|] == w.log;
  }

  lemma TruncateKeepsInv(p: Protocol, w: World, e: Event)
    requires Inv(p, w) && Enabled(p, w, e) && (e.TruncateAfterSnapshot? || e.TruncateAfterRestore?)
    ensures Inv(p, Step(p, w, e))
  {
    assert w.log[|w.log|..] == [];
  }

  /**
    A power loss in a safe state loses only unsynced operations from the end: what is left is
    a prefix with everything that was synced; of the acknowledged operations fewer than
    syncEvery are missing, besides those that the process inherited unsynced; restore computes
    exactly the map after that prefix.
   */
  lemma PowerLossLosesLittle(p: Protocol, w: World, survivors: nat)
    requires Inv(p, w) && Safe(w) && Enabled(p, w, PowerLoss(survivors))
    ensures var w' := Step(p, w, PowerLoss(survivors));
      && Inv(p, w') && Safe(w')
      && w'.log <= w.log && |w'.log| >= w.base + w.disk.synced && |w'.log| >= w.snap
      && w.acked < |w'.log| + w.inherited + p.syncEvery
      && Recover(p.cfg, w'.disk) == State(p.cfg, w'.log)
  {
    var w' := Step(p, w, PowerLoss(survivors));
    assert |w'.log| == w.base + survivors;
    assert w.disk.wal[..survivors] == w.log[w.base..w.base + survivors];
    assert w'.log[w.base..] == w.disk.wal[..survivors];
    assert w'.log[..w.snap] == w.log[..w.snap];
    RecoverIsState(p, w');
  }

  /** Every step keeps the invariant, a power loss from a safe state included. */
  lemma StepKeepsInv(p: Protocol, w: World, e: Event)
    requires Inv(p, w) && Enabled(p, w, e) && (e.PowerLoss? ==> Safe(w)) && !LoadFails(e)
    ensures Inv(p, Step(p, w, e))
  {
    match e
    case Write(batch) => WriteKeepsInv(p, w, batch);
    case SaveSnapshot => SnapshotKeepsInv(p, w, e);
    case Resave => SnapshotKeepsInv(p, w, e);
    case TruncateAfterSnapshot => TruncateKeepsInv(p, w, e);
    case TruncateAfterRestore => TruncateKeepsInv(p, w, e);
    case Load => RecoverIsState(p, w);
    case PowerLoss(survivors) => PowerLossLosesLittle(p, w, survivors);
    case _ =>
  }

  /** A run in which every event is enabled, every load succeeds, and power is lost only in safe states. */
  ghost predicate Lawful(p: Protocol, w: World, events: seq<Event>)
    decreases |events|
  {
    events == [] ||
    (Enabled(p, w, events[0]) && (events[0].PowerLoss? ==> Safe(w)) && !LoadFails(events[0]) && Lawful(p, Step(p, w, events[0]), events[1..]))
  }

  ghost function After(p: Protocol, w: World, events: seq<Event>): World
    requires Lawful(p, w, events)
    decreases |events|
  {
    if events == [] then w else After(p, Step(p, w, events[0]), events[1..])
  }

  /** Over any lawful run with any number of crashes, every crash point included, the invariant holds. */
  lemma {:induction false} RunKeepsInv(p: Protocol, w: World, events: seq<Event>)
    requires Inv(p, w) && Lawful(p, w, events)
    ensures Inv(p, After(p, w, events))
    decreases |events|
  {
    if events != [] {
      StepKeepsInv(p, w, events[0]);
      RunKeepsInv(p, Step(p, w, events[0]), events[1..]);
    }
  }

  ghost predicate EnabledRun(p: Protocol, w: World, events: seq<Event>)
    decreases |events|
  {
    events == [] || (Enabled(p, w, events[0]) && EnabledRun(p, Step(p, w, events[0]), events[1..]))
  }

  /** What survived a power loss is on disk until restore is over. */
  ghost predicate NeverKilled(w: World) {
    Safe(w) && w.inherited == 0 && (w.phase.Down? || w.phase.Replayed? || w.phase.Resaved? ==> w.disk.synced == |w.disk.wal|)
  }

  /** When the process dies only by losing power, every state is safe, whatever steps fail, so every run is lawful. */
  lemma {:induction false} PowerLossAloneIsSafe(p: Protocol, w: World, events: seq<Event>)
    requires Inv(p, w) && NeverKilled(w) && EnabledRun(p, w, events)
    requires forall i | 0 <= i < |events| :: !events[i].Kill? && !LoadFails(events[i])
    ensures Lawful(p, w, events) && Safe(After(p, w, events)) && After(p, w, events).inherited == 0
    decreases |events|
  {
    if events != [] {
      StepKeepsInv(p, w, events[0]);
      assert NeverKilled(Step(p, w, events[0])) by {
        assert !events[0].Kill? && !LoadFails(events[0]);
      }
      PowerLossAloneIsSafe(p, Step(p, w, events[0]), events[1..]);
    }
  }

  /**
    From a fresh start, through any number of power losses at any points and any number of
    failed syncs, saves and truncations, at restarts too: one more power loss leaves a prefix of the
    history that restore reproduces, short by fewer than syncEvery acknowledged operations.
   */
  lemma AnyCrashRecoversPrefix(p: Protocol, w: World, events: seq<Event>, survivors: nat)
    requires Init(p, w) && EnabledRun(p, w, events) && forall i | 0 <= i < |events| :: !events[i].Kill? && !LoadFails(events[i])
    requires Lawful(p, w, events) ==> Enabled(p, After(p, w, events), PowerLoss(survivors))
    ensures Lawful(p, w, events)
    ensures var before := After(p, w, events); var after := Step(p, before, PowerLoss(survivors));
      && after.log <= before.log && |after.log| >= before.base + before.disk.synced
      && before.acked < |after.log| + p.syncEvery
      && Recover(p.cfg, after.disk) == State(p.cfg, after.log)
  {
    assert Inv(p, w) && NeverKilled(w);
    PowerLossAloneIsSafe(p, w, events);
    RunKeepsInv(p, w, events);
    PowerLossLosesLittle(p, After(p, w, events), survivors);
  }

  /**
    Restore saves the snapshot without syncing the WAL it has just replayed, and a process that
    inherits an unsynced WAL counts none of it as pending. After a process that was killed, the
    snapshot can therefore include operations that are in the WAL but not synced there, and a
    power loss then replays a shorter WAL over a snapshot that is ahead of it. With `length`
    operations of the WAL in the snapshot, `synced` of them on disk, that is harmless exactly
    when at most one is unsynced or there are at most two.
   */
  ghost predicate HarmlessShape(length: nat, synced: nat) {
    synced + 1 >= length || length <= 2
  }

  /** In a harmless shape a power loss leaves what it leaves in a safe state, if not always the longest prefix. */
  lemma HarmlessRestore(p: Protocol, w: World, survivors: nat) returns (k: nat)
    requires Inv(p, w) && Enabled(p, w, PowerLoss(survivors))
    requires HarmlessShape(w.snap - w.base, w.disk.synced)
    ensures k <= |w.log| && Recover(p.cfg, Step(p, w, PowerLoss(survivors)).disk) == State(p.cfg, w.log[..k])
    ensures k >= w.base + w.disk.synced && w.acked < k + w.inherited + p.syncEvery
  {
    if survivors >= w.snap - w.base {
      k := w.base + survivors;
      LongerWal(p, w, survivors);
    } else if survivors == 0 {
      k := w.snap;
    } else {
      k := ShorterByOne(p, w, survivors);
    }
  }

  lemma InThree<T>(s: seq<T>, a: nat, b: nat, c: nat)
    requires a <= b <= c <= |s|
    ensures s[..b] == s[..a] + s[a..b] && s[a..c] == s[a..b] + s[b..c] && s[..c] == s[..a] + (s[a..b] + s[b..c])
  {
  }

  lemma LongerWal(p: Protocol, w: World, survivors: nat)
    requires DiskOk(p, w) && w.snap - w.base <= survivors <= |w.disk.wal|
    ensures Recover(p.cfg, Disk(w.disk.snapshot, w.disk.wal[..survivors], survivors)) == State(p.cfg, w.log[..w.base + survivors])
  {
    var head, seen, rest := w.log[..w.base], w.log[w.base..w.snap], w.log[w.snap..w.base + survivors];
    InThree(w.log, w.base, w.snap, w.base + survivors);
    assert w.disk.wal[..survivors] == w.log[w.base..w.base + survivors];
    ReplayOverlap(p.cfg, head, seen, rest);
  }

  lemma ShorterByOne(p: Protocol, w: World, survivors: nat) returns (k: nat)
    requires DiskOk(p, w) && survivors + 1 == w.snap - w.base
    ensures (k == w.snap || k == w.snap - 1)
      && Recover(p.cfg, Disk(w.disk.snapshot, w.disk.wal[..survivors], survivors)) == State(p.cfg, w.log[..k])
  {
    var head, tail, last := w.log[..w.base], w.disk.wal[..survivors], w.disk.wal[survivors];
    assert w.log[..w.snap] == head + tail + [last] && w.log[..w.snap - 1] == head + tail;
    LastOpMissing(p.cfg, head, tail, last);
    k := if ApplyAll(p.cfg, State(p.cfg, head + tail + [last]), tail) == State(p.cfg, head + tail) then w.snap - 1 else w.snap;
  }

  /** Replaying all but the last operation gives the state without it, or the state with it. */
  lemma LastOpMissing(cfg: Config, head: seq<Op>, tail: seq<Op>, last: Op)
    ensures var full := State(cfg, head + tail + [last]); var short := State(cfg, head + tail);
      ApplyAll(cfg, full, tail) == short || ApplyAll(cfg, full, tail) == full
  {
    var full, short := State(cfg, head + tail + [last]), State(cfg, head + tail);
    var again := ApplyAll(cfg, full, tail);
    var before := State(cfg, head);
    assert (head + tail + [last])[..|head + tail|] == head + tail;
    ApplyAppended(cfg, map[], head, tail);
    forall id
      ensures id != last.id ==> SameAt(again, short, id) && SameAt(full, short, id)
      ensures SameAt(again, short, id) || SameAt(again, full, id)
    {
      LastWriterDecides(cfg, full, before, tail, id);
      assert id != last.id ==> SameAt(full, short, id);
    }
    if SameAt(again, short, last.id) {
      MapsAreSame(again, short);
    } else {
      MapsAreSame(again, full);
    }
  }

  lemma {:induction false} RunThen(p: Protocol, w: World, first: seq<Event>, rest: seq<Event>)
    requires Lawful(p, w, first) && Lawful(p, After(p, w, first), rest)
    ensures Lawful(p, w, first + rest) && After(p, w, first + rest) == After(p, After(p, w, first), rest)
    decreases |first|
  {
    if first == [] {
      assert first + rest == rest;
    } else {
      assert (first + rest)[1..] == first[1..] + rest;
      RunThen(p, Step(p, w, first[0]), first[1..], rest);
    }
  }

  lemma RunOne(p: Protocol, w: World, e: Event)
    requires Enabled(p, w, e) && !e.PowerLoss? && !LoadFails(e)
    ensures Lawful(p, w, [e]) && After(p, w, [e]) == Step(p, w, e)
  {
  }

  lemma RunMore(p: Protocol, w: World, first: seq<Event>, e: Event)
    requires Lawful(p, w, first) && Enabled(p, After(p, w, first), e) && !e.PowerLoss? && !LoadFails(e)
    ensures Lawful(p, w, first + [e]) && After(p, w, first + [e]) == Step(p, After(p, w, first), e)
  {
    RunOne(p, After(p, w, first), e);
    RunThen(p, w, first, [e]);
  }

  /** A restart in which nothing fails. */
  lemma Restart(p: Protocol, w: World)
    requires w.phase.Down?
    ensures var m := Recover(p.cfg, w.disk);
      && Lawful(p, w, [Load] + [Resave] + [TruncateAfterRestore])
      && After(p, w, [Load] + [Resave] + [TruncateAfterRestore])
        == World(Disk(Some(m), [], 0), Up(m), 0, 0, w.log, w.acked, |w.log|, |w.log|, 0)
  {
    RunOne(p, w, Load);
    RunMore(p, w, [Load], Resave);
    RunMore(p, w, [Load] + [Resave], TruncateAfterRestore);
  }
}
