/**
  The service's calls as runs of the durability protocol: what AddVectors and DeleteVector do
  to the disk and the counters is what the protocol's steps do one after the other, so the
  crash results about runs hold for every point inside a call.
 */
module ServiceDurability {
  import opened Distance
  import opened VectorStores
  import opened Wal
  import opened ServiceCalls
  import opened ServiceState
  import opened Recovery

  /** A running service with visible map m and durable state d. */
  ghost predicate Represents(w: World, d: Durable, m: Vectors) {
    w.phase == Up(m) && w.disk == d.disk && w.pending == d.pending && w.persistOps == d.persistOps
  }

  /** The steps of a call that reaches the WAL, up to the one that fails. */
  ghost function CommitSteps(p: Protocol, d: Durable, batch: seq<Op>, faults: Faults): seq<Event> {
    var appended := [Write(batch)] + [FinishAppend];
    if d.persistOps + 1 < p.snapshotEvery then appended + [SkipSnapshot]
    else if faults.sync && AppendedTo(d, p.syncEvery, batch).pending != 0 then appended + [FailSync]
    else if faults.save then appended + [SyncForSnapshot] + [FailSave]
    else if faults.truncate then appended + [SyncForSnapshot] + [SaveSnapshot] + [FailTruncate]
    else appended + [SyncForSnapshot] + [SaveSnapshot] + [TruncateAfterSnapshot]
  }

  /** The steps of a restart, up to the one that fails. */
  ghost function RestoreSteps(faults: Faults): seq<Event> {
    if faults.save then [Load] + [FailResave]
    else if faults.truncate then [Load] + [Resave] + [FailTruncateRestore]
    else [Load] + [Resave] + [TruncateAfterRestore]
  }

  lemma AppendIsARun(p: Protocol, w: World, d: Durable, m: Vectors, batch: seq<Op>)
    requires Represents(w, d, m) && Enabled(p, w, Write(batch))
    ensures Lawful(p, w, [Write(batch)] + [FinishAppend])
    ensures var w' := After(p, w, [Write(batch)] + [FinishAppend]); var d' := AppendedTo(d, p.syncEvery, batch);
      && w'.phase == Appended(ApplyAll(p.cfg, m, batch)) && w'.log == w.log + batch && w'.acked == w.acked
      && w'.disk == d'.disk && w'.pending == d'.pending && w'.persistOps == d'.persistOps
  {
    RunOne(p, w, Write(batch));
    RunMore(p, w, [Write(batch)], FinishAppend);
  }

  /** What maybeSnapshot does from the state after an append, as the rest of a run. */
  lemma SnapshotIsARun(p: Protocol, w: World, first: seq<Event>, faults: Faults) returns (rest: seq<Event>)
    requires Lawful(p, w, first) && After(p, w, first).phase.Appended? && After(p, w, first).persistOps + 1 >= p.snapshotEvery
    requires !(faults.sync && After(p, w, first).pending != 0)
    ensures rest == if faults.save then first + [SyncForSnapshot] + [FailSave]
      else if faults.truncate then first + [SyncForSnapshot] + [SaveSnapshot] + [FailTruncate]
      else first + [SyncForSnapshot] + [SaveSnapshot] + [TruncateAfterSnapshot]
    ensures Lawful(p, w, rest)
    ensures var w' := After(p, w, first); var d' := Durable(w'.disk, w'.pending, w'.persistOps);
      && Represents(After(p, w, rest), AfterSnapshot(d', p.snapshotEvery, w'.phase.m, faults), w'.phase.m)
      && After(p, w, rest).log == w'.log
      && After(p, w, rest).acked == if faults.save || faults.truncate then w'.acked else |w'.log|
  {
    RunMore(p, w, first, SyncForSnapshot);
    rest := first + [SyncForSnapshot];
    if faults.save {
      RunMore(p, w, rest, FailSave);
      rest := rest + [FailSave];
      return;
    }
    RunMore(p, w, rest, SaveSnapshot);
    rest := rest + [SaveSnapshot];
    var last := if faults.truncate then FailTruncate else TruncateAfterSnapshot;
    RunMore(p, w, rest, last);
    rest := rest + [last];
  }

  /**
    A call that reaches the WAL is a run of the protocol, whichever of its later steps fails;
    it acknowledges the whole batch exactly when it reports no error.
   */
  lemma CommitIsARun(p: Protocol, w: World, d: Durable, m: Vectors, batch: seq<Op>, faults: Faults)
    requires Represents(w, d, m) && Enabled(p, w, Write(batch))
    ensures var events := CommitSteps(p, d, batch, faults); var d' := AppendedTo(d, p.syncEvery, batch); var m' := ApplyAll(p.cfg, m, batch);
      && Lawful(p, w, events) && (forall i | 0 <= i < |events| :: !events[i].Kill? && !events[i].PowerLoss? && !LoadFails(events[i]))
      && Represents(After(p, w, events), AfterSnapshot(d', p.snapshotEvery, m', faults), m')
      && After(p, w, events).log == w.log + batch
      && After(p, w, events).acked == if SnapshotFails(d', p.snapshotEvery, faults) then w.acked else |w.log + batch|
  {
    AppendIsARun(p, w, d, m, batch);
    var appended := [Write(batch)] + [FinishAppend];
    if d.persistOps + 1 < p.snapshotEvery {
      RunMore(p, w, appended, SkipSnapshot);
    } else if faults.sync && AppendedTo(d, p.syncEvery, batch).pending != 0 {
      RunMore(p, w, appended, FailSync);
    } else {
      var events := SnapshotIsARun(p, w, appended, faults);
    }
  }

  /** A restart that cannot read its files serves an empty store over them. */
  lemma FailedLoadIsAStep(p: Protocol, w: World, faults: Faults)
    requires w.phase.Down? && faults.load
    ensures Represents(Step(p, w, FailLoad), AfterRestore(Durable(w.disk, 0, 0), map[], faults), map[])
  {
  }

  /** One whose replay stops serves what it had read, over a log that is as long as before. */
  lemma StoppedReplayIsAStep(p: Protocol, w: World, k: nat)
    requires w.phase.Down? && k <= |w.disk.wal|
    ensures var m := ApplyAll(p.cfg, Loaded(p.cfg, w.disk.snapshot), ReadBefore(w.disk.wal, Some(k)));
      Represents(Step(p, w, FailReplay(k)), Durable(w.disk, 0, 0), m)
  {
  }

  /** Any other restart is a run too, and the service keeps serving when a step of it fails. */
  lemma RestoreIsARun(p: Protocol, w: World, faults: Faults)
    requires w.phase.Down? && !faults.load
    ensures var events := RestoreSteps(faults); var m := Recover(p.cfg, w.disk);
      && Lawful(p, w, events) && (forall i | 0 <= i < |events| :: !events[i].Kill? && !events[i].PowerLoss? && !LoadFails(events[i]))
      && Represents(After(p, w, events), AfterRestore(Durable(w.disk, 0, 0), m, faults), m)
      && After(p, w, events).log == w.log && After(p, w, events).acked == w.acked
  {
    RunOne(p, w, Load);
    if faults.save {
      RunMore(p, w, [Load], FailResave);
    } else {
      RunMore(p, w, [Load], Resave);
      RunMore(p, w, [Load] + [Resave], if faults.truncate then FailTruncateRestore else TruncateAfterRestore);
    }
  }

  /** Wherever a crash cuts the history, the vectors that are left have one dimension. */
  ghost predicate AlwaysUniform(cfg: Config, log: seq<Op>) {
    forall k | 0 <= k <= |log| :: Uniform(State(cfg, log[..k]))
  }

  lemma AcceptedBatchStaysUniform(cfg: Config, log: seq<Op>, dim: nat, batch: seq<Vector>)
    requires AlwaysUniform(cfg, log) && SameLength(State(cfg, log), dim)
    requires Insertable(cfg, State(cfg, log), batch) && OneDimension(dim, batch)
    ensures AlwaysUniform(cfg, log + UpsertOps(batch))
  {
    var ops, m := UpsertOps(batch), State(cfg, log);
    InsertableMeans(cfg, m, batch);
    AppliedIsSound(cfg, map[], log);
    forall k | 0 <= k <= |log + ops|
      ensures Uniform(State(cfg, (log + ops)[..k]))
    {
      if k <= |log| {
        assert (log + ops)[..k] == log[..k];
      } else {
        var i := k - |log|;
        assert (log + ops)[..k] == log + UpsertOps(batch[..i]);
        ApplyAppended(cfg, map[], log, UpsertOps(batch[..i]));
        UpsertedIsApplied(cfg, m, batch[..i]);
        PrefixHasOneDimension(cfg, m, dim, batch, i);
      }
    }
  }

  lemma DeleteStaysUniform(cfg: Config, log: seq<Op>, id: Id)
    requires AlwaysUniform(cfg, log)
    ensures AlwaysUniform(cfg, log + [Delete(id)])
  {
    forall k | 0 <= k <= |log + [Delete(id)]|
      ensures Uniform(State(cfg, (log + [Delete(id)])[..k]))
    {
      if k <= |log| {
        assert (log + [Delete(id)])[..k] == log[..k];
      } else {
        assert log[..|log|] == log;
        var dim: nat :| SameLength(State(cfg, log), dim);
        assert (log + [Delete(id)])[..k] == log + [Delete(id)];
        assert (log + [Delete(id)])[..|log|] == log;
        assert SameLength(State(cfg, log + [Delete(id)]), dim);
      }
    }
  }
}
