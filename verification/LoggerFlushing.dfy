/** Durability in the runs in which flushing works: every flush and every close succeeds. */
module LoggerFlushing {
  import opened LogFiles
  import opened LoggerProtocol
  import opened LoggerInvariant
  import opened LoggerSteps
  import opened LoggerTheorems

  predicate FlushWorks(step: Step) {
    match step
    case WorkerWrite(disk) => disk.closes
    case WorkerFlush(flushing) => flushing.succeeds
    case LastFlush(succeeds) => succeeds
    case _ => true
  }

  /** What is counted as flushed has been flushed, and no stream has lost a record. */
  ghost predicate Synced(files: Files, flushed: int, w: Worker) {
    && ClosedIsSynced(files)
    && flushed <= files.log.synced
    && (w.Flushed? ==> files.log.synced == |files.log.reported|)
    && files.log.dropped == 0
  }

  ghost predicate IsSynced(s: State) {
    Synced(s.files, s.shared.flushedLogIndex, s.worker)
  }

  lemma SyncedAfterWrite(s: State, disk: Disk)
    requires Inv(s) && IsSynced(s) && Enabled(s, WorkerWrite(disk)) && disk.closes
    ensures IsSynced(Apply(s, WorkerWrite(disk)))
  {
    WriteEntrySynced(s.files, s.limit, Load(s.memory, s.worker.rest[0].buffer), disk);
  }

  lemma SyncedAfterFlush(s: State, flushing: Flushing)
    requires Inv(s) && IsSynced(s) && Enabled(s, WorkerFlush(flushing)) && flushing.succeeds
    ensures IsSynced(Apply(s, WorkerFlush(flushing)))
  {
    FlushKeepsRecords(s.files, flushing, s.limit);
  }

  lemma SyncedAfterCommit(s: State, target: Target)
    requires Inv(s) && IsSynced(s) && Enabled(s, WorkerCommit(target))
    ensures IsSynced(Apply(s, WorkerCommit(target)))
  {
    NextBatchEffect(Commit(s.shared, s.worker.done, s.worker.rest).0);
  }

  lemma SyncedAtTop(s: State)
    requires IsSynced(s) && Enabled(s, WorkerTop)
    ensures IsSynced(Apply(s, WorkerTop))
  {
    NextBatchEffect(s.shared);
  }

  lemma SyncedElsewhere(s: State, step: Step)
    requires IsSynced(s) && Enabled(s, step)
    requires !step.WorkerWrite? && !step.WorkerFlush? && !step.WorkerCommit? && !step.WorkerTop? && !step.LastFlush?
    ensures IsSynced(Apply(s, step))
  {
  }

  lemma StepSynced(s: State, step: Step)
    requires Inv(s) && IsSynced(s) && Enabled(s, step) && FlushWorks(step)
    ensures IsSynced(Apply(s, step))
  {
    match step
    case WorkerWrite(disk) => SyncedAfterWrite(s, disk);
    case WorkerFlush(flushing) => SyncedAfterFlush(s, flushing);
    case WorkerCommit(target) => SyncedAfterCommit(s, target);
    case WorkerTop => SyncedAtTop(s);
    case LastFlush(succeeds) => FlushKeepsRecords(s.files, Flushing(succeeds, Unchanged), s.limit);
    case _ => SyncedElsewhere(s, step);
  }

  lemma {:induction false} RunSynced(s0: State, steps: seq<Step>, s: State)
    requires Inv(s0) && IsSynced(s0) && IsRun(s0, steps, s)
    requires forall step <- steps :: FlushWorks(step)
    ensures Inv(s) && IsSynced(s)
    decreases |steps|
  {
    if steps != [] {
      StepKeeps(s0, steps[0]);
      StepSynced(s0, steps[0]);
      RunSynced(Apply(s0, steps[0]), steps[1..], s);
    }
  }

  /** The state is reached by a run in which flushing works. */
  ghost predicate ReachableFlushing(s: State) {
    exists s0, steps :: Init(s0) && IsRun(s0, steps, s) && forall step <- steps :: FlushWorks(step)
  }

  lemma FlushingSynced(s: State)
    requires ReachableFlushing(s)
    ensures Inv(s) && IsSynced(s)
  {
    var s0, steps :| Init(s0) && IsRun(s0, steps, s) && forall step <- steps :: FlushWorks(step);
    InitHolds(s0);
    RunSynced(s0, steps, s);
  }

  /** When flushing works and every write that reports success takes its record, a
      synchronous write returns only after its own message and every message queued before
      it are in the files and out of the stdio buffer, also while other writes are refused. */
  lemma SyncWriteIsFlushed(s: State, i: nat)
    requires ReachableFlushing(s) && s.files.log.missing == 0
    requires Enabled(s, Recheck(i)) && Apply(s, Recheck(i)).writers[i].Idle?
    ensures 0 < s.writers[i].need <= |s.pushed| && s.pushed[s.writers[i].need - 1] == s.writers[i].own
    ensures DurableUpTo(s, s.writers[i].need)
  {
    FlushingSynced(s);
    DurablePrefix(s, s.writers[i].need);
  }

  /** In the same runs the worker exits only after every message pushed is durable. */
  lemma ExitFlushesAll(s: State, step: Step)
    requires ReachableFlushing(s) && Enabled(s, step) && FlushWorks(step)
    requires !s.worker.Exited? && Apply(s, step).worker.Exited?
    requires Apply(s, step).files.log.missing == 0
    ensures DurableUpTo(Apply(s, step), |Apply(s, step).pushed|)
  {
    var s' := Apply(s, step);
    FlushingSynced(s);
    StepSynced(s, step);
    StepKeeps(s, step);
    OnlyTopExits(s, step);
    if step.WorkerTop? {
      TopKeeps(s);
    } else {
      CommitThenTop(s, step.target);
    }
    DurablePrefix(s', |s'.pushed|);
  }
}
