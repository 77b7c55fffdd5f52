/** What the asynchronous logger guarantees in every run: any number of writers, any
    schedule, and a disk that may refuse any record. */
module LoggerTheorems {
  import opened LogFiles
  import opened LogHistory
  import opened LoggerProtocol
  import opened Options
  import opened LoggerInvariant
  import opened LoggerSteps

  lemma {:induction false} RunsCompose(s0: State, a: seq<Step>, s1: State, b: seq<Step>, s2: State)
    requires IsRun(s0, a, s1) && IsRun(s1, b, s2)
    ensures IsRun(s0, a + b, s2)
    decreases |a|
  {
    if a == [] {
      assert a + b == b;
    } else {
      RunsCompose(Apply(s0, a[0]), a[1..], s1, b, s2);
      assert (a + b)[0] == a[0] && (a + b)[1..] == a[1..] + b;
    }
  }

  lemma OneStepRun(s: State, step: Step)
    requires Enabled(s, step)
    ensures IsRun(s, [step], Apply(s, step))
  {
    assert IsRun(Apply(s, step), [], Apply(s, step));
  }

  lemma StepReachable(s: State, step: Step)
    requires Reachable(s) && Enabled(s, step)
    ensures Reachable(Apply(s, step))
  {
    var s0, steps :| Init(s0) && IsRun(s0, steps, s);
    OneStepRun(s, step);
    RunsCompose(s0, steps, s, [step], Apply(s, step));
  }

  // ---- messages and files ----

  /** Whatever the disk does, the messages whose write has reported success, the rest of
      the table in flight and the queue are the messages in push order: none is lost,
      repeated or reordered on the way to the file writer, and none is overwritten in its
      buffer while it is queued. */
  lemma NothingLost(s: State)
    requires Reachable(s)
    ensures s.files.log.reported + Texts(s.memory, InFlight(s.worker)) + Texts(s.memory, s.shared.memtable) == s.pushed
  {
    ReachableInv(s);
  }

  /** No write has left anything behind that it does not account for, and nothing it does
      account for is lost. */
  predicate Honest(h: History) {
    Lossless(h) && h.extra == 0
  }

  /** What the files hold. Every record too many or too few is counted: the files hold the
      reported messages, once each and in order, exactly when nothing was left behind if
      nothing was lost, and exactly when nothing was lost if nothing was left behind. */
  lemma FilesExactlyWhen(s: State)
    requires Reachable(s)
    ensures var h := s.files.log;
            && |Written(s.files)| + h.missing + h.dropped == |h.reported| + h.extra
            && (Lossless(h) ==> (Written(s.files) == Whole(h.reported) <==> h.extra == 0))
            && (h.extra == 0 ==> (Written(s.files) == Whole(h.reported) <==> Lossless(h)))
            && (h.extra == 0 ==> InOrder(Written(s.files), h.reported))
            && h.reported <= s.pushed
  {
    ReachableInv(s);
    ExactlyTheReported(Written(s.files), s.files.durable, s.files.log);
  }

  /** If nothing was lost, a message is in the files twice exactly when refused and short
      writes have left more behind than the one copy of a message that waits for its next
      try; while `errno` stays ENOSPC that happens with the second try. */
  lemma NoDuplicateExactlyWhen(s: State)
    requires Reachable(s) && Lossless(s.files.log)
    ensures NoDuplicate(Written(s.files)) <==>
            s.files.log.extra == if Waiting(Written(s.files), s.files.log) then 1 else 0
  {
    ReachableInv(s);
    DuplicateExactlyWhen(Written(s.files), s.files.durable, s.files.log);
  }

  /** The first `n` messages pushed are in the files and out of the stdio buffer. */
  ghost predicate DurableUpTo(s: State, n: nat) {
    && s.files.durable <= |Written(s.files)|
    && forall m: nat | m < n && m < |s.pushed| :: IsDurable(Written(s.files), s.files.durable, m, s.pushed[m])
  }

  lemma DurablePrefix(s: State, n: nat)
    requires Inv(s) && n <= |s.files.log.reported|
    ensures Lossless(s.files.log) && n <= s.files.log.synced ==> DurableUpTo(s, n)
    ensures s.files.log.extra == 0 && 0 < n && IsDurable(Written(s.files), s.files.durable, n - 1, s.pushed[n - 1]) ==>
              n <= s.files.log.synced
  {
    var w, h := Written(s.files), s.files.log;
    assert forall m: nat | m < |h.reported| :: s.pushed[m] == h.reported[m];
    forall m: nat | m < n
      ensures Lossless(h) && m < h.synced ==> IsDurable(w, s.files.durable, m, s.pushed[m])
    {
      DurableExactlyWhen(w, s.files.durable, h, m);
    }
    if n > 0 {
      DurableExactlyWhen(w, s.files.durable, h, n - 1);
    }
  }

  /** When a synchronous write leaves its waiting loop, the writes of its own message and of
      every message queued before it have reported success. They are durable if a flush has
      succeeded since and nothing was lost, and its own is durable only then if nothing was
      left behind: for honest writes, exactly when a flush or close has succeeded since. */
  lemma SyncWriteIsDurable(s: State, i: nat)
    requires Reachable(s) && Enabled(s, Recheck(i)) && Apply(s, Recheck(i)).writers[i].Idle?
    ensures var need, h := s.writers[i].need, s.files.log;
            && 0 < need <= |h.reported| && h.reported <= s.pushed
            && s.pushed[need - 1] == s.writers[i].own
            && (Lossless(h) && need <= h.synced ==> DurableUpTo(s, need))
            && (Honest(h) ==> (DurableUpTo(s, need) <==> need <= h.synced))
  {
    ReachableInv(s);
    var need := s.writers[i].need;
    DurablePrefix(s, need);
  }

  /** No wake-up is lost: a sleeping synchronous writer still needs a flush, and the
      worker is then awake, unless it has exited with everything queued before in the files. */
  lemma NoLostWakeUp(s: State, i: nat)
    requires Reachable(s) && i < |s.writers| && IsAsleep(s.writers[i])
    ensures s.writers[i].need > s.shared.flushedLogIndex
    ensures !s.worker.Asleep?
    ensures s.worker.Exited? ==> !s.shared.running && s.writers[i].need > |s.files.log.reported|
  {
    ReachableInv(s);
  }

  /** A writer's `notify_one` can only reach the worker. */
  lemma WriterNotifiesWorker(s: State, i: nat, target: Target)
    requires Reachable(s) && Enabled(s, Push(i, target))
    requires PushSection(s.shared, s.writers[i].entry, s.writers[i].flush).1 == One
    ensures target == if s.worker.Asleep? then TheWorker else Nothing
  {
    ReachableInv(s);
    NoSleepers(s.writers);
  }

  /** The worker's `notify_one` can only reach the one blocked writer. */
  lemma WorkerNotifiesWriter(s: State, target: Target)
    requires Reachable(s) && Enabled(s, WorkerCommit(target))
    requires Commit(s.shared, s.worker.done, s.worker.rest).1 == One
    ensures target != TheWorker
    ensures target.TheWriter? ==> forall j | 0 <= j < |s.writers| && j != target.i :: !s.writers[j].Blocked?
    ensures var s' := Apply(s, WorkerCommit(target)); forall j | 0 <= j < |s'.writers| :: !IsAsleep(s'.writers[j])
  {
    ReachableInv(s);
    CommitWakesAll(s, target);
    if target.TheWriter? {
      forall j | 0 <= j < |s.writers| && j != target.i
        ensures !s.writers[j].Blocked?
      {
        OnlyBlocked(s.writers, target.i, j);
      }
    }
  }

  /** Until the destructor runs, a synchronous write always waits: the branch that turns
      it into an asynchronous one is dead, because the worker counts the tries down to
      zero without ever releasing the lock. */
  lemma RunningSyncWriteWaits(s: State, i: nat, target: Target)
    requires Reachable(s) && Enabled(s, Push(i, target)) && s.writers[i].flush
    requires s.shared.running
    ensures Apply(s, Push(i, target)).writers[i].Blocked?
  {
    ReachableInv(s);
    PushWaits(s, s.writers[i].entry, true);
  }

  /** In every state a synchronous write waits exactly when the count of tries is zero. */
  lemma SyncWriteWaitsExactlyWhen(s: State, i: nat, target: Target)
    requires Reachable(s) && Enabled(s, Push(i, target)) && s.writers[i].flush
    ensures Apply(s, Push(i, target)).writers[i].Blocked? <==> s.shared.diskFullTryTimes == 0
    ensures s.shared.diskFullTryTimes > 0 ==> !s.shared.running
  {
    ReachableInv(s);
    PushWaits(s, s.writers[i].entry, true);
  }

  /** After shutdown has begun the branch is live: once a write has reported a refusal, the
      next synchronous write returns although its message is only queued. */
  lemma ShutdownSyncWriteMayReturn(s: State, target: Target, i: nat, target': Target)
    requires Reachable(s) && !s.shared.running && Enabled(s, WorkerCommit(target)) && s.worker.rest != []
    requires var s' := Apply(s, WorkerCommit(target)); Enabled(s', Push(i, target')) && s'.writers[i].flush
    ensures var s' := Apply(s, WorkerCommit(target));
            var s'' := Apply(s', Push(i, target'));
            && s''.writers[i] == Idle
            && |s''.files.log.reported| < |s''.pushed|
  {
    ReachableInv(s);
    var (sh, n) := Commit(s.shared, s.worker.done, s.worker.rest);
    NextBatchEffect(sh);
    WorkerCommitKeeps(s, target);
    PushKeeps(Apply(s, WorkerCommit(target)), i, target');
  }

  lemma OnlyTopExits(s: State, step: Step)
    requires Enabled(s, step) && !s.worker.Exited? && Apply(s, step).worker.Exited?
    ensures step.WorkerTop? || step.WorkerCommit?
  {
  }

  /** When the worker exits, the write of every message queued so far has reported success.
      For honest writes the files hold exactly these messages, and they are all durable
      exactly when a flush has succeeded since the last of them was written. */
  lemma ExitLosesNothing(s: State, step: Step)
    requires Reachable(s) && Enabled(s, step)
    requires !s.worker.Exited? && Apply(s, step).worker.Exited?
    ensures var s' := Apply(s, step);
            && s'.files.log.reported == s'.pushed
            && !s'.shared.running
            && (Honest(s'.files.log) ==> Written(s'.files) == Whole(s'.pushed))
            && (Lossless(s'.files.log) && s'.files.log.synced == |s'.pushed| ==> DurableUpTo(s', |s'.pushed|))
            && (Honest(s'.files.log) ==>
                  (DurableUpTo(s', |s'.pushed|) <==> s'.files.log.synced == |s'.pushed|))
  {
    var s' := Apply(s, step);
    ExitReports(s, step);
    StepReachable(s, step);
    ReachableInv(s');
    FilesExactlyWhen(s');
    DurablePrefix(s', |s'.pushed|);
  }

  lemma ExitReports(s: State, step: Step)
    requires Reachable(s) && Enabled(s, step)
    requires !s.worker.Exited? && Apply(s, step).worker.Exited?
    ensures Apply(s, step).files.log.reported == Apply(s, step).pushed
    ensures !Apply(s, step).shared.running
  {
    ReachableInv(s);
    OnlyTopExits(s, step);
    if step.WorkerTop? {
      WorkerTopKeeps(s);
      TopKeeps(s);
    } else {
      WorkerCommitKeeps(s, step.target);
      CommitThenTop(s, step.target);
    }
  }

  lemma NothingQueued(s: State)
    requires Inv(s) && Done(s.worker) == [] && InFlight(s.worker) == [] && s.shared.memtable == []
    ensures s.shared.flushedLogIndex == |s.pushed| && s.files.log.reported == s.pushed
  {
    assert Texts(s.memory, []) == [];
  }

  lemma CommitThenTop(s: State, target: Target)
    requires Inv(s) && Enabled(s, WorkerCommit(target))
    ensures var s' := Apply(s, WorkerCommit(target));
            !s'.worker.Writing? ==> s'.files.log.reported == s'.pushed && s'.shared.flushedLogIndex == |s'.pushed|
    ensures var s' := Apply(s, WorkerCommit(target));
            s'.worker.Writing? ==>
              s'.worker == Writing([], s.worker.rest + s.shared.memtable, false) && s'.shared.memtable == []
  {
    var (sh, n) := Commit(s.shared, s.worker.done, s.worker.rest);
    assert sh.memtable == s.worker.rest + s.shared.memtable;
    NextBatchEffect(sh);
    var s' := Top(Notify(s, n, target).(shared := sh));
    if !s'.worker.Writing? {
      WorkerCommitKeeps(s, target);
      NothingQueued(s');
    }
  }

  /** Each buffer of the pool is in exactly one place: free, in one writer's hands, queued,
      or in the unwritten part of the table in flight. */
  lemma BuffersConserved(s: State, b: Buffer)
    requires Reachable(s)
    ensures Places(b, s.freeList, s.writers, s.shared.memtable, InFlight(s.worker)) == if b < |s.memory| then 1 else 0
  {
    ReachableInv(s);
  }

  /** The accounting is exact, also after a partial batch, so the subtraction from the
      unsigned queue size never underflows. */
  lemma AccountingExact(s: State)
    requires Reachable(s)
    ensures s.shared.flushedLogIndex + |Done(s.worker)| + |InFlight(s.worker)| + |s.shared.memtable|
            == s.shared.writtenLogIndex
    ensures s.shared.memtableSize == Lengths(Done(s.worker)) + Lengths(InFlight(s.worker)) + Lengths(s.shared.memtable)
    ensures s.worker.Flushed? ==> Lengths(s.worker.done) <= s.shared.memtableSize
  {
    ReachableInv(s);
    assert |s.pushed| == |s.files.log.reported| + |InFlight(s.worker)| + |s.shared.memtable|;
  }

  /** The size limit: every record of every file was added while the size counted for the
      file was no larger than the limit or that of its header; no file was rotated before its
      counted size exceeded the limit; and whenever the worker is about to rotate, it has a
      stream to clear the page cache of. */
  lemma FilesWithinLimit(s: State)
    requires Reachable(s) && s.files.named
    ensures Rotated(s.files.closed, s.limit)
    ensures s.files.current.Some? ==>
              && Balanced(s.files.current.value)
              && WithinLimit(s.files.current.value, s.limit)
              && s.files.size == s.files.current.value.tally.counted
    ensures s.files.size > s.limit ==> s.files.current.Some?
  {
    ReachableInv(s);
  }

  /** The file is the open one or a rotated one. */
  predicate IsFile(f: Files, file: LogFile) {
    file in f.closed || f.current == Some(file)
  }

  /** The same for real sizes, exactly: a record of any file was added while the file was
      really within the limit if and only if the stray bytes before it fit into what the
      count had left free and what had been lost by then. */
  lemma RealSizesWithinLimitExactlyWhen(s: State, file: LogFile, k: nat)
    requires Reachable(s) && s.files.named && IsFile(s.files, file) && k < |file.records|
    ensures |file.before| == |file.records|
    ensures var top, t := Max(s.limit, file.header), file.before[k];
            && t.counted <= top
            && (RealSize(file, k) <= top <==> t.counted + t.stray <= top + t.lost)
            && RealSize(file, k) <= top + t.stray
  {
    FilesWithinLimit(s);
    RealSizeExactlyWhen(file, s.limit, k);
  }

  /** And for the record about to be written, in the file that receives it. */
  lemma NextRecordWithinLimitExactlyWhen(s: State, disk: Disk)
    requires Reachable(s) && s.files.named && Enabled(s, WorkerWrite(disk))
    ensures var f := if s.files.size > s.limit
                     then Rotate(s.files, disk.closes, disk.rotates, disk.rotateHeader) else s.files;
            var f' := Reopen(f, disk.opens, disk.openHeader);
            f'.current.Some? ==>
              var file := f'.current.value;
              var top, t := Max(s.limit, file.header), file.tally;
              && t.counted <= top
              && (RealSize(file, |file.records|) <= top <==> t.counted + t.stray <= top + t.lost)
  {
    ReachableInv(s);
    var f := if s.files.size > s.limit
             then Rotate(s.files, disk.closes, disk.rotates, disk.rotateHeader) else s.files;
    if s.files.size > s.limit {
      RotateKeepsDurable(s.files, disk.closes, disk.rotates, disk.rotateHeader, s.limit);
    }
    ReopenKeeps(f, disk.opens, disk.openHeader, Unchanged, s.limit);
  }

  // ---- a long queue wakes the worker ----

  /** A sleeping worker leaves no more than the notification threshold in the queue. */
  ghost predicate ShortWhileAsleep(s: State) {
    s.worker.Asleep? ==> s.shared.memtableSize <= NOTIFY_SIZE
  }

  lemma ShortAtTop(s: State)
    requires Inv(Top(s))
    ensures ShortWhileAsleep(Top(s))
  {
    NextBatchEffect(s.shared);
  }

  lemma ShortAfterPush(s: State, i: nat, target: Target)
    requires Inv(s) && ShortWhileAsleep(s) && Enabled(s, Push(i, target))
    ensures ShortWhileAsleep(Apply(s, Push(i, target)))
  {
    if s.worker.Asleep? && PushSection(s.shared, s.writers[i].entry, s.writers[i].flush).1 == One {
      NoSleepers(s.writers);
    }
  }

  /** No other step queues a message or puts the worker to sleep. */
  lemma ShortElsewhere(s: State, step: Step)
    requires ShortWhileAsleep(s) && Enabled(s, step)
    requires !step.Push? && !step.WorkerTop? && !step.WorkerCommit?
    ensures ShortWhileAsleep(Apply(s, step))
  {
  }

  lemma ShortAfterCommit(s: State, target: Target)
    requires Inv(s) && Enabled(s, WorkerCommit(target))
    ensures ShortWhileAsleep(Apply(s, WorkerCommit(target)))
  {
    var (sh, n) := Commit(s.shared, s.worker.done, s.worker.rest);
    WorkerCommitKeeps(s, target);
    ShortAtTop(Notify(s, n, target).(shared := sh));
  }

  lemma ShortKept(s: State, step: Step)
    requires Inv(s) && ShortWhileAsleep(s) && Enabled(s, step)
    ensures ShortWhileAsleep(Apply(s, step))
  {
    if step.Push? {
      ShortAfterPush(s, step.i, step.target);
    } else if step.WorkerTop? {
      WorkerTopKeeps(s);
      ShortAtTop(s);
    } else if step.WorkerCommit? {
      ShortAfterCommit(s, step.target);
    } else {
      ShortElsewhere(s, step);
    }
  }

  lemma {:induction false} ShortInRun(s0: State, steps: seq<Step>, s: State)
    requires Inv(s0) && ShortWhileAsleep(s0) && IsRun(s0, steps, s)
    ensures ShortWhileAsleep(s)
    decreases |steps|
  {
    if steps != [] {
      StepKeeps(s0, steps[0]);
      ShortKept(s0, steps[0]);
      ShortInRun(Apply(s0, steps[0]), steps[1..], s);
    }
  }

  /** In every reachable state a worker that sleeps has at most the threshold of bytes
      waiting for it: the push that exceeds it always wakes the worker. */
  lemma LongQueueWakesWorker(s: State)
    requires Reachable(s) && s.worker.Asleep?
    ensures Lengths(s.shared.memtable) == s.shared.memtableSize <= NOTIFY_SIZE
  {
    var s0, steps :| Init(s0) && IsRun(s0, steps, s);
    InitHolds(s0);
    ShortInRun(s0, steps, s);
    ReachableInv(s);
  }
}
