/** When a blocked synchronous writer can be released, and when it never is. */
module LoggerRelease {
  import opened LogFiles
  import opened LogHistory
  import opened LoggerProtocol
  import opened LoggerInvariant
  import opened LoggerSteps
  import opened LoggerTheorems

  /** Writer `i` is blocked in both states, for the same message of the same history. */
  ghost predicate SameWait(s: State, s': State, i: nat) {
    && i < |s.writers| && i < |s'.writers|
    && s.writers[i].Blocked? && s'.writers[i].Blocked?
    && s'.writers[i].need == s.writers[i].need
    && s'.pushed == s.pushed
  }

  /** A disk that takes everything; its calls succeed, and so leave `errno` alone. */
  const WILLING := Disk(true, true, 0, true, 0, TakesAll, Unchanged)
  const WILLING_FLUSH := Flushing(true, Unchanged)

  /** Steps of the worker alone, with a willing disk. */
  ghost predicate WorkerOnly(steps: seq<Step>) {
    forall step <- steps ::
      step.WorkerTop? || step.WorkerCommit? || step == WorkerWrite(WILLING) || step == WorkerFlush(WILLING_FLUSH)
  }

  /** The worker alone can get from one state to the other while the writer waits. */
  ghost predicate Leads(s: State, steps: seq<Step>, s': State, i: nat) {
    && IsRun(s, steps, s')
    && WorkerOnly(steps)
    && Inv(s')
    && SameWait(s, s', i)
    && s'.files.noSpace == s.files.noSpace
  }

  lemma LeadsOn(s: State, a: seq<Step>, s1: State, b: seq<Step>, s2: State, i: nat)
    requires Leads(s, a, s1, i) && Leads(s1, b, s2, i)
    ensures Leads(s, a + b, s2, i)
  {
    RunsCompose(s, a, s1, b, s2);
  }

  lemma LeadsStep(s: State, step: Step, i: nat)
    requires Inv(s) && Enabled(s, step) && WorkerOnly([step]) && SameWait(s, Apply(s, step), i)
    requires Apply(s, step).files.noSpace == s.files.noSpace
    ensures Leads(s, [step], Apply(s, step), i)
  {
    StepKeeps(s, step);
    OneStepRun(s, step);
  }

  lemma WriteStep(s: State, i: nat)
    requires Inv(s) && SameWait(s, s, i) && Enabled(s, WorkerWrite(WILLING))
    ensures var s' := Apply(s, WorkerWrite(WILLING));
            && Leads(s, [WorkerWrite(WILLING)], s', i)
            && s'.shared == s.shared
            && s'.worker.Writing?
            && (s'.worker.refused <==> s.files.noSpace)
            && (s.files.noSpace ==> s'.files.log.reported == s.files.log.reported)
            && (!s.files.noSpace ==> s'.worker.rest == s.worker.rest[1..])
  {
    WriteEntryAdds(s.files, s.limit, Load(s.memory, s.worker.rest[0].buffer), WILLING);
    LeadsStep(s, WorkerWrite(WILLING), i);
  }

  /** The worker writes out the rest of its table. */
  lemma {:induction false} WriteOut(s: State, i: nat) returns (steps: seq<Step>, s': State)
    requires Inv(s) && s.worker.Writing? && !s.worker.refused && !s.files.noSpace && SameWait(s, s, i)
    ensures Leads(s, steps, s', i)
    ensures s'.worker.Writing? && s'.worker.rest == [] && s'.shared == s.shared
    decreases |s.worker.rest|
  {
    if s.worker.rest == [] {
      steps, s' := [], s;
    } else {
      WriteStep(s, i);
      var s1 := Apply(s, WorkerWrite(WILLING));
      var rest;
      rest, s' := WriteOut(s1, i);
      LeadsOn(s, [WorkerWrite(WILLING)], s1, rest, s', i);
      steps := [WorkerWrite(WILLING)] + rest;
    }
  }

  /** Whoever a `notify_one` after a flush reaches, the commit can happen. */
  lemma CommitTarget(s: State) returns (target: Target)
    requires Inv(s) && s.worker.Flushed?
    ensures Enabled(s, WorkerCommit(target))
  {
    if j :| 0 <= j < |s.writers| && IsAsleep(s.writers[j]) {
      target := TheWriter(j);
    } else {
      target := Nothing;
    }
  }

  /** After a commit everything reported is flushed, and either that is everything or the
      worker holds the whole queue. */
  ghost predicate Committed(s: State, s': State) {
    && s'.shared.flushedLogIndex == |s.files.log.reported|
    && (s'.shared.flushedLogIndex == |s'.pushed|
        || (s'.worker == Writing([], InFlight(s.worker) + s.shared.memtable, false) && s'.shared.memtable == []))
  }

  lemma CommitStep(s: State, i: nat) returns (steps: seq<Step>, s': State)
    requires Inv(s) && SameWait(s, s, i) && s.worker.Flushed?
    ensures Leads(s, steps, s', i) && Committed(s, s') && s'.files == s.files
  {
    var target := CommitTarget(s);
    CommitThenTop(s, target);
    NextBatchEffect(Commit(s.shared, s.worker.done, s.worker.rest).0);
    LeadsStep(s, WorkerCommit(target), i);
    steps, s' := [WorkerCommit(target)], Apply(s, WorkerCommit(target));
  }

  /** From the end of a table to the worker's next decision. */
  lemma FinishTable(s: State, i: nat) returns (steps: seq<Step>, s': State)
    requires Inv(s) && SameWait(s, s, i)
    requires s.worker.Flushed? || (s.worker.Writing? && (s.worker.refused || s.worker.rest == []))
    ensures Leads(s, steps, s', i) && Committed(s, s')
    ensures s'.files == if s.worker.Flushed? then s.files else Flush(s.files, WILLING_FLUSH)
  {
    if s.worker.Flushed? {
      steps, s' := CommitStep(s, i);
    } else {
      var step := WorkerFlush(WILLING_FLUSH);
      LeadsStep(s, step, i);
      var b;
      b, s' := CommitStep(Apply(s, step), i);
      LeadsOn(s, [step], Apply(s, step), b, s', i);
      steps := [step] + b;
    }
  }

  /** From a table that is the whole queue, one more pass flushes everything. */
  lemma FlushAll(s: State, i: nat) returns (steps: seq<Step>, s': State)
    requires Inv(s) && s.worker.Writing? && !s.worker.refused && !s.files.noSpace && SameWait(s, s, i)
    requires s.shared.memtable == []
    ensures Leads(s, steps, s', i)
    ensures s'.shared.flushedLogIndex == |s'.pushed|
  {
    var a, s1 := WriteOut(s, i);
    var b, s2 := FinishTable(s1, i);
    LeadsOn(s, a, s1, b, s2, i);
    steps, s' := a + b, s2;
    if s2.worker.Writing? && s2.worker.done == [] && s2.worker.rest == [] && s2.shared.memtable == [] {
      NothingQueued(s2);
    }
  }

  lemma TopStep(s: State, i: nat)
    requires Inv(s) && SameWait(s, s, i) && s.worker.Awake?
    ensures var s' := Apply(s, WorkerTop);
            && Leads(s, [WorkerTop], s', i)
            && (if s'.worker.Writing? then !s'.worker.refused && s'.shared.memtable == []
                else s'.shared.flushedLogIndex == |s'.pushed|)
  {
    NextBatchEffect(s.shared);
    LeadsStep(s, WorkerTop, i);
    if s.shared.memtable == [] {
      NothingQueued(s);
    }
  }

  lemma FromAwake(s: State, i: nat) returns (steps: seq<Step>, s': State)
    requires Inv(s) && SameWait(s, s, i) && s.worker.Awake? && !s.files.noSpace
    ensures Leads(s, steps, s', i)
    ensures s'.shared.flushedLogIndex == |s'.pushed|
  {
    TopStep(s, i);
    var s1 := Apply(s, WorkerTop);
    steps, s' := [WorkerTop], s1;
    if s1.worker.Writing? {
      var b;
      b, s' := FlushAll(s1, i);
      LeadsOn(s, [WorkerTop], s1, b, s', i);
      steps := [WorkerTop] + b;
    }
  }

  lemma FromTable(s: State, i: nat) returns (steps: seq<Step>, s': State)
    requires Inv(s) && SameWait(s, s, i) && (s.worker.Writing? || s.worker.Flushed?) && !s.files.noSpace
    ensures Leads(s, steps, s', i)
    ensures s'.shared.flushedLogIndex == |s'.pushed|
  {
    var a, s1 := [], s;
    if s.worker.Writing? && !s.worker.refused {
      a, s1 := WriteOut(s, i);
    }
    var b, s2 := FinishTable(s1, i);
    LeadsOn(s, a, s1, b, s2, i);
    steps, s' := a + b, s2;
    if s2.shared.flushedLogIndex != |s2.pushed| {
      var c;
      c, s' := FlushAll(s2, i);
      LeadsOn(s, a + b, s2, c, s', i);
      steps := a + b + c;
    }
  }

  /** Even while `errno` is ENOSPC, the messages already reported can be committed. */
  lemma CommitReported(s: State, i: nat) returns (steps: seq<Step>, s': State)
    requires Inv(s) && SameWait(s, s, i) && !s.worker.Exited? && s.files.noSpace
    ensures Leads(s, steps, s', i)
    ensures s'.shared.flushedLogIndex == |s.files.log.reported|
  {
    if s.worker.Asleep? || s.worker.Awake? {
      steps, s' := [], s;
    } else {
      var a, s1 := [], s;
      if s.worker.Writing? && !s.worker.refused && s.worker.rest != [] {
        WriteStep(s, i);
        a, s1 := [WorkerWrite(WILLING)], Apply(s, WorkerWrite(WILLING));
      }
      var b;
      b, s' := FinishTable(s1, i);
      LeadsOn(s, a, s1, b, s', i);
      steps := a + b;
    }
  }

  ghost predicate CanLeave(s: State, i: nat) {
    Enabled(s, Recheck(i)) && Apply(s, Recheck(i)).writers[i] == Idle
  }

  /** A blocked writer whose message is flushed is awake and leaves its loop. */
  lemma FlushedCanLeave(s: State, i: nat)
    requires Inv(s) && i < |s.writers| && s.writers[i].Blocked?
    ensures CanLeave(s, i) <==> s.writers[i].need <= s.shared.flushedLogIndex
  {
    var w := s.writers[i];
    assert IsAsleep(w) ==> w.need > s.shared.flushedLogIndex;
    if !w.asleep {
      assert Enabled(s, Recheck(i));
      assert w.need > s.shared.flushedLogIndex ==> Apply(s, Recheck(i)).writers[i] == w.(asleep := true);
      assert w.need <= s.shared.flushedLogIndex ==> Apply(s, Recheck(i)).writers[i] == Idle;
    }
  }

  /** Some steps of the worker alone, with a willing disk, let the writer return. */
  ghost predicate CanBeReleased(s: State, i: nat) {
    exists steps, s' :: IsRun(s, steps, s') && WorkerOnly(steps) && CanLeave(s', i)
  }

  /** Deadlock freedom: no spurious wake-up is needed to release a blocked writer, if the
      disk is willing and `errno` is not ENOSPC, or the message has been reported. */
  lemma BlockedWriterCanReturn(s: State, i: nat)
    requires Inv(s) && SameWait(s, s, i) && !s.worker.Exited?
    requires !s.files.noSpace || s.writers[i].need <= |s.files.log.reported|
    ensures CanBeReleased(s, i)
  {
    var steps, s';
    if s.files.noSpace {
      steps, s' := CommitReported(s, i);
    } else if s.worker.Asleep? {
      steps, s' := [], s;
    } else if s.worker.Awake? {
      steps, s' := FromAwake(s, i);
    } else {
      steps, s' := FromTable(s, i);
    }
    assert Leads(s, steps, s', i) && s'.writers[i].need <= s'.shared.flushedLogIndex;
    FlushedCanLeave(s', i);
  }

  // ---- when it is never released ----

  /** The calls of the step leave `errno` alone, as calls that succeed do. */
  predicate KeepsErrno(step: Step) {
    match step
    case WorkerWrite(disk) => disk.errno == Unchanged
    case WorkerFlush(flushing) => flushing.errno == Unchanged
    case _ => true
  }

  /** The writer waits for a message no write of which has reported success, and `errno` is
      ENOSPC. */
  ghost predicate Stuck(s: State, i: nat) {
    && Inv(s) && s.files.noSpace
    && i < |s.writers| && s.writers[i].Blocked?
    && s.writers[i].need > |s.files.log.reported|
  }

  lemma ReachableStuck(s: State)
    requires Reachable(s) && s.files.noSpace
    ensures forall i | 0 <= i < |s.writers| && s.writers[i].Blocked? && s.writers[i].need > |s.files.log.reported| ::
              Stuck(s, i)
  {
    ReachableInv(s);
  }

  lemma StuckFiles(s: State, step: Step)
    requires Inv(s) && s.files.noSpace && Enabled(s, step) && KeepsErrno(step)
    ensures Apply(s, step).files.noSpace
    ensures Apply(s, step).files.log.reported == s.files.log.reported
  {
    match step
    case WorkerWrite(disk) => WriteEntryAdds(s.files, s.limit, Load(s.memory, s.worker.rest[0].buffer), disk);
    case WorkerFlush(flushing) => FlushKeepsRecords(s.files, flushing, s.limit);
    case LastFlush(succeeds) => FlushKeepsRecords(s.files, Flushing(succeeds, Unchanged), s.limit);
    case _ =>
  }

  lemma StuckWriter(s: State, step: Step, i: nat)
    requires i < |s.writers| && s.writers[i].Blocked? && s.writers[i].need > s.shared.flushedLogIndex
    requires Enabled(s, step)
    ensures var s' := Apply(s, step);
            && i < |s'.writers| && s'.writers[i].Blocked?
            && s'.writers[i].need == s.writers[i].need
  {
  }

  /** Nothing in the program clears `errno`. Once it is ENOSPC, whatever the threads do, a
      synchronous writer whose message has not been reported stays blocked for as long as
      all calls succeed: the disk having room again does not help. */
  lemma {:induction false} StuckForever(s: State, steps: seq<Step>, s': State, i: nat)
    requires Stuck(s, i) && IsRun(s, steps, s')
    requires forall step <- steps :: KeepsErrno(step)
    ensures Stuck(s', i) && !CanLeave(s', i)
    decreases |steps|
  {
    FlushedCanLeave(s, i);
    if steps != [] {
      StepKeeps(s, steps[0]);
      StuckFiles(s, steps[0]);
      StuckWriter(s, steps[0], i);
      StuckForever(Apply(s, steps[0]), steps[1..], s', i);
    }
  }

  /** With a willing disk the worker can release a blocked writer if and only if `errno` is
      not ENOSPC or the message has already been reported. */
  lemma ReleaseExactlyWhen(s: State, i: nat)
    requires Reachable(s) && i < |s.writers| && s.writers[i].Blocked? && !s.worker.Exited?
    ensures CanBeReleased(s, i) <==> !s.files.noSpace || s.writers[i].need <= |s.files.log.reported|
  {
    ReachableInv(s);
    if !s.files.noSpace || s.writers[i].need <= |s.files.log.reported| {
      BlockedWriterCanReturn(s, i);
    } else {
      forall steps, s' | IsRun(s, steps, s') && WorkerOnly(steps)
        ensures !CanLeave(s', i)
      {
        StuckForever(s, steps, s', i);
      }
    }
  }
}
