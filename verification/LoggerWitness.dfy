/** Concrete runs of the logger in which the disk misbehaves: what the exact conditions of
    the theorems shut out does happen. */
module LoggerWitness {
  import opened LogFiles
  import opened LogHistory
  import opened Options
  import opened LoggerProtocol
  import opened LoggerInvariant
  import opened LoggerTheorems
  import opened LoggerRelease
  import opened LoggerFilling

  /** A new logger with two client threads, its first file open, and a limit of one byte. */
  ghost function Fresh(): State {
    State(1, Shared(1, 4, 0, 0, 0, 0, 0, [], true, 0), CreateFile(NO_FILES, true, true, 0),
          FirstBuffers(MAX_LOG_ENTRY), seq(MAX_LOG_ENTRY, _ => ""), [Idle, Idle], Awake, [])
  }

  lemma FreshReachable()
    ensures Reachable(Fresh())
  {
    assert Fresh().files == CreateFile(NO_FILES.(named := true), true, true, 0);
    assert Init(Fresh());
    assert IsRun(Fresh(), [], Fresh());
  }

  /** Thread `i` has formatted a message that must be flushed. */
  ghost function Prepared(s: State, i: nat, text: string): State
    requires i < |s.writers| && s.freeList != [] && s.freeList[0] < |s.memory|
  {
    s.(writers := s.writers[i := Ready(Entry(s.freeList[0], |text|), true)],
       freeList := s.freeList[1..],
       memory := s.memory[s.freeList[0] := text])
  }

  lemma Prepare(s: State, i: nat, text: string)
    requires Reachable(s) && i < |s.writers| && s.writers[i] == Idle && s.freeList != [] && s.freeList[0] < |s.memory|
    requires s.shared.logLevel == 1 && s.shared.syncLogLevel == 4
    ensures Reachable(Prepared(s, i, text))
  {
    StepReachable(s, Begin(i, 4));
    var s1 := Apply(s, Begin(i, 4));
    assert s1 == SetWriter(s, i, Chosen(4, true));
    StepReachable(s1, Allocate(i));
    var s2 := Apply(s1, Allocate(i));
    StepReachable(s2, Format(i, text));
    assert Apply(s2, Format(i, text)).writers == Prepared(s, i, text).writers;
    assert Apply(s2, Format(i, text)) == Prepared(s, i, text);
  }

  /** The first message waits in the table the worker has taken. */
  ghost function InTable(text: string): State {
    var s := Fresh();
    s.(shared := s.shared.(writtenLogIndex := 1, memtableSize := |text|, blockedThreads := 1),
       freeList := s.freeList[1..],
       memory := s.memory[0 := text],
       writers := [Blocked(1, text, true), Idle],
       worker := Writing([], [Entry(0, |text|)], false),
       pushed := [text])
  }

  /** The first message is queued. */
  ghost function InQueue(text: string): State {
    var s := InTable(text);
    s.(shared := s.shared.(memtable := [Entry(0, |text|)]), worker := Awake)
  }

  /** What a synchronous write does to an empty queue. */
  lemma PushWaiting(s: State, i: nat, e: Entry, text: string)
    requires i < |s.writers| && s.writers[i] == Ready(e, true) && text == Load(s.memory, e.buffer)
    requires s.shared.diskFullTryTimes == 0 && s.shared.memtable == []
    requires s.shared.writtenLogIndex >= s.shared.flushedLogIndex
    ensures Enabled(s, Push(i, Nothing))
    ensures var sh := s.shared;
            Apply(s, Push(i, Nothing)) ==
            s.(shared := sh.(memtable := [e], writtenLogIndex := sh.writtenLogIndex + 1,
                             memtableSize := sh.memtableSize + e.length, blockedThreads := sh.blockedThreads + 1),
               writers := WakeAll(s.writers)[i := Blocked(sh.writtenLogIndex + 1, text, true)],
               worker := if s.worker.Asleep? then Awake else s.worker,
               pushed := s.pushed + [text])
  {
    assert [] + [e] == [e];
  }

  lemma InQueueReachable(text: string)
    ensures Reachable(InQueue(text))
  {
    FreshReachable();
    Prepare(Fresh(), 0, text);
    var s := Prepared(Fresh(), 0, text);
    PushWaiting(s, 0, Entry(0, |text|), text);
    StepReachable(s, Push(0, Nothing));
    assert Apply(s, Push(0, Nothing)).writers == InQueue(text).writers;
    assert [] + [text] == [text];
    assert Apply(s, Push(0, Nothing)) == InQueue(text);
  }

  lemma InTableReachable(text: string)
    ensures Reachable(InTable(text))
  {
    InQueueReachable(text);
    StepReachable(InQueue(text), WorkerTop);
    assert Apply(InQueue(text), WorkerTop) == InTable(text);
  }

  // ---- a flush that fails ----

  const E := Entry(0, 1)
  const E1 := Entry(1, 1)
  const A := Record(0, "a")
  const B := Record(1, "b")
  const FILE_A := LogFile(0, [A], [Tally(0, 0, 0)], Tally(1, 0, 0))

  lemma FirstWrite()
    ensures WriteEntry(InTable("a").files, 1, "a", WILLING)
            == (Files(true, [], Some(FILE_A), 1, 0, false, History(["a"], 0, 0, 0, 0)), true)
  {
    assert InTable("a").files == Files(true, [], Some(EmptyFile(0)), 0, 0, false, NO_HISTORY);
    assert [] + Taken(0, "a", TakesAll) == [A] && [] + [Tally(0, 0, 0)] == [Tally(0, 0, 0)];
    assert [] + ["a"] == ["a"];
  }

  /** The record is written, the flush has failed, and the writer has been notified. */
  ghost function FlushFailed(): State {
    var s := InTable("a");
    s.(shared := s.shared.(memtableSize := 0, flushedLogIndex := 1),
       files := Files(true, [], Some(FILE_A), 1, 0, true, History(["a"], 0, 0, 0, 0)),
       freeList := s.freeList + [0],
       writers := [Blocked(1, "a", false), Idle],
       worker := Asleep)
  }

  /** The record is written and reported. */
  ghost function FirstReported(): State {
    var s := InTable("a");
    s.(files := Files(true, [], Some(FILE_A), 1, 0, false, History(["a"], 0, 0, 0, 0)),
       freeList := s.freeList + [0],
       worker := Writing([E], [], false))
  }

  lemma FirstReportedReachable()
    ensures Reachable(FirstReported())
  {
    InTableReachable("a");
    FirstWrite();
    StepReachable(InTable("a"), WorkerWrite(WILLING));
    assert [] + [E] == [E] && [E][1..] == [];
    assert Apply(InTable("a"), WorkerWrite(WILLING)) == FirstReported();
  }

  lemma FailToFlush()
    ensures Reachable(Apply(FirstReported(), WorkerFlush(Flushing(false, NoSpace))))
  {
    FirstReportedReachable();
    StepReachable(FirstReported(), WorkerFlush(Flushing(false, NoSpace)));
  }

  lemma WriteThenFailToFlush()
    ensures Reachable(FlushFailed())
  {
    FailToFlush();
    var s := Apply(FirstReported(), WorkerFlush(Flushing(false, NoSpace)));
    StepReachable(s, WorkerCommit(TheWriter(0)));
    assert Lengths([E][..0]) == 0 && Lengths([E]) == 1;
    assert Apply(s, WorkerCommit(TheWriter(0))).writers == FlushFailed().writers;
    assert Apply(s, WorkerCommit(TheWriter(0))) == FlushFailed();
  }

  lemma NotDurable()
    ensures !DurableUpTo(FlushFailed(), 1) && Honest(FlushFailed().files.log)
  {
    var s := FlushFailed();
    assert !IsDurable(Written(s.files), s.files.durable, 0, s.pushed[0]);
  }

  /** A synchronous write returns although its message has not left the stdio buffer: every
      write was honest, but the flush failed and the program does not look. */
  lemma SyncWriteReturnsUnflushed() returns (s: State)
    ensures Reachable(s) && Honest(s.files.log)
    ensures Enabled(s, Recheck(0)) && Apply(s, Recheck(0)).writers[0].Idle?
    ensures s.files.durable < s.writers[0].need && !DurableUpTo(s, s.writers[0].need)
  {
    s := FlushFailed();
    WriteThenFailToFlush();
    NotDurable();
  }

  /** The worker exits in the same way. */
  lemma ExitsUnflushed() returns (s: State)
    ensures Reachable(s) && Honest(s.files.log) && Enabled(s, WorkerTop)
    ensures var s' := Apply(s, WorkerTop); s'.worker.Exited? && !DurableUpTo(s', |s'.pushed|)
  {
    WriteThenFailToFlush();
    NotDurable();
    StepReachable(FlushFailed(), Shutdown);
    s := Apply(FlushFailed(), Shutdown);
    var s' := Apply(s, WorkerTop);
    assert s'.files == FlushFailed().files && s'.pushed == ["a"];
  }

  // ---- the error number stays ----

  /** The first writer has returned, and the second waits for its message, which the worker
      has taken. All of this after the failed flush. */
  ghost function SecondInTable(): State {
    var s := FlushFailed();
    s.(shared := s.shared.(writtenLogIndex := 2, memtableSize := 1),
       freeList := s.freeList[1..],
       memory := s.memory[1 := "b"],
       writers := [Idle, Blocked(2, "b", true)],
       worker := Writing([], [E1], false),
       pushed := ["a", "b"])
  }

  ghost function SecondReady(): State {
    Prepared(Apply(FlushFailed(), Recheck(0)), 1, "b")
  }

  lemma SecondReadyReachable()
    ensures Reachable(SecondReady())
  {
    WriteThenFailToFlush();
    StepReachable(FlushFailed(), Recheck(0));
    var s := Apply(FlushFailed(), Recheck(0));
    assert s.freeList[0] == 1 && s.writers[1] == Idle;
    Prepare(s, 1, "b");
  }

  ghost function SecondInQueue(): State {
    var s := SecondInTable();
    s.(shared := s.shared.(memtable := [E1]), worker := Awake)
  }

  lemma SecondInQueueReachable()
    ensures Reachable(SecondInQueue())
  {
    SecondReadyReachable();
    PushWaiting(SecondReady(), 1, E1, "b");
    StepReachable(SecondReady(), Push(1, Nothing));
    var s := Apply(SecondReady(), Push(1, Nothing));
    assert s.writers == SecondInQueue().writers;
    assert ["a"] + ["b"] == ["a", "b"];
    assert s == SecondInQueue();
  }

  lemma SecondInTableReachable()
    ensures Reachable(SecondInTable())
  {
    SecondInQueueReachable();
    StepReachable(SecondInQueue(), WorkerTop);
    assert Apply(SecondInQueue(), WorkerTop) == SecondInTable();
  }

  lemma SecondIsStuck()
    ensures Reachable(SecondInTable()) && Stuck(SecondInTable(), 1)
  {
    SecondInTableReachable();
    ReachableStuck(SecondInTable());
  }

  /** After the failed flush the error number stays, and the next synchronous write can
      never return while all further calls succeed. */
  lemma FailedFlushBlocksForever() returns (s: State)
    ensures Reachable(s) && Stuck(s, 1) && !s.worker.Exited? && Stays(s.files, s.limit)
    ensures forall steps, s' | IsRun(s, steps, s') && (forall step <- steps :: KeepsErrno(step)) ::
              !CanLeave(s', 1)
  {
    s := SecondInTable();
    SecondIsStuck();
    NeverLeaves(s);
  }

  lemma NeverLeaves(s: State)
    requires Stuck(s, 1)
    ensures forall steps, s' | IsRun(s, steps, s') && (forall step <- steps :: KeepsErrno(step)) ::
              !CanLeave(s', 1)
  {
    forall steps, s' | IsRun(s, steps, s') && (forall step <- steps :: KeepsErrno(step))
      ensures !CanLeave(s', 1)
    {
      StuckForever(s, steps, s', 1);
    }
  }

  const FILE_AB := LogFile(0, [A, B], [Tally(0, 0, 0), Tally(1, 0, 0)], Tally(1, 1, 0))

  /** The write call succeeds, but finds the number the flush has left. */
  ghost function SecondRefused(): State {
    SecondInTable().(files := Files(true, [], Some(FILE_AB), 1, 0, true, History(["a"], 0, 1, 0, 0)),
                     worker := Writing([], [E1], true))
  }

  lemma SecondWrite()
    ensures WriteEntry(SecondInTable().files, 1, "b", WILLING) == (SecondRefused().files, false)
  {
    assert [A] + Taken(1, "b", TakesAll) == [A, B];
    assert [Tally(0, 0, 0)] + [Tally(1, 0, 0)] == FILE_AB.before;
    assert ["a"] + [] == ["a"];
  }

  lemma SecondRefusedReachable()
    ensures Reachable(SecondRefused())
  {
    SecondInTableReachable();
    SecondWrite();
    StepReachable(SecondInTable(), WorkerWrite(WILLING));
    assert Apply(SecondInTable(), WorkerWrite(WILLING)) == SecondRefused();
  }

  lemma FlushRefused(flushing: Flushing)
    ensures Reachable(Apply(SecondRefused(), WorkerFlush(flushing)))
  {
    SecondRefusedReachable();
    StepReachable(SecondRefused(), WorkerFlush(flushing));
  }

  /** The worker is back at the refused message after a flush. */
  ghost function SecondAgain(flushing: Flushing): State {
    var s := SecondRefused();
    s.(files := Flush(s.files, flushing),
       writers := [Idle, Blocked(2, "b", false)],
       worker := Writing([], [E1], false))
  }

  lemma SecondAgainReachable(flushing: Flushing)
    ensures Reachable(SecondAgain(flushing))
  {
    FlushRefused(flushing);
    var s := Apply(SecondRefused(), WorkerFlush(flushing));
    StepReachable(s, WorkerCommit(TheWriter(1)));
    var s' := Apply(s, WorkerCommit(TheWriter(1)));
    NextBatchEffect(Commit(s.shared, [], [E1]).0);
    assert [E1] + [] == [E1];
    assert s'.writers == SecondAgain(flushing).writers;
    assert s' == SecondAgain(flushing);
  }

  /** The file with the second message in it twice; `reported` says whether the second try
      was reported. When the second copy was added, two bytes were in the file. */
  ghost function Twice(reported: bool): LogFile {
    LogFile(0, [A, B, B], [Tally(0, 0, 0), Tally(1, 0, 0), Tally(1, 1, 0)],
            if reported then Tally(2, 1, 0) else Tally(1, 2, 0))
  }

  lemma ThirdWrite(f: Files)
    requires f.named && f.closed == [] && f.current == Some(FILE_AB) && f.size == 1
    requires f.log.reported == ["a"] && f.log.extra == 1 && f.log.missing == 0
    ensures var (f', ok) := WriteEntry(f, 1, "b", WILLING);
            && ok == !f.noSpace
            && f'.closed == [] && f'.current == Some(Twice(ok))
            && f'.log.reported == (if ok then ["a", "b"] else ["a"])
            && f'.log.missing == 0 && f'.log.dropped == f.log.dropped
            && f'.log.extra == (if ok then 1 else 2)
  {
    assert [A, B] + Taken(1, "b", TakesAll) == [A, B, B];
    assert FILE_AB.before + [Tally(1, 1, 0)] == Twice(true).before;
    assert ["a"] + ["b"] == ["a", "b"] && ["a"] + [] == ["a"];
  }

  lemma TwoCopies(f: Files, reported: bool)
    requires f.closed == [] && f.current == Some(Twice(reported))
    ensures Written(f) == [A, B, B] && !NoDuplicate(Written(f))
  {
    assert [] + [A, B, B] == [A, B, B];
    assert Written(f)[1].id == Written(f)[2].id;
  }

  /** A message that is reported is in the file twice: its first write took it and found the
      number a failed flush had left. Every write call succeeds. */
  lemma RecordTwice() returns (s: State)
    ensures Reachable(s) && Lossless(s.files.log)
    ensures s.files.log.reported == s.pushed == ["a", "b"]
    ensures Written(s.files) == [A, B, B] && !NoDuplicate(Written(s.files))
  {
    s := WrittenAgain(Flushing(false, OtherError));
    TwoCopies(s.files, true);
  }

  /** While the number stays, the message is in the file twice before it is ever reported. */
  lemma RecordTwiceUnreported() returns (s: State)
    ensures Reachable(s) && Lossless(s.files.log) && Waiting(Written(s.files), s.files.log)
    ensures s.files.log.reported == ["a"]
    ensures Written(s.files) == [A, B, B] && !NoDuplicate(Written(s.files))
  {
    s := WrittenAgain(WILLING_FLUSH);
    TwoCopies(s.files, false);
    CopyWaits(Written(s.files), s.files.log);
  }

  lemma CopyWaits(w: seq<Record>, h: History)
    requires w == [A, B, B] && h.reported == ["a"]
    ensures Waiting(w, h)
  {
    assert w[1].id == |h.reported|;
  }

  /** The second try of the refused message, after a flush. */
  lemma WrittenAgain(flushing: Flushing) returns (s: State)
    ensures var reported := !SetErrno(true, flushing.errno);
            && Reachable(s) && Lossless(s.files.log) && s.pushed == ["a", "b"] && s.limit == 1 && s.files.named
            && s.files.closed == [] && s.files.current == Some(Twice(reported))
            && s.files.log.reported == (if reported then ["a", "b"] else ["a"])
  {
    SecondAgainReachable(flushing);
    ThirdWrite(SecondAgain(flushing).files);
    StepReachable(SecondAgain(flushing), WorkerWrite(WILLING));
    s := Apply(SecondAgain(flushing), WorkerWrite(WILLING));
  }

  /** A record is added to a file that is really larger than the limit: the refused write did
      not advance the counted size, so the file is not rotated. */
  lemma LimitExceeded() returns (s: State, file: LogFile)
    ensures Reachable(s) && s.files.named && IsFile(s.files, file)
    ensures |file.records| == |file.before| == 3 && RealSize(file, 2) == 2 > Max(s.limit, file.header)
    ensures file.before[2].counted <= Max(s.limit, file.header)
  {
    s := WrittenAgain(Flushing(false, OtherError));
    file := Twice(true);
    assert file.records[..2] == [A, B] && [A, B][..1] == [A] && [A][..0] == [];
    assert Bytes([A, B]) == Bytes([A]) + 1 && Bytes([A]) == Bytes([]) + 1;
  }

  // ---- a write that loses its record ----

  /** A write that fails with another error than ENOSPC reports success: whatever it should
      have written, the message is reported and in no file. */
  lemma RecordMissing(text: string) returns (s: State)
    requires text != ""
    ensures Reachable(s) && s.files.log.reported == s.pushed == [text] && Written(s.files) == []
  {
    InTableReachable(text);
    var fail := WorkerWrite(WILLING.(took := TakesPart(0), errno := OtherError));
    StepReachable(InTable(text), fail);
    s := Apply(InTable(text), fail);
    assert [] + [text] == [text];
  }

  // ---- a synchronous write during shutdown ----

  /** The first thread has another message ready after the refused one was flushed. */
  ghost function ThirdReady(): State {
    Prepared(Apply(SecondRefused(), WorkerFlush(WILLING_FLUSH)), 0, "c")
  }

  lemma ThirdReadyReachable()
    ensures Reachable(ThirdReady())
  {
    FlushRefused(WILLING_FLUSH);
    var s := Apply(SecondRefused(), WorkerFlush(WILLING_FLUSH));
    assert s.freeList[0] == 2 && s.writers[0] == Idle;
    Prepare(s, 0, "c");
  }

  /** Shutdown has begun after a refusal, and another thread is about to write. */
  lemma ShutdownAfterRefusal() returns (s: State)
    ensures Reachable(s) && !s.shared.running && s.worker == Flushed([], [E1]) && s.shared.blockedThreads == 1
    ensures |s.writers| == 2 && s.writers[1].Blocked? && !s.writers[1].asleep
    ensures s.writers[0].Ready? && s.writers[0].flush
  {
    ThirdReadyReachable();
    StepReachable(ThirdReady(), Shutdown);
    s := Apply(ThirdReady(), Shutdown);
  }

  /** The early return of a synchronous write is reachable: during shutdown, after a
      refusal, it returns although its message is only queued. */
  lemma ShutdownSyncWriteReturns() returns (s: State, s': State)
    ensures Reachable(s) && Enabled(s, Push(0, Nothing)) && s.writers[0].flush
    ensures s' == Apply(s, Push(0, Nothing))
    ensures s'.writers[0] == Idle && |s'.files.log.reported| < |s'.pushed|
  {
    var s0 := ShutdownAfterRefusal();
    StepReachable(s0, WorkerCommit(Nothing));
    s := Apply(s0, WorkerCommit(Nothing));
    NextBatchEffect(Commit(s0.shared, [], [E1]).0);
    assert s.writers[0] == s0.writers[0];
    assert s.shared.diskFullTryTimes == DISK_FULL_TRIES;
    s' := Apply(s, Push(0, Nothing));
    ShutdownSyncWriteMayReturn(s0, Nothing, 0, Nothing);
  }
}
