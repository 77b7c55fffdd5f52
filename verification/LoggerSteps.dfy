/** Every step of the logger protocol keeps the invariant. */
module LoggerSteps {
  import opened LogFiles
  import opened LoggerProtocol
  import opened LoggerInvariant

  /** The part of the invariant that depends on the writers, for a new list of writers. */
  ghost predicate WritersFit(s: State, ws: seq<Writer>) {
    && OwnMessages(ws, s.pushed)
    && SleepersWait(ws, s.shared.flushedLogIndex)
    && (s.worker.Asleep? ==> NoneNeedsWorker(ws, s.shared.flushedLogIndex))
    && ReadyMeasured(s.memory, ws)
    && Pooled(|s.memory|, s.freeList, ws, s.shared.memtable, InFlight(s.worker))
  }

  lemma ReplaceWriters(s: State, ws: seq<Writer>)
    requires Inv(s) && WritersFit(s, ws)
    ensures Inv(s.(writers := ws, shared := s.shared.(blockedThreads := BlockedCount(ws))))
  {
  }

  /** Replacing a writer by one with the same buffers that is not newly blocked. */
  lemma FitUpdate(s: State, i: nat, w: Writer)
    requires Inv(s) && i < |s.writers| && !w.Ready?
    requires forall b :: Holds(w, b) == Holds(s.writers[i], b)
    requires w.Blocked? ==>
               && s.writers[i].Blocked? && w.need == s.writers[i].need && w.own == s.writers[i].own
               && (w.asleep ==> w.need > s.shared.flushedLogIndex)
    ensures WritersFit(s, s.writers[i := w])
  {
    WriterUpdate(s.writers, i, w, s.pushed, s.shared.flushedLogIndex);
    ReadyUpdate(s.memory, s.writers, i, w);
    HeldSame(|s.memory|, s.freeList, s.writers, s.shared.memtable, InFlight(s.worker), i, w);
  }

  /** Replacing a writer that is not blocked by another such writer, with the same buffers. */
  lemma SwapUnblockedWriter(s: State, i: nat, w: Writer)
    requires Inv(s) && i < |s.writers| && !s.writers[i].Blocked? && !w.Blocked? && !w.Ready?
    requires forall b :: Holds(w, b) == Holds(s.writers[i], b)
    ensures Inv(SetWriter(s, i, w))
  {
    BlockedCountUpdate(s.writers, i, w);
    FitUpdate(s, i, w);
    ReplaceWriters(s, s.writers[i := w]);
  }

  lemma HeldSame(
    n: nat, free: seq<Buffer>, ws: seq<Writer>, memtable: seq<Entry>, inFlight: seq<Entry>, i: nat, w: Writer)
    requires Pooled(n, free, ws, memtable, inFlight)
    requires i < |ws| && forall b :: Holds(w, b) == Holds(ws[i], b)
    ensures Pooled(n, free, ws[i := w], memtable, inFlight)
  {
    var ws' := ws[i := w];
    forall b: Buffer
      ensures Places(b, free, ws', memtable, inFlight) == Places(b, free, ws, memtable, inFlight)
    {
      HeldUpdate(ws, i, w, b);
    }
  }

  lemma ReadyUpdate(memory: seq<string>, ws: seq<Writer>, i: nat, w: Writer)
    requires ReadyMeasured(memory, ws) && i < |ws| && !w.Ready?
    ensures ReadyMeasured(memory, ws[i := w])
  {
  }

  /** The fields no part of the invariant mentions. */
  lemma SetUntracked(s: State, missLogs: nat, logLevel: int, syncLogLevel: int)
    requires Inv(s)
    ensures Inv(s.(shared := s.shared.(missLogs := missLogs, logLevel := logLevel, syncLogLevel := syncLogLevel)))
  {
  }

  lemma BeginKeeps(s: State, i: nat, level: int)
    requires Inv(s) && Enabled(s, Begin(i, level))
    ensures Inv(Apply(s, Begin(i, level)))
  {
    SwapUnblockedWriter(s, i, Chosen(level, level >= s.shared.syncLogLevel));
  }

  lemma GiveUpOrWaitKeeps(s: State, i: nat)
    requires Inv(s) && Enabled(s, GiveUpOrWait(i))
    ensures Inv(Apply(s, GiveUpOrWait(i)))
  {
    var w := s.writers[i];
    if w.level < s.shared.syncLogLevel {
      SwapUnblockedWriter(s, i, Idle);
    } else {
      SwapUnblockedWriter(s, i, Retrying(w.flush));
    }
  }

  lemma CountMissKeeps(s: State, i: nat)
    requires Inv(s) && Enabled(s, CountMiss(i))
    ensures Inv(Apply(s, CountMiss(i)))
  {
    SwapUnblockedWriter(s, i, Idle);
  }

  lemma TakeBufferKeeps(s: State, i: nat, flush: bool, none: Writer)
    requires Inv(s) && i < |s.writers| && (s.writers[i].Chosen? || s.writers[i].Retrying?)
    requires none.OutOfBuffers? || none.Missed?
    ensures Inv(TakeBuffer(s, i, flush, none))
  {
    if s.freeList == [] {
      SwapUnblockedWriter(s, i, none);
    } else {
      var w := Formatting(s.freeList[0], flush);
      BlockedCountUpdate(s.writers, i, w);
      WriterUpdate(s.writers, i, w, s.pushed, s.shared.flushedLogIndex);
      ReadyUpdate(s.memory, s.writers, i, w);
      TakePooled(|s.memory|, s.freeList, s.writers, s.shared.memtable, InFlight(s.worker), i, flush);
    }
  }

  /** Taking the first free buffer moves it into the writer's hands. */
  lemma TakePooled(
    n: nat, free: seq<Buffer>, ws: seq<Writer>, memtable: seq<Entry>, inFlight: seq<Entry>, i: nat, flush: bool)
    requires Pooled(n, free, ws, memtable, inFlight)
    requires i < |ws| && !ws[i].Formatting? && !ws[i].Ready? && free != []
    ensures Pooled(n, free[1..], ws[i := Formatting(free[0], flush)], memtable, inFlight)
  {
    var w := Formatting(free[0], flush);
    var ws' := ws[i := w];
    forall b: Buffer
      ensures Places(b, free[1..], ws', memtable, inFlight) == Places(b, free, ws, memtable, inFlight)
    {
      HeldUpdate(ws, i, w, b);
      CountAppend([free[0]], free[1..], b);
      assert free == [free[0]] + free[1..];
    }
  }

  /** A buffer held by a writer is in the pool and nowhere else. */
  lemma HeldElsewhereNot(
    n: nat, free: seq<Buffer>, ws: seq<Writer>, memtable: seq<Entry>, inFlight: seq<Entry>, i: nat, b: Buffer)
    requires Pooled(n, free, ws, memtable, inFlight)
    requires i < |ws| && Holds(ws[i], b)
    ensures b < n
    ensures b !in Buffers(memtable) && b !in Buffers(inFlight)
    ensures forall j | 0 <= j < |ws| && j != i :: !Holds(ws[j], b)
  {
    HeldUpdate(ws, i, Idle, b);
    assert Places(b, free, ws, memtable, inFlight) >= 1;
    NotCounted(Buffers(memtable), b);
    NotCounted(Buffers(inFlight), b);
    forall j | 0 <= j < |ws| && j != i
      ensures !Holds(ws[j], b)
    {
      HeldUpdate(ws[i := Idle], j, Idle, b);
    }
  }

  lemma NotCounted(bs: seq<Buffer>, b: Buffer)
    requires Count(bs, b) == 0
    ensures b !in bs
  {
    if b in bs {
      var k :| 0 <= k < |bs| && bs[k] == b;
      CountPresent(bs, k);
    }
  }

  /** Writing into a buffer no queued entry uses changes no queued text. */
  lemma StoreFrame(memory: seq<string>, b: Buffer, text: string, es: seq<Entry>)
    requires b !in Buffers(es)
    ensures Texts(Store(memory, b, text), es) == Texts(memory, es)
    ensures Measured(memory, es) ==> Measured(Store(memory, b, text), es)
  {
    forall k | 0 <= k < |es|
      ensures Load(Store(memory, b, text), es[k].buffer) == Load(memory, es[k].buffer)
    {
      assert Buffers(es)[k] == es[k].buffer;
    }
  }

  lemma FormatMeasured(memory: seq<string>, ws: seq<Writer>, i: nat, text: string)
    requires ReadyMeasured(memory, ws) && i < |ws| && ws[i].Formatting? && ws[i].buffer < |memory|
    requires forall j | 0 <= j < |ws| && j != i :: !Holds(ws[j], ws[i].buffer)
    ensures ReadyMeasured(Store(memory, ws[i].buffer, text),
                          ws[i := Ready(Entry(ws[i].buffer, |text|), ws[i].flush)])
  {
    var b := ws[i].buffer;
    var ws' := ws[i := Ready(Entry(b, |text|), ws[i].flush)];
    forall j | 0 <= j < |ws'| && ws'[j].Ready?
      ensures |Load(Store(memory, b, text), ws'[j].entry.buffer)| == ws'[j].entry.length
    {
      assert j != i ==> !Holds(ws[j], b);
    }
  }

  lemma FormatUpdate(s: State, b: Buffer, text: string, ws: seq<Writer>)
    requires Inv(s)
    requires b !in Buffers(s.shared.memtable) && b !in Buffers(InFlight(s.worker))
    requires OwnMessages(ws, s.pushed) && SleepersWait(ws, s.shared.flushedLogIndex)
    requires s.worker.Asleep? ==> NoneNeedsWorker(ws, s.shared.flushedLogIndex)
    requires Pooled(|s.memory|, s.freeList, ws, s.shared.memtable, InFlight(s.worker))
    requires ReadyMeasured(Store(s.memory, b, text), ws) && BlockedCount(ws) == s.shared.blockedThreads
    ensures Inv(s.(memory := Store(s.memory, b, text), writers := ws))
  {
    StoreFrame(s.memory, b, text, InFlight(s.worker));
    StoreFrame(s.memory, b, text, s.shared.memtable);
  }

  lemma FormatKeeps(s: State, i: nat, text: string)
    requires Inv(s) && Enabled(s, Format(i, text))
    ensures Inv(Apply(s, Format(i, text)))
  {
    var b := s.writers[i].buffer;
    var w := Ready(Entry(b, |text|), s.writers[i].flush);
    HeldElsewhereNot(|s.memory|, s.freeList, s.writers, s.shared.memtable, InFlight(s.worker), i, b);
    BlockedCountUpdate(s.writers, i, w);
    HeldSame(|s.memory|, s.freeList, s.writers, s.shared.memtable, InFlight(s.worker), i, w);
    WriterUpdate(s.writers, i, w, s.pushed, s.shared.flushedLogIndex);
    FormatMeasured(s.memory, s.writers, i, text);
    FormatUpdate(s, b, text, s.writers[i := w]);
  }

  lemma RecheckKeeps(s: State, i: nat)
    requires Inv(s) && Enabled(s, Recheck(i))
    ensures Inv(Apply(s, Recheck(i)))
  {
    var w := s.writers[i];
    var w' := if w.need > s.shared.flushedLogIndex then w.(asleep := true) else Idle;
    BlockedCountUpdate(s.writers, i, w');
    FitUpdate(s, i, w');
    ReplaceWriters(s, s.writers[i := w']);
  }

  lemma WakeUnaskedKeeps(s: State, i: nat)
    requires Inv(s) && Enabled(s, WakeUnasked(i))
    ensures Inv(Apply(s, WakeUnasked(i)))
  {
    WakeWriterKeeps(s.writers, i);
    FitUpdate(s, i, WakeWriter(s.writers[i]));
    ReplaceWriters(s, s.writers[i := WakeWriter(s.writers[i])]);
  }

  lemma WorkerTimeoutKeeps(s: State)
    requires Inv(s) && Enabled(s, WorkerTimeout)
    ensures Inv(Apply(s, WorkerTimeout))
  {
  }

  lemma WokenPooled(
    n: nat, free: seq<Buffer>, ws: seq<Writer>, memtable: seq<Entry>, inFlight: seq<Entry>,
    note: Notification, target: Target)
    requires Pooled(n, free, ws, memtable, inFlight)
    ensures Pooled(n, free, WokenWriters(ws, note, target), memtable, inFlight)
  {
    WokenWritersKeep(ws, note, target);
    forall b: Buffer
      ensures Places(b, free, WokenWriters(ws, note, target), memtable, inFlight)
              == Places(b, free, ws, memtable, inFlight)
    {
    }
  }

  lemma NotifyKeeps(s: State, n: Notification, target: Target)
    requires Inv(s)
    ensures Inv(Notify(s, n, target))
  {
    WokenWritersKeep(s.writers, n, target);
    WokenWait(s.writers, n, target, s.pushed, s.shared.flushedLogIndex);
    WokenPooled(|s.memory|, s.freeList, s.writers, s.shared.memtable, InFlight(s.worker), n, target);
  }

  lemma ShutdownKeeps(s: State)
    requires Inv(s) && Enabled(s, Shutdown)
    ensures Inv(Apply(s, Shutdown))
  {
    NotifyKeeps(s, All, Nothing);
  }

  // ---- queueing a message ----

  lemma PushOrdered(
    reported: seq<string>, memory: seq<string>, inFlight: seq<Entry>, memtable: seq<Entry>, pushed: seq<string>,
    e: Entry)
    requires Ordered(reported, memory, inFlight, memtable, pushed)
    requires |Load(memory, e.buffer)| == e.length
    ensures Ordered(reported, memory, inFlight, memtable + [e], pushed + [Load(memory, e.buffer)])
  {
    TextsAppend(memory, memtable, [e]);
    assert Texts(memory, [e]) == [Load(memory, e.buffer)];
  }

  lemma PushPooled(
    n: nat, free: seq<Buffer>, ws: seq<Writer>, memtable: seq<Entry>, inFlight: seq<Entry>, i: nat, w: Writer)
    requires Pooled(n, free, ws, memtable, inFlight)
    requires i < |ws| && ws[i].Ready? && !w.Formatting? && !w.Ready?
    ensures Pooled(n, free, ws[i := w], memtable + [ws[i].entry], inFlight)
  {
    var e, ws' := ws[i].entry, ws[i := w];
    forall b: Buffer
      ensures Places(b, free, ws', memtable + [e], inFlight) == Places(b, free, ws, memtable, inFlight)
    {
      HeldUpdate(ws, i, w, b);
      BuffersAppend(memtable, [e], b);
      assert Buffers([e]) == [e.buffer];
    }
  }

  lemma OwnMessagesGrow(ws: seq<Writer>, pushed: seq<string>, text: string)
    requires OwnMessages(ws, pushed)
    ensures OwnMessages(ws, pushed + [text])
  {
  }

  /** The waiting loop a synchronous write enters always waits: its own message has just
      been queued, so it cannot have been flushed. */
  lemma PushWaits(s: State, e: Entry, flush: bool)
    requires Inv(s)
    ensures var (sh, n, waits) := PushSection(s.shared, e, flush);
            && sh == s.shared.(memtable := s.shared.memtable + [e],
                               writtenLogIndex := |s.pushed| + 1,
                               memtableSize := s.shared.memtableSize + e.length,
                               blockedThreads := s.shared.blockedThreads + (if waits then 1 else 0),
                               diskFullTryTimes := sh.diskFullTryTimes)
            && sh.diskFullTryTimes <= s.shared.diskFullTryTimes
            && (waits <==> flush && s.shared.diskFullTryTimes == 0)
            && (waits ==> n == All && |s.pushed| + 1 > s.shared.flushedLogIndex)
  {
  }

  lemma PushKeeps(s: State, i: nat, target: Target)
    requires Inv(s) && Enabled(s, Push(i, target))
    ensures Inv(Apply(s, Push(i, target)))
  {
    var w := s.writers[i];
    var (sh, n, waits) := PushSection(s.shared, w.entry, w.flush);
    PushWaits(s, w.entry, w.flush);
    NotifyKeeps(s, n, target);
    var s1 := Notify(s, n, target);
    assert s1.writers[i] == w;
    assert waits ==> !s1.worker.Asleep?;
    PushUpdate(s1, i, sh, if waits then Blocked(sh.writtenLogIndex, Load(s.memory, w.entry.buffer), true) else Idle);
  }

  lemma PushUpdate(s: State, i: nat, sh: Shared, w: Writer)
    requires Inv(s) && i < |s.writers| && s.writers[i].Ready?
    requires var e := s.writers[i].entry;
             && (w == Idle || (w == Blocked(|s.pushed| + 1, Load(s.memory, e.buffer), true) && !s.worker.Asleep?))
             && sh == s.shared.(memtable := s.shared.memtable + [e],
                                writtenLogIndex := |s.pushed| + 1,
                                memtableSize := s.shared.memtableSize + e.length,
                                blockedThreads := s.shared.blockedThreads + (if w.Blocked? then 1 else 0),
                                diskFullTryTimes := sh.diskFullTryTimes)
             && sh.diskFullTryTimes <= s.shared.diskFullTryTimes
    ensures Inv(SetWriter(s, i, w).(shared := sh, pushed := s.pushed + [Load(s.memory, s.writers[i].entry.buffer)]))
  {
    var e := s.writers[i].entry;
    var text := Load(s.memory, e.buffer);
    PushOrdered(s.files.log.reported, s.memory, InFlight(s.worker), s.shared.memtable, s.pushed, e);
    PushPooled(|s.memory|, s.freeList, s.writers, s.shared.memtable, InFlight(s.worker), i, w);
    BlockedCountUpdate(s.writers, i, w);
    LengthsAppend(s.shared.memtable, [e]);
    assert Lengths([e]) == e.length;
    OwnMessagesGrow(s.writers, s.pushed, text);
    WriterUpdate(s.writers, i, w, s.pushed + [text], s.shared.flushedLogIndex);
    ReadyUpdate(s.memory, s.writers, i, w);
  }

  // ---- the worker ----

  /** At the top of its loop the worker takes the whole queue or finds it empty; when it
      goes to sleep or exits, every message ever pushed is flushed. */
  lemma TopKeeps(s: State)
    requires Inv(s.(worker := Awake, shared := s.shared.(diskFullTryTimes := 0)))
    requires s.shared.diskFullTryTimes <= DISK_FULL_TRIES
    requires s.shared.running && s.shared.diskFullTryTimes > 0 ==> s.shared.memtable != []
    ensures Inv(Top(s))
    ensures !Top(s).worker.Writing? ==> s.shared.flushedLogIndex == |s.pushed| && s.files.log.reported == s.pushed
  {
    NextBatchEffect(s.shared);
    if s.shared.memtable == [] {
      assert s.shared.flushedLogIndex == |s.pushed|;
    } else {
      TakeAllOrdered(s.files.log.reported, s.memory, s.shared.memtable, s.pushed);
      TakeAllPooled(|s.memory|, s.freeList, s.writers, s.shared.memtable);
    }
  }

  lemma TakeAllPooled(n: nat, free: seq<Buffer>, ws: seq<Writer>, memtable: seq<Entry>)
    requires Pooled(n, free, ws, memtable, [])
    ensures Pooled(n, free, ws, [], memtable)
  {
    forall b: Buffer
      ensures Places(b, free, ws, [], memtable) == Places(b, free, ws, memtable, [])
    {
    }
  }

  lemma TakeAllOrdered(reported: seq<string>, memory: seq<string>, memtable: seq<Entry>, pushed: seq<string>)
    requires Ordered(reported, memory, [], memtable, pushed)
    ensures Ordered(reported, memory, memtable, [], pushed)
  {
    assert Texts(memory, []) == [];
  }

  lemma WorkerTopKeeps(s: State)
    requires Inv(s) && Enabled(s, WorkerTop)
    ensures Inv(Apply(s, WorkerTop))
  {
    TopKeeps(s);
  }

  lemma WorkerFlushKeeps(s: State, flushing: Flushing)
    requires Inv(s) && Enabled(s, WorkerFlush(flushing))
    ensures Inv(Apply(s, WorkerFlush(flushing)))
  {
    FlushKeepsRecords(s.files, flushing, s.limit);
  }

  lemma LastFlushKeeps(s: State, succeeds: bool)
    requires Inv(s) && Enabled(s, LastFlush(succeeds))
    ensures Inv(Apply(s, LastFlush(succeeds)))
  {
    FlushKeepsRecords(s.files, Flushing(succeeds, Unchanged), s.limit);
  }

  lemma WriteOrdered(
    reported: seq<string>, memory: seq<string>, e: Entry, rest: seq<Entry>, memtable: seq<Entry>, pushed: seq<string>)
    requires Ordered(reported, memory, [e] + rest, memtable, pushed)
    ensures Ordered(reported + [Load(memory, e.buffer)], memory, rest, memtable, pushed)
  {
    TextsAppend(memory, [e], rest);
    assert Texts(memory, [e]) == [Load(memory, e.buffer)];
    assert forall e' <- rest :: e' in [e] + rest;
  }

  lemma WritePooled(n: nat, free: seq<Buffer>, ws: seq<Writer>, memtable: seq<Entry>, e: Entry, rest: seq<Entry>)
    requires Pooled(n, free, ws, memtable, [e] + rest)
    ensures Pooled(n, free + [e.buffer], ws, memtable, rest)
  {
    forall b: Buffer
      ensures Places(b, free + [e.buffer], ws, memtable, rest) == Places(b, free, ws, memtable, [e] + rest)
    {
      BuffersAppend([e], rest, b);
      CountAppend(free, [e.buffer], b);
      assert Buffers([e]) == [e.buffer];
    }
  }

  lemma WriteKeepsQueue(s: State, files: Files)
    requires Inv(s) && s.worker.Writing? && s.worker.rest != []
    requires files.log.reported == s.files.log.reported + [Load(s.memory, s.worker.rest[0].buffer)]
    ensures var e, rest := s.worker.rest[0], s.worker.rest[1..];
            && Ordered(files.log.reported, s.memory, rest, s.shared.memtable, s.pushed)
            && Counted(s.shared.writtenLogIndex, s.shared.flushedLogIndex, s.shared.memtableSize,
                       files.log.reported, s.worker.done + [e], rest, s.shared.memtable, s.pushed)
            && Pooled(|s.memory|, s.freeList + [e.buffer], s.writers, s.shared.memtable, rest)
  {
    var e, rest := s.worker.rest[0], s.worker.rest[1..];
    assert s.worker.rest == [e] + rest;
    WriteOrdered(s.files.log.reported, s.memory, e, rest, s.shared.memtable, s.pushed);
    WritePooled(|s.memory|, s.freeList, s.writers, s.shared.memtable, e, rest);
    LengthsAppend([e], rest);
    LengthsAppend(s.worker.done, [e]);
    assert Lengths([e]) == e.length;
  }

  lemma WorkerWriteKeeps(s: State, disk: Disk)
    requires Inv(s) && Enabled(s, WorkerWrite(disk))
    ensures Inv(Apply(s, WorkerWrite(disk)))
  {
    var e := s.worker.rest[0];
    var (files, ok) := WriteEntry(s.files, s.limit, Load(s.memory, e.buffer), disk);
    WriteEntryAdds(s.files, s.limit, Load(s.memory, e.buffer), disk);
    if ok {
      WriteKeepsQueue(s, files);
      AcceptedKeeps(s, files);
    } else {
      RefusedKeeps(s, files);
    }
  }

  lemma RefusedKeeps(s: State, files: Files)
    requires Inv(s) && s.worker.Writing? && s.worker.rest != []
    requires FilesInv(files, s.limit) && files.log.reported == s.files.log.reported
    ensures Inv(s.(files := files, worker := Writing(s.worker.done, s.worker.rest, true)))
  {
  }

  lemma AcceptedKeeps(s: State, files: Files)
    requires Inv(s) && s.worker.Writing? && s.worker.rest != []
    requires FilesInv(files, s.limit)
    requires var e, rest := s.worker.rest[0], s.worker.rest[1..];
             && Ordered(files.log.reported, s.memory, rest, s.shared.memtable, s.pushed)
             && Counted(s.shared.writtenLogIndex, s.shared.flushedLogIndex, s.shared.memtableSize,
                        files.log.reported, s.worker.done + [e], rest, s.shared.memtable, s.pushed)
             && Pooled(|s.memory|, s.freeList + [e.buffer], s.writers, s.shared.memtable, rest)
    ensures var e, rest := s.worker.rest[0], s.worker.rest[1..];
            Inv(s.(files := files, freeList := s.freeList + [e.buffer],
                   worker := Writing(s.worker.done + [e], rest, false)))
  {
  }

  lemma NoneBlocked(ws: seq<Writer>, i: nat)
    requires BlockedCount(ws) == 0 && i < |ws|
    ensures !ws[i].Blocked?
  {
    BlockedCountUpdate(ws, i, Idle);
  }

  lemma OnlyBlocked(ws: seq<Writer>, i: nat, j: nat)
    requires BlockedCount(ws) == 1 && i < |ws| && j < |ws| && i != j && ws[i].Blocked?
    ensures !ws[j].Blocked?
  {
    BlockedCountUpdate(ws, i, Idle);
    NoneBlocked(ws[i := Idle], j);
  }

  /** A `notify_one` while a single writer is blocked and the worker is not asleep leaves no
      writer asleep. */
  lemma OneWakesAll(ws: seq<Writer>, target: Target)
    requires BlockedCount(ws) == 1 && !target.TheWorker?
    requires target.Nothing? ==> forall i | 0 <= i < |ws| :: !IsAsleep(ws[i])
    requires target.TheWriter? ==> target.i < |ws| && IsAsleep(ws[target.i])
    ensures forall i | 0 <= i < |ws| :: !IsAsleep(WokenWriters(ws, One, target)[i])
  {
    forall i | 0 <= i < |ws|
      ensures !IsAsleep(WokenWriters(ws, One, target)[i])
    {
      if target.TheWriter? && target.i != i {
        OnlyBlocked(ws, target.i, i);
      }
    }
  }

  lemma NoSleepers(ws: seq<Writer>)
    requires BlockedCount(ws) == 0
    ensures forall j | 0 <= j < |ws| :: !IsAsleep(ws[j])
  {
    forall j | 0 <= j < |ws|
      ensures !IsAsleep(ws[j])
    {
      NoneBlocked(ws, j);
    }
  }

  /** The notification after a flush reaches every sleeping writer, even when it is a
      `notify_one`: that is used only when a single writer is blocked, and the worker is
      not asleep to intercept it. */
  lemma CommitWakesAll(s: State, target: Target)
    requires Inv(s) && Enabled(s, WorkerCommit(target))
    ensures var ws := WokenWriters(s.writers, Commit(s.shared, s.worker.done, s.worker.rest).1, target);
            forall i | 0 <= i < |ws| :: !IsAsleep(ws[i])
  {
    match Commit(s.shared, s.worker.done, s.worker.rest).1
    case All =>
    case Nobody => NoSleepers(s.writers);
    case One => OneWakesAll(s.writers, target);
  }

  lemma RejoinOrdered(
    reported: seq<string>, memory: seq<string>, rest: seq<Entry>, memtable: seq<Entry>, pushed: seq<string>)
    requires Ordered(reported, memory, rest, memtable, pushed)
    ensures Ordered(reported, memory, [], rest + memtable, pushed)
  {
    TextsAppend(memory, rest, memtable);
    assert reported + Texts(memory, rest) + Texts(memory, memtable)
           == reported + [] + (Texts(memory, rest) + Texts(memory, memtable));
  }

  lemma RejoinPooled(n: nat, free: seq<Buffer>, ws: seq<Writer>, memtable: seq<Entry>, rest: seq<Entry>)
    requires Pooled(n, free, ws, memtable, rest)
    ensures Pooled(n, free, ws, rest + memtable, [])
  {
    forall b: Buffer
      ensures Places(b, free, ws, rest + memtable, []) == Places(b, free, ws, memtable, rest)
    {
      BuffersAppend(rest, memtable, b);
    }
  }

  /** Splicing the unwritten entries back in front restores the queue in push order. */
  lemma CommitKeepsQueue(s: State)
    requires Inv(s) && s.worker.Flushed?
    ensures var done, memtable := s.worker.done, s.worker.rest + s.shared.memtable;
            && Ordered(s.files.log.reported, s.memory, [], memtable, s.pushed)
            && Counted(s.shared.writtenLogIndex, s.shared.flushedLogIndex + |done|,
                       s.shared.memtableSize - Lengths(done),
                       s.files.log.reported, [], [], memtable, s.pushed)
            && Pooled(|s.memory|, s.freeList, s.writers, memtable, [])
  {
    RejoinOrdered(s.files.log.reported, s.memory, s.worker.rest, s.shared.memtable, s.pushed);
    LengthsAppend(s.worker.rest, s.shared.memtable);
    RejoinPooled(|s.memory|, s.freeList, s.writers, s.shared.memtable, s.worker.rest);
  }

  lemma WorkerCommitKeeps(s: State, target: Target)
    requires Inv(s) && Enabled(s, WorkerCommit(target))
    ensures Inv(Apply(s, WorkerCommit(target)))
  {
    var (sh, n) := Commit(s.shared, s.worker.done, s.worker.rest);
    NotifyKeeps(s, n, target);
    var s1 := Notify(s, n, target);
    CommitKeepsQueue(s1);
    CommitWakesAll(s, target);
    assert sh.memtable == s.worker.rest + s.shared.memtable;
    TopKeeps(s1.(shared := sh));
  }

  /** The invariant is inductive. */
  lemma StepKeeps(s: State, step: Step)
    requires Inv(s) && Enabled(s, step)
    ensures Inv(Apply(s, step))
  {
    match step
    case Begin(i, level) => BeginKeeps(s, i, level);
    case Allocate(i) => TakeBufferKeeps(s, i, s.writers[i].flush, OutOfBuffers(s.writers[i].level, s.writers[i].flush));
    case GiveUpOrWait(i) => GiveUpOrWaitKeeps(s, i);
    case Retry(i) => TakeBufferKeeps(s, i, s.writers[i].flush, Missed);
    case CountMiss(i) => CountMissKeeps(s, i);
    case Format(i, text) => FormatKeeps(s, i, text);
    case Push(i, target) => PushKeeps(s, i, target);
    case Recheck(i) => RecheckKeeps(s, i);
    case WakeUnasked(i) => WakeUnaskedKeeps(s, i);
    case WorkerTimeout => WorkerTimeoutKeeps(s);
    case WorkerTop => WorkerTopKeeps(s);
    case WorkerWrite(disk) => WorkerWriteKeeps(s, disk);
    case WorkerFlush(flushing) => WorkerFlushKeeps(s, flushing);
    case WorkerCommit(target) => WorkerCommitKeeps(s, target);
    case SetLogLevel(level) => SetUntracked(s, s.shared.missLogs, level, s.shared.syncLogLevel);
    case SetSyncLogLevel(level) => SetUntracked(s, s.shared.missLogs, s.shared.logLevel, level);
    case Shutdown => ShutdownKeeps(s);
    case LastFlush(succeeds) => LastFlushKeeps(s, succeeds);
  }

  lemma {:induction false} IdleWriters(ws: seq<Writer>)
    requires forall i | 0 <= i < |ws| :: ws[i] == Idle
    ensures BlockedCount(ws) == 0
    ensures forall b :: HeldCount(ws, b) == 0
  {
    if ws != [] {
      IdleWriters(ws[..|ws| - 1]);
    }
  }

  lemma InitHolds(s: State)
    requires Init(s)
    ensures Inv(s)
  {
    var named, opens, header :| s.files == CreateFile(NO_FILES.(named := named), true, opens, header);
    FreshFiles(named, opens, header, s.limit);
    IdleWriters(s.writers);
    forall b: Buffer
      ensures Places(b, s.freeList, s.writers, [], []) == if b < |s.memory| then 1 else 0
    {
      FirstBuffersOnce(MAX_LOG_ENTRY, b);
    }
  }

  lemma {:induction false} RunKeeps(s0: State, steps: seq<Step>, s: State)
    requires Inv(s0) && IsRun(s0, steps, s)
    ensures Inv(s)
    decreases |steps|
  {
    if steps != [] {
      StepKeeps(s0, steps[0]);
      RunKeeps(Apply(s0, steps[0]), steps[1..], s);
    }
  }

  lemma ReachableInv(s: State)
    requires Reachable(s)
    ensures Inv(s)
  {
    var s0, steps :| Init(s0) && IsRun(s0, steps, s);
    InitHolds(s0);
    RunKeeps(s0, steps, s);
  }
}
