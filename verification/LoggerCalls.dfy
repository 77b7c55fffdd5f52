/** What becomes of the calls that write a message: a ledger of a run, kept from its steps
    alone, and the proof that every call the log level lets through is queued with its own
    text, discarded and counted, or still in hand. */
module LoggerCalls {
  import opened LoggerProtocol
  import opened LoggerInvariant
  import opened LoggerSteps
  import opened LoggerTheorems

  // ---- the ledger ----

  /** The call a thread is in, from its begin until its message is queued or discarded: its
      level, the level from which calls were synchronous when it began, and its message. */
  datatype Call = NoCall | Call(level: int, bar: int, text: string)

  predicate IsSync(c: Call) {
    c.Call? && c.level >= c.bar
  }

  /** The two levels in effect, how many calls the log level has let through, how many of
      them were discarded, how many since the worker last took a table, the call of each
      thread, the calls whose message was queued, and whether the logger was shut down. */
  datatype Ledger = Ledger(
    logLevel: int,
    syncLogLevel: int,
    begun: nat,
    discarded: nat,
    missed: nat,
    calls: seq<Call>,
    queued: seq<Call>,
    down: bool)

  function CallOf(l: Ledger, i: nat): Call {
    if i < |l.calls| then l.calls[i] else NoCall
  }

  function SetCall(l: Ledger, i: nat, c: Call): Ledger {
    if i < |l.calls| then l.(calls := l.calls[i := c]) else l
  }

  function Discard(l: Ledger, i: nat): Ledger {
    SetCall(l, i, NoCall).(discarded := l.discarded + 1, missed := l.missed + 1)
  }

  function WithText(c: Call, text: string): Call {
    if c.Call? then c.(text := text) else c
  }

  /** The worker leaves the top of its loop with a table. */
  ghost predicate TakesTable(s: State, step: Step)
    requires Enabled(s, step)
  {
    (step.WorkerTop? || step.WorkerCommit?) && Apply(s, step).worker.Writing?
  }

  ghost function Note(l: Ledger, s: State, step: Step): Ledger
    requires Enabled(s, step)
  {
    match step
    case Begin(i, level) =>
      if level < l.logLevel then l
      else SetCall(l, i, Call(level, l.syncLogLevel, "")).(begun := l.begun + 1)
    case GiveUpOrWait(i) =>
      var c := CallOf(l, i);
      if c.Call? && c.level < l.syncLogLevel then Discard(l, i) else l
    case CountMiss(i) => Discard(l, i)
    case Format(i, text) => SetCall(l, i, WithText(CallOf(l, i), text))
    case Push(i, _) => SetCall(l, i, NoCall).(queued := l.queued + [CallOf(l, i)])
    case SetLogLevel(level) => l.(logLevel := level)
    case SetSyncLogLevel(level) => if level < l.logLevel then l else l.(syncLogLevel := level)
    case Shutdown => l.(down := true)
    case _ => if TakesTable(s, step) then l.(missed := 0) else l
  }

  ghost function Noted(l: Ledger, s: State, steps: seq<Step>, s': State): Ledger
    requires IsRun(s, steps, s')
    decreases |steps|
  {
    if steps == [] then l else Noted(Note(l, s, steps[0]), Apply(s, steps[0]), steps[1..], s')
  }

  function NoCalls(n: nat): (cs: seq<Call>)
    ensures |cs| == n && forall k | 0 <= k < n :: cs[k] == NoCall
  {
    seq(n, _ => NoCall)
  }

  /** The ledger of a run of a new logger: messages of level 1 and above are logged, those
      of level 4 and above are synchronous. */
  ghost function LedgerOf(s0: State, steps: seq<Step>, s: State): Ledger
    requires IsRun(s0, steps, s)
  {
    Noted(Ledger(1, 4, 0, 0, 0, NoCalls(|s0.writers|), [], false), s0, steps, s)
  }

  // ---- agreement ----

  predicate InHand(w: Writer) {
    !w.Idle? && !w.Blocked?
  }

  function InHandCount(ws: seq<Writer>): nat {
    if ws == [] then 0 else InHandCount(ws[..|ws| - 1]) + if InHand(ws[|ws| - 1]) then 1 else 0
  }

  /** The thread is where its call says. */
  predicate InStep(memory: seq<string>, w: Writer, c: Call) {
    && (c.Call? <==> InHand(w))
    && match w
       case Chosen(level, flush) => c.Call? && level == c.level && (flush <==> IsSync(c))
       case OutOfBuffers(level, flush) => c.Call? && level == c.level && (flush <==> IsSync(c))
       case Retrying(flush) => flush <==> IsSync(c)
       case Formatting(_, flush) => flush <==> IsSync(c)
       case Ready(e, flush) => c.Call? && (flush <==> IsSync(c)) && Load(memory, e.buffer) == c.text
       case _ => true
  }

  predicate AllInStep(memory: seq<string>, ws: seq<Writer>, calls: seq<Call>) {
    |ws| == |calls| && forall i | 0 <= i < |ws| :: InStep(memory, ws[i], calls[i])
  }

  /** The messages queued are those of the calls queued, in order. */
  predicate SameTexts(pushed: seq<string>, queued: seq<Call>) {
    |pushed| == |queued| && forall k | 0 <= k < |queued| :: queued[k].Call? && pushed[k] == queued[k].text
  }

  predicate SameSettings(sh: Shared, l: Ledger) {
    && sh.logLevel == l.logLevel
    && sh.syncLogLevel == l.syncLogLevel
    && sh.missLogs == l.missed
    && sh.running == !l.down
  }

  predicate Agrees(s: State, l: Ledger) {
    && AllInStep(s.memory, s.writers, l.calls)
    && SameTexts(s.pushed, l.queued)
    && SameSettings(s.shared, l)
    && l.begun == |s.pushed| + l.discarded + InHandCount(s.writers)
    && l.missed <= l.discarded
  }

  // ---- facts about the pieces ----

  lemma {:induction false} InHandUpdate(ws: seq<Writer>, i: nat, w: Writer)
    requires i < |ws|
    ensures InHandCount(ws[i := w])
            == InHandCount(ws) - (if InHand(ws[i]) then 1 else 0) + (if InHand(w) then 1 else 0)
  {
    var last := |ws| - 1;
    if i == last {
      assert ws[i := w][..last] == ws[..last];
    } else {
      InHandUpdate(ws[..last], i, w);
      assert ws[i := w][..last] == ws[..last][i := w];
    }
  }

  lemma {:induction false} InHandSame(ws: seq<Writer>, ws': seq<Writer>)
    requires |ws| == |ws'| && forall i | 0 <= i < |ws| :: InHand(ws[i]) == InHand(ws'[i])
    ensures InHandCount(ws) == InHandCount(ws')
  {
    if ws != [] {
      InHandSame(ws[..|ws| - 1], ws'[..|ws| - 1]);
    }
  }

  lemma {:induction false} NoneInHand(ws: seq<Writer>)
    requires forall i | 0 <= i < |ws| :: ws[i] == Idle
    ensures InHandCount(ws) == 0
  {
    if ws != [] {
      NoneInHand(ws[..|ws| - 1]);
    }
  }

  /** Waking threads takes no call out of hand and puts none in. */
  lemma WokenInStep(memory: seq<string>, ws: seq<Writer>, calls: seq<Call>, n: Notification, target: Target)
    requires AllInStep(memory, ws, calls)
    ensures var ws' := WokenWriters(ws, n, target);
            AllInStep(memory, ws', calls) && InHandCount(ws') == InHandCount(ws)
  {
    InHandSame(ws, WokenWriters(ws, n, target));
  }

  lemma OneInStep(memory: seq<string>, ws: seq<Writer>, calls: seq<Call>, i: nat, w: Writer, c: Call)
    requires AllInStep(memory, ws, calls) && i < |ws| && InStep(memory, w, c)
    ensures AllInStep(memory, ws[i := w], calls[i := c])
  {
  }

  /** Replacing one thread keeps the agreement if the account is kept. */
  lemma SwapAgrees(s: State, l: Ledger, i: nat, w: Writer, c: Call)
    requires Agrees(s, l) && i < |s.writers| && InStep(s.memory, w, c)
    ensures AllInStep(s.memory, s.writers[i := w], l.calls[i := c])
    ensures InHandCount(s.writers[i := w])
            == InHandCount(s.writers) - (if InHand(s.writers[i]) then 1 else 0) + (if InHand(w) then 1 else 0)
  {
    OneInStep(s.memory, s.writers, l.calls, i, w, c);
    InHandUpdate(s.writers, i, w);
  }

  lemma SameCall(calls: seq<Call>, i: nat)
    requires i < |calls|
    ensures calls[i := calls[i]] == calls
  {
  }

  // ---- one step ----

  lemma BeginAgrees(s: State, l: Ledger, i: nat, level: int)
    requires Agrees(s, l) && Enabled(s, Begin(i, level))
    ensures Agrees(Apply(s, Begin(i, level)), Note(l, s, Begin(i, level)))
  {
    SwapAgrees(s, l, i, Chosen(level, level >= l.syncLogLevel), Call(level, l.syncLogLevel, ""));
  }

  lemma TakeBufferAgrees(s: State, l: Ledger, i: nat, flush: bool, none: Writer)
    requires Agrees(s, l) && i < |s.writers| && InHand(s.writers[i]) && (flush <==> IsSync(l.calls[i]))
    requires InHand(none) && InStep(s.memory, none, l.calls[i])
    ensures Agrees(TakeBuffer(s, i, flush, none), l)
  {
    var w := if s.freeList == [] then none else Formatting(s.freeList[0], flush);
    SameCall(l.calls, i);
    SwapAgrees(s, l, i, w, l.calls[i]);
  }

  lemma AllocateAgrees(s: State, l: Ledger, i: nat)
    requires Agrees(s, l) && Enabled(s, Allocate(i))
    ensures Agrees(Apply(s, Allocate(i)), l)
  {
    TakeBufferAgrees(s, l, i, s.writers[i].flush, OutOfBuffers(s.writers[i].level, s.writers[i].flush));
  }

  lemma RetryAgrees(s: State, l: Ledger, i: nat)
    requires Agrees(s, l) && Enabled(s, Retry(i))
    ensures Agrees(Apply(s, Retry(i)), l)
  {
    TakeBufferAgrees(s, l, i, s.writers[i].flush, Missed);
  }

  lemma GiveUpOrWaitAgrees(s: State, l: Ledger, i: nat)
    requires Agrees(s, l) && Enabled(s, GiveUpOrWait(i))
    ensures Agrees(Apply(s, GiveUpOrWait(i)), Note(l, s, GiveUpOrWait(i)))
  {
    var w := s.writers[i];
    if w.level < s.shared.syncLogLevel {
      SwapAgrees(s, l, i, Idle, NoCall);
    } else {
      SameCall(l.calls, i);
      SwapAgrees(s, l, i, Retrying(w.flush), l.calls[i]);
    }
  }

  lemma CountMissAgrees(s: State, l: Ledger, i: nat)
    requires Agrees(s, l) && Enabled(s, CountMiss(i))
    ensures Agrees(Apply(s, CountMiss(i)), Note(l, s, CountMiss(i)))
  {
    SwapAgrees(s, l, i, Idle, NoCall);
  }

  /** A text stored into a buffer nobody else holds reaches no other thread. */
  lemma StoredInStep(memory: seq<string>, ws: seq<Writer>, calls: seq<Call>, i: nat, text: string)
    requires AllInStep(memory, ws, calls) && i < |ws| && ws[i].Formatting? && ws[i].buffer < |memory|
    requires forall j | 0 <= j < |ws| && j != i :: !Holds(ws[j], ws[i].buffer)
    ensures var b, flush := ws[i].buffer, ws[i].flush;
            AllInStep(Store(memory, b, text), ws[i := Ready(Entry(b, |text|), flush)],
                      calls[i := WithText(calls[i], text)])
  {
    var b := ws[i].buffer;
    forall j | 0 <= j < |ws| && j != i
      ensures InStep(Store(memory, b, text), ws[j], calls[j])
    {
      assert !Holds(ws[j], b);
    }
  }

  lemma FormatAgrees(s: State, l: Ledger, i: nat, text: string)
    requires Inv(s) && Agrees(s, l) && Enabled(s, Format(i, text))
    ensures Agrees(Apply(s, Format(i, text)), Note(l, s, Format(i, text)))
  {
    var b := s.writers[i].buffer;
    HeldElsewhereNot(|s.memory|, s.freeList, s.writers, s.shared.memtable, InFlight(s.worker), i, b);
    StoredInStep(s.memory, s.writers, l.calls, i, text);
    InHandUpdate(s.writers, i, Ready(Entry(b, |text|), s.writers[i].flush));
  }

  lemma PushSettings(sh: Shared, e: Entry, flush: bool)
    ensures var sh' := PushSection(sh, e, flush).0;
            && sh'.logLevel == sh.logLevel && sh'.syncLogLevel == sh.syncLogLevel
            && sh'.missLogs == sh.missLogs && sh'.running == sh.running
  {
  }

  lemma TextQueued(pushed: seq<string>, queued: seq<Call>, c: Call)
    requires SameTexts(pushed, queued) && c.Call?
    ensures SameTexts(pushed + [c.text], queued + [c])
  {
  }

  lemma NotifyAgrees(s: State, l: Ledger, n: Notification, target: Target)
    requires Agrees(s, l)
    ensures Agrees(Notify(s, n, target), l)
  {
    WokenInStep(s.memory, s.writers, l.calls, n, target);
  }

  /** The thread leaves with its message queued. */
  lemma QueuedAgrees(s: State, l: Ledger, i: nat, w: Writer, sh: Shared)
    requires Agrees(s, l) && i < |s.writers| && s.writers[i].Ready? && (w.Idle? || w.Blocked?)
    requires SameSettings(sh, l)
    ensures Agrees(SetWriter(s, i, w).(shared := sh, pushed := s.pushed + [l.calls[i].text]),
                   SetCall(l, i, NoCall).(queued := l.queued + [l.calls[i]]))
  {
    SwapAgrees(s, l, i, w, NoCall);
    TextQueued(s.pushed, l.queued, l.calls[i]);
  }

  lemma PushAgrees(s: State, l: Ledger, i: nat, target: Target)
    requires Agrees(s, l) && Enabled(s, Push(i, target))
    ensures Agrees(Apply(s, Push(i, target)), Note(l, s, Push(i, target)))
  {
    var w := s.writers[i];
    var text := Load(s.memory, w.entry.buffer);
    var (sh, n, waits) := PushSection(s.shared, w.entry, w.flush);
    PushSettings(s.shared, w.entry, w.flush);
    NotifyAgrees(s, l, n, target);
    var s1 := Notify(s, n, target);
    assert s1.writers[i] == w;
    QueuedAgrees(s1, l, i, if waits then Blocked(sh.writtenLogIndex, text, true) else Idle, sh);
  }

  lemma RecheckAgrees(s: State, l: Ledger, i: nat)
    requires Agrees(s, l) && Enabled(s, Recheck(i))
    ensures Agrees(Apply(s, Recheck(i)), l)
  {
    var w := s.writers[i];
    SameCall(l.calls, i);
    SwapAgrees(s, l, i, if w.need > s.shared.flushedLogIndex then w.(asleep := true) else Idle, NoCall);
  }

  lemma WakeUnaskedAgrees(s: State, l: Ledger, i: nat)
    requires Agrees(s, l) && Enabled(s, WakeUnasked(i))
    ensures Agrees(Apply(s, WakeUnasked(i)), l)
  {
    SameCall(l.calls, i);
    SwapAgrees(s, l, i, WakeWriter(s.writers[i]), NoCall);
  }

  lemma TopAgrees(s: State, l: Ledger)
    requires Agrees(s, l)
    ensures var s' := Top(s); Agrees(s', if s'.worker.Writing? then l.(missed := 0) else l)
  {
    NextBatchEffect(s.shared);
  }

  lemma CommitAgrees(s: State, l: Ledger, target: Target)
    requires Agrees(s, l) && Enabled(s, WorkerCommit(target))
    ensures Agrees(Apply(s, WorkerCommit(target)), Note(l, s, WorkerCommit(target)))
  {
    var (sh, n) := Commit(s.shared, s.worker.done, s.worker.rest);
    NotifyAgrees(s, l, n, target);
    TopAgrees(Notify(s, n, target).(shared := sh), l);
  }

  lemma ShutdownAgrees(s: State, l: Ledger)
    requires Agrees(s, l) && Enabled(s, Shutdown)
    ensures Agrees(Apply(s, Shutdown), Note(l, s, Shutdown))
  {
    NotifyAgrees(s, l, All, Nothing);
  }

  lemma OthersAgree(s: State, l: Ledger, step: Step)
    requires Agrees(s, l) && Enabled(s, step)
    requires step.WorkerTimeout? || step.WorkerWrite? || step.WorkerFlush? || step.LastFlush?
          || step.SetLogLevel? || step.SetSyncLogLevel?
    ensures Agrees(Apply(s, step), Note(l, s, step))
  {
  }

  lemma StepAgrees(s: State, l: Ledger, step: Step)
    requires Inv(s) && Agrees(s, l) && Enabled(s, step)
    ensures Agrees(Apply(s, step), Note(l, s, step))
  {
    match step
    case Begin(i, level) => BeginAgrees(s, l, i, level);
    case Allocate(i) => AllocateAgrees(s, l, i);
    case GiveUpOrWait(i) => GiveUpOrWaitAgrees(s, l, i);
    case Retry(i) => RetryAgrees(s, l, i);
    case CountMiss(i) => CountMissAgrees(s, l, i);
    case Format(i, text) => FormatAgrees(s, l, i, text);
    case Push(i, target) => PushAgrees(s, l, i, target);
    case Recheck(i) => RecheckAgrees(s, l, i);
    case WakeUnasked(i) => WakeUnaskedAgrees(s, l, i);
    case WorkerTop => TopAgrees(s, l);
    case WorkerCommit(target) => CommitAgrees(s, l, target);
    case Shutdown => ShutdownAgrees(s, l);
    case _ => OthersAgree(s, l, step);
  }

  lemma {:induction false} NotedAgrees(s0: State, steps: seq<Step>, s: State, l: Ledger)
    requires Inv(s0) && Agrees(s0, l) && IsRun(s0, steps, s)
    ensures Agrees(s, Noted(l, s0, steps, s))
    decreases |steps|
  {
    if steps != [] {
      StepKeeps(s0, steps[0]);
      StepAgrees(s0, l, steps[0]);
      NotedAgrees(Apply(s0, steps[0]), steps[1..], s, Note(l, s0, steps[0]));
    }
  }

  lemma RunAgrees(s0: State, steps: seq<Step>, s: State)
    requires Init(s0) && IsRun(s0, steps, s)
    ensures Agrees(s, LedgerOf(s0, steps, s))
    ensures Inv(s)
  {
    InitHolds(s0);
    NoneInHand(s0.writers);
    NotedAgrees(s0, steps, s, Ledger(1, 4, 0, 0, 0, NoCalls(|s0.writers|), [], false));
    RunKeeps(s0, steps, s);
  }

  // ---- what becomes of a call ----

  /** In every run of a new logger the calls that the log level has let through are the
      messages queued, the calls discarded, and the calls threads are still in; and the
      messages queued are, in order, the texts those calls were given. */
  lemma EveryCallAccounted(s0: State, steps: seq<Step>, s: State)
    requires Init(s0) && IsRun(s0, steps, s)
    ensures var l := LedgerOf(s0, steps, s);
            && l.begun == |s.pushed| + l.discarded + InHandCount(s.writers)
            && |l.queued| == |s.pushed|
            && forall k | 0 <= k < |s.pushed| :: l.queued[k].Call? && s.pushed[k] == l.queued[k].text
  {
    RunAgrees(s0, steps, s);
  }

  /** The counter of missed logs is the number of calls discarded since the worker last took
      a table, the levels are the last ones set, and the logger runs until it is shut down. */
  lemma SettingsInEffect(s0: State, steps: seq<Step>, s: State)
    requires Init(s0) && IsRun(s0, steps, s)
    ensures var l := LedgerOf(s0, steps, s);
            && s.shared.missLogs == l.missed <= l.discarded
            && s.shared.logLevel == l.logLevel
            && s.shared.syncLogLevel == l.syncLogLevel
            && (s.shared.running <==> !l.down)
  {
    RunAgrees(s0, steps, s);
  }

  /** A call below the log level in effect changes nothing; every other is in hand. */
  lemma LoggedExactlyWhen(s0: State, steps: seq<Step>, s: State, i: nat, level: int)
    requires Init(s0) && IsRun(s0, steps, s) && Enabled(s, Begin(i, level))
    ensures var l, s' := LedgerOf(s0, steps, s), Apply(s, Begin(i, level));
            if level < l.logLevel then s' == s else InHand(s'.writers[i])
  {
    RunAgrees(s0, steps, s);
  }

  /** The message queued is the call's own, and the write is synchronous exactly when the
      call's level was not below the level of synchronous writes when it began. It then
      waits, unless a count of tries is left. */
  lemma QueuedAsCalled(s0: State, steps: seq<Step>, s: State, i: nat, target: Target)
    requires Init(s0) && IsRun(s0, steps, s) && Enabled(s, Push(i, target))
    ensures var c, s' := CallOf(LedgerOf(s0, steps, s), i), Apply(s, Push(i, target));
            && c.Call?
            && s'.pushed == s.pushed + [c.text]
            && (s.writers[i].flush <==> c.level >= c.bar)
            && (s'.writers[i].Blocked? <==> c.level >= c.bar && s.shared.diskFullTryTimes == 0)
            && (!s'.writers[i].Blocked? ==> s'.writers[i] == Idle)
  {
    RunAgrees(s0, steps, s);
    PushWaits(s, s.writers[i].entry, s.writers[i].flush);
  }

  /** A call that finds the pool empty is discarded at once exactly when its level is below
      the level of synchronous writes in effect at that moment; every other tries again. */
  lemma DiscardedExactlyWhen(s0: State, steps: seq<Step>, s: State, i: nat)
    requires Init(s0) && IsRun(s0, steps, s) && Enabled(s, GiveUpOrWait(i))
    ensures var l, s' := LedgerOf(s0, steps, s), Apply(s, GiveUpOrWait(i));
            var c := CallOf(l, i);
            && c.Call?
            && (s'.writers[i] == Idle <==> c.level < l.syncLogLevel)
            && (s'.writers[i].Retrying? <==> c.level >= l.syncLogLevel)
            && s'.shared.missLogs == s.shared.missLogs + if c.level < l.syncLogLevel then 1 else 0
  {
    RunAgrees(s0, steps, s);
  }

  /** A thread gets a buffer exactly when one is free: then it is the one that has been free
      for longest, and no other thread and no queued message has it. */
  lemma BufferExactlyWhen(s: State, step: Step, i: nat)
    requires Reachable(s) && (step == Allocate(i) || step == Retry(i)) && Enabled(s, step)
    ensures var s' := Apply(s, step);
            && (s'.writers[i].Formatting? <==> s.freeList != [])
            && (s.freeList == [] ==> s' == SetWriter(s, i, s'.writers[i]))
            && (s.freeList != [] ==>
                  && [s'.writers[i].buffer] + s'.freeList == s.freeList
                  && forall j | 0 <= j < |s'.writers| && j != i :: !Holds(s'.writers[j], s'.writers[i].buffer))
  {
    ReachableInv(s);
    StepKeeps(s, step);
    var s' := Apply(s, step);
    if s.freeList != [] {
      HeldElsewhereNot(|s'.memory|, s'.freeList, s'.writers, s'.shared.memtable, InFlight(s'.worker), i,
                       s'.writers[i].buffer);
    }
  }

  /** Whoever a `notify_one` reaches, some thread or nobody. */
  lemma SomeTarget(s: State) returns (target: Target)
    ensures CanReach(s, target)
  {
    if s.worker.Asleep? {
      target := TheWorker;
    } else if j :| 0 <= j < |s.writers| && IsAsleep(s.writers[j]) {
      target := TheWriter(j);
    } else {
      target := Nothing;
    }
  }

  /** A thread that has begun a call and formatted its message into the first free buffer. */
  ghost function Formatted(s: State, i: nat, level: int, text: string): State
    requires i < |s.writers| && s.freeList != []
  {
    var b := s.freeList[0];
    SetWriter(s, i, Ready(Entry(b, |text|), level >= s.shared.syncLogLevel))
      .(freeList := s.freeList[1..], memory := Store(s.memory, b, text))
  }

  lemma FirstFree(s: State)
    requires Inv(s) && s.freeList != []
    ensures s.freeList[0] < |s.memory|
  {
    CountPresent(s.freeList, 0);
    assert Places(s.freeList[0], s.freeList, s.writers, s.shared.memtable, InFlight(s.worker)) > 0;
  }

  lemma FormattedSteps(s: State, i: nat, level: int, text: string)
    requires i < |s.writers| && s.writers[i].Idle? && level >= s.shared.logLevel && s.freeList != []
    ensures IsRun(s, [Begin(i, level), Allocate(i), Format(i, text)], Formatted(s, i, level, text))
  {
    var steps := [Begin(i, level), Allocate(i), Format(i, text)];
    var s1 := Apply(s, steps[0]);
    var s2 := Apply(s1, steps[1]);
    var s3 := Apply(s2, steps[2]);
    assert s3 == Formatted(s, i, level, text);
    assert IsRun(s3, [], s3);
    assert IsRun(s2, steps[2..], s3);
    assert IsRun(s1, steps[1..], s3);
  }

  /** A call that the log level lets through and that finds a buffer gets its message
      queued, whatever the worker does. */
  lemma CallIsQueued(s: State, i: nat, level: int, text: string) returns (steps: seq<Step>, s': State)
    requires Reachable(s) && i < |s.writers| && s.writers[i].Idle?
    requires level >= s.shared.logLevel && s.freeList != []
    ensures IsRun(s, steps, s')
    ensures s'.pushed == s.pushed + [text] && s'.shared.missLogs == s.shared.missLogs
    ensures |s'.writers| == |s.writers|
    ensures s'.writers[i].Blocked? <==> level >= s.shared.syncLogLevel && s.shared.diskFullTryTimes == 0
  {
    ReachableInv(s);
    FirstFree(s);
    FormattedSteps(s, i, level, text);
    var ready := Formatted(s, i, level, text);
    var target := SomeTarget(ready);
    RunKeeps(s, [Begin(i, level), Allocate(i), Format(i, text)], ready);
    PushWaits(ready, ready.writers[i].entry, ready.writers[i].flush);
    s' := Apply(ready, Push(i, target));
    OneStepRun(ready, Push(i, target));
    steps := [Begin(i, level), Allocate(i), Format(i, text)] + [Push(i, target)];
    RunsCompose(s, [Begin(i, level), Allocate(i), Format(i, text)], ready, [Push(i, target)], s');
  }

  /** A call that the log level lets through and that finds the pool empty, also on its only
      retry if its level gives it one, is a missed log and nothing else. */
  lemma CallIsMissed(s: State, i: nat, level: int) returns (steps: seq<Step>)
    requires i < |s.writers| && s.writers[i].Idle?
    requires level >= s.shared.logLevel && s.freeList == []
    ensures IsRun(s, steps, s.(shared := s.shared.(missLogs := s.shared.missLogs + 1)))
    ensures |steps| == if level < s.shared.syncLogLevel then 3 else 5
  {
    var s2 := SetWriter(s, i, OutOfBuffers(level, level >= s.shared.syncLogLevel));
    OutOfBuffersSteps(s, i, level);
    var s3 := Apply(s2, GiveUpOrWait(i));
    var missed := s.(shared := s.shared.(missLogs := s.shared.missLogs + 1));
    assert s2.writers[i := Idle] == s.writers;
    OneStepRun(s2, GiveUpOrWait(i));
    steps := [Begin(i, level), Allocate(i)] + [GiveUpOrWait(i)];
    RunsCompose(s, [Begin(i, level), Allocate(i)], s2, [GiveUpOrWait(i)], s3);
    if level < s.shared.syncLogLevel {
      assert s3 == missed;
    } else {
      assert s3.writers[i := Idle] == s.writers;
      RetrySteps(s3, i);
      RunsCompose(s, steps, s3, [Retry(i), CountMiss(i)], missed);
      steps := steps + [Retry(i), CountMiss(i)];
    }
  }

  lemma OutOfBuffersSteps(s: State, i: nat, level: int)
    requires i < |s.writers| && s.writers[i].Idle? && level >= s.shared.logLevel && s.freeList == []
    ensures IsRun(s, [Begin(i, level), Allocate(i)],
                  SetWriter(s, i, OutOfBuffers(level, level >= s.shared.syncLogLevel)))
  {
    var s1 := Apply(s, Begin(i, level));
    var s2 := Apply(s1, Allocate(i));
    assert s2 == SetWriter(s, i, OutOfBuffers(level, level >= s.shared.syncLogLevel));
    OneStepRun(s, Begin(i, level));
    OneStepRun(s1, Allocate(i));
    RunsCompose(s, [Begin(i, level)], s1, [Allocate(i)], s2);
  }

  lemma RetrySteps(s: State, i: nat)
    requires i < |s.writers| && s.writers[i].Retrying? && s.freeList == []
    ensures IsRun(s, [Retry(i), CountMiss(i)],
                  SetWriter(s, i, Idle).(shared := s.shared.(missLogs := s.shared.missLogs + 1)))
  {
    var s1 := Apply(s, Retry(i));
    var s2 := Apply(s1, CountMiss(i));
    assert s2 == SetWriter(s, i, Idle).(shared := s.shared.(missLogs := s.shared.missLogs + 1));
    OneStepRun(s, Retry(i));
    OneStepRun(s1, CountMiss(i));
    RunsCompose(s, [Retry(i)], s1, [CountMiss(i)], s2);
  }

  // ---- the constants of the queue ----

  /** A message that need not be flushed wakes a sleeping worker exactly when it makes the
      queue longer than 10240 bytes, and otherwise wakes nobody. */
  lemma WakesWorkerExactlyWhen(s: State, i: nat, target: Target)
    requires Reachable(s) && Enabled(s, Push(i, target)) && !s.writers[i].flush
    ensures var s', size := Apply(s, Push(i, target)), s.shared.memtableSize + s.writers[i].entry.length;
            && (s.worker.Asleep? ==> (s'.worker.Awake? <==> size > 10240))
            && (size <= 10240 ==> s'.worker == s.worker && s'.writers == s.writers[i := Idle])
  {
    ReachableInv(s);
    if s.shared.blockedThreads == 0 {
      NoSleepers(s.writers);
    }
  }

  /** What the worker does at the top of its loop: it sleeps on an empty queue, leaves for
      good on an empty queue after shutdown, and otherwise takes the whole queue. */
  lemma WorkerAtTop(s: State)
    requires Enabled(s, WorkerTop)
    ensures var s' := Apply(s, WorkerTop);
            && (s'.worker.Asleep? <==> s.shared.memtable == [] && s.shared.running)
            && (s'.worker.Exited? <==> s.shared.memtable == [] && !s.shared.running)
            && (s.shared.memtable != [] ==>
                  s'.worker == Writing([], s.shared.memtable, false) && s'.shared.memtable == [])
  {
    NextBatchEffect(s.shared);
  }

  /** A queue too short to wake the worker is taken after its ten seconds of sleep. */
  lemma TimeoutTakesQueue(s: State)
    requires s.worker.Asleep? && s.shared.memtable != []
    ensures var s' := Top(s);
            && IsRun(s, [WorkerTimeout, WorkerTop], s')
            && s'.worker == Writing([], s.shared.memtable, false) && s'.shared.memtable == []
  {
    var awake := Apply(s, WorkerTimeout);
    NextBatchEffect(s.shared);
    OneStepRun(s, WorkerTimeout);
    OneStepRun(awake, WorkerTop);
    assert Apply(awake, WorkerTop) == Top(s);
    RunsCompose(s, [WorkerTimeout], awake, [WorkerTop], Top(s));
    assert [WorkerTimeout] + [WorkerTop] == [WorkerTimeout, WorkerTop];
  }

  /** A refusal during shutdown leaves ten tries, each push that would notify anybody uses
      one up, and while the logger runs there are none. */
  lemma TriesAfterRefusal(s: State, target: Target)
    requires Reachable(s) && Enabled(s, WorkerCommit(target)) && s.worker.rest != []
    ensures Apply(s, WorkerCommit(target)).shared.diskFullTryTimes == if s.shared.running then 0 else 10
  {
    var (sh, n) := Commit(s.shared, s.worker.done, s.worker.rest);
    NextBatchEffect(sh);
  }

  lemma TriesUsedUp(s: State, i: nat, target: Target)
    requires Enabled(s, Push(i, target))
    ensures var s', w := Apply(s, Push(i, target)), s.writers[i];
            s'.shared.diskFullTryTimes ==
            if s.shared.diskFullTryTimes > 0 && (w.flush || s.shared.memtableSize + w.entry.length > 10240)
            then s.shared.diskFullTryTimes - 1 else s.shared.diskFullTryTimes
  {
  }

  lemma {:induction false} PoolKept(s0: State, steps: seq<Step>, s: State)
    requires IsRun(s0, steps, s)
    ensures |s.memory| == |s0.memory|
    decreases |steps|
  {
    if steps != [] {
      PoolKept(Apply(s0, steps[0]), steps[1..], s);
    }
  }

  /** The pool has 2048 buffers at all times, each in one place. */
  lemma PoolSize(s: State, b: Buffer)
    requires Reachable(s)
    ensures Places(b, s.freeList, s.writers, s.shared.memtable, InFlight(s.worker)) == if b < 2048 then 1 else 0
  {
    var s0, steps :| Init(s0) && IsRun(s0, steps, s);
    PoolKept(s0, steps, s);
    ReachableInv(s);
  }
}
