/** The asynchronous logger as a protocol between any number of writer threads and one
    background worker, sharing a mutex and a condition variable. One step is one critical
    section, one free-list operation, or one unlocked file operation. */
module LoggerProtocol {
  import opened LogFiles

  const MAX_LOG_ENTRY := 2048
  const NOTIFY_SIZE := 10240
  const DISK_FULL_TRIES := 10

  /** A log buffer, by its index in the pool. */
  type Buffer = nat

  /** A queued message: the buffer that holds it and its length. */
  datatype Entry = Entry(buffer: Buffer, length: nat)

  /** The fields the mutex protects. */
  datatype Shared = Shared(
    logLevel: int,
    syncLogLevel: int,
    missLogs: nat,
    blockedThreads: int,
    writtenLogIndex: nat,
    flushedLogIndex: int,
    memtableSize: int,
    memtable: seq<Entry>,
    running: bool,
    diskFullTryTimes: nat)

  /** Where a writer thread is. `Blocked` writers are in the waiting loop of a synchronous
      write: `need` is the index they wait for and `own` their message. */
  datatype Writer =
    | Idle
    | Chosen(level: int, flush: bool)
    | OutOfBuffers(level: int, flush: bool)
    | Retrying(flush: bool)
    | Missed
    | Formatting(buffer: Buffer, flush: bool)
    | Ready(entry: Entry, flush: bool)
    | Blocked(need: nat, own: string, asleep: bool)

  /** Where the worker is. `Writing` has the lock released and is part way through the
      swapped-out table: `done` is reported written, `rest` is not, and `refused` says that a
      write has reported a refusal. `Flushed` is on its way back to the lock. */
  datatype Worker =
    | Awake
    | Asleep
    | Writing(done: seq<Entry>, rest: seq<Entry>, refused: bool)
    | Flushed(done: seq<Entry>, rest: seq<Entry>)
    | Exited

  /** `memory` holds the contents of the buffers, `pushed` every message ever queued. */
  datatype State = State(
    limit: nat,
    shared: Shared,
    files: Files,
    freeList: seq<Buffer>,
    memory: seq<string>,
    writers: seq<Writer>,
    worker: Worker,
    pushed: seq<string>)

  function Load(memory: seq<string>, b: Buffer): string {
    if b < |memory| then memory[b] else ""
  }

  function Store(memory: seq<string>, b: Buffer, text: string): seq<string> {
    if b < |memory| then memory[b := text] else memory
  }

  /** What a critical section does to the condition variable. */
  datatype Notification = Nobody | One | All

  function Enqueue(sh: Shared, e: Entry): Shared {
    sh.(memtable := sh.memtable + [e],
        writtenLogIndex := sh.writtenLogIndex + 1,
        memtableSize := sh.memtableSize + e.length)
  }

  /** The critical section of a write up to its first wait or its return: the new shared
      fields, the notification, and whether the thread enters the waiting loop. */
  function PushSection(sh: Shared, e: Entry, flush: bool): (Shared, Notification, bool) {
    var sh' := Enqueue(sh, e);
    if flush then
      if sh'.diskFullTryTimes > 0 then
        (sh'.(diskFullTryTimes := sh'.diskFullTryTimes - 1), Nobody, false)
      else if sh'.writtenLogIndex > sh'.flushedLogIndex then
        (sh'.(blockedThreads := sh'.blockedThreads + 1), All, true)
      else
        (sh', All, false)
    else if sh'.memtableSize > NOTIFY_SIZE then
      if sh'.diskFullTryTimes > 0 then
        (sh'.(diskFullTryTimes := sh'.diskFullTryTimes - 1), Nobody, false)
      else if sh'.blockedThreads > 0 then
        (sh', All, false)
      else
        (sh', One, false)
    else
      (sh', Nobody, false)
  }

  /** Why the worker gave up the lock at the top of its loop. */
  datatype Next = Sleep | Exit | Take(table: seq<Entry>)

  /** The worker's critical section from the top of its loop to the point where it waits,
      exits, or releases the lock with the table swapped out. The countdown after a
      refused write runs inside it: `continue` does not release the lock. */
  function NextBatch(sh: Shared): (Shared, Next)
    decreases sh.diskFullTryTimes
  {
    if sh.running && sh.memtable == [] then
      (sh, Sleep)
    else if sh.diskFullTryTimes > 0 && sh.running then
      NextBatch(sh.(diskFullTryTimes := sh.diskFullTryTimes - 1))
    else if !sh.running && sh.memtable == [] then
      (sh, Exit)
    else
      (sh.(missLogs := 0, memtable := []), Take(sh.memtable))
  }

  function Lengths(es: seq<Entry>): nat {
    if es == [] then 0 else Lengths(es[..|es| - 1]) + es[|es| - 1].length
  }

  /** What the worker does after taking the lock back: unwritten entries return to the
      front of the queue, the counters advance, and blocked writers are notified. */
  function Commit(sh: Shared, done: seq<Entry>, rest: seq<Entry>): (Shared, Notification) {
    var sh' :=
      if rest != [] then sh.(memtable := rest + sh.memtable, diskFullTryTimes := DISK_FULL_TRIES)
      else sh;
    (sh'.(memtableSize := sh'.memtableSize - Lengths(done),
          flushedLogIndex := sh'.flushedLogIndex + |done|),
     if sh'.blockedThreads == 1 then One else if sh'.blockedThreads > 1 then All else Nobody)
  }

  function WakeWriter(w: Writer): Writer {
    if w.Blocked? then w.(asleep := false) else w
  }

  function WakeAll(ws: seq<Writer>): (res: seq<Writer>)
    ensures |res| == |ws| && forall i | 0 <= i < |ws| :: res[i] == WakeWriter(ws[i])
  {
    seq(|ws|, i requires 0 <= i < |ws| => WakeWriter(ws[i]))
  }

  predicate IsAsleep(w: Writer) {
    w.Blocked? && w.asleep
  }

  /** The thread a `notify_one` reaches. */
  datatype Target = Nothing | TheWorker | TheWriter(i: nat)

  /** `notify_one` reaches some sleeping thread if there is one. */
  ghost predicate CanReach(s: State, target: Target) {
    match target
    case Nothing => !s.worker.Asleep? && forall i | 0 <= i < |s.writers| :: !IsAsleep(s.writers[i])
    case TheWorker => s.worker.Asleep?
    case TheWriter(i) => i < |s.writers| && IsAsleep(s.writers[i])
  }

  function WokenWriters(ws: seq<Writer>, n: Notification, target: Target): (res: seq<Writer>)
    ensures |res| == |ws|
    ensures forall i | 0 <= i < |ws| :: res[i] == ws[i] || res[i] == WakeWriter(ws[i])
  {
    match n
    case Nobody => ws
    case One => if target.TheWriter? && target.i < |ws| then ws[target.i := WakeWriter(ws[target.i])] else ws
    case All => WakeAll(ws)
  }

  function WokenWorker(w: Worker, n: Notification, target: Target): Worker {
    if w.Asleep? && (n == All || (n == One && target == TheWorker)) then Awake else w
  }

  function Notify(s: State, n: Notification, target: Target): State {
    s.(writers := WokenWriters(s.writers, n, target), worker := WokenWorker(s.worker, n, target))
  }

  datatype Step =
    | Begin(i: nat, level: int)
    | Allocate(i: nat)
    | GiveUpOrWait(i: nat)
    | Retry(i: nat)
    | CountMiss(i: nat)
    | Format(i: nat, text: string)
    | Push(i: nat, target: Target)
    | Recheck(i: nat)
    | WakeUnasked(i: nat)
    | WorkerTimeout
    | WorkerTop
    | WorkerWrite(disk: Disk)
    | WorkerFlush(flushing: Flushing)
    | WorkerCommit(target: Target)
    | SetLogLevel(level: int)
    | SetSyncLogLevel(level: int)
    | Shutdown
    | LastFlush(succeeds: bool)

  predicate IsWriter(s: State, i: nat) {
    i < |s.writers|
  }

  /** When a step can happen. */
  ghost predicate Enabled(s: State, step: Step) {
    match step
    case Begin(i, _) => IsWriter(s, i) && s.writers[i].Idle?
    case Allocate(i) => IsWriter(s, i) && s.writers[i].Chosen?
    case GiveUpOrWait(i) => IsWriter(s, i) && s.writers[i].OutOfBuffers?
    case Retry(i) => IsWriter(s, i) && s.writers[i].Retrying?
    case CountMiss(i) => IsWriter(s, i) && s.writers[i].Missed?
    case Format(i, _) => IsWriter(s, i) && s.writers[i].Formatting?
    case Push(i, target) =>
      && IsWriter(s, i) && s.writers[i].Ready?
      && (PushSection(s.shared, s.writers[i].entry, s.writers[i].flush).1 == One ==> CanReach(s, target))
    case Recheck(i) => IsWriter(s, i) && s.writers[i].Blocked? && !s.writers[i].asleep
    case WakeUnasked(i) => IsWriter(s, i) && IsAsleep(s.writers[i])
    case WorkerTimeout => s.worker.Asleep?
    case WorkerTop => s.worker.Awake?
    case WorkerWrite(_) => s.worker.Writing? && !s.worker.refused && s.worker.rest != []
    case WorkerFlush(_) => s.worker.Writing? && (s.worker.refused || s.worker.rest == [])
    case WorkerCommit(target) =>
      && s.worker.Flushed?
      && (Commit(s.shared, s.worker.done, s.worker.rest).1 == One ==> CanReach(s, target))
    case SetLogLevel(_) => true
    case SetSyncLogLevel(_) => true
    case Shutdown => s.shared.running
    case LastFlush(_) => s.worker.Exited?
  }

  function SetWriter(s: State, i: nat, w: Writer): State
    requires IsWriter(s, i)
  {
    s.(writers := s.writers[i := w])
  }

  function TakeBuffer(s: State, i: nat, flush: bool, none: Writer): State
    requires IsWriter(s, i)
  {
    if s.freeList == [] then SetWriter(s, i, none)
    else SetWriter(s, i, Formatting(s.freeList[0], flush)).(freeList := s.freeList[1..])
  }

  function WorkerAt(n: Next): Worker {
    match n
    case Sleep => Asleep
    case Exit => Exited
    case Take(table) => Writing([], table, false)
  }

  function Top(s: State): State {
    var (sh, next) := NextBatch(s.shared);
    s.(shared := sh, worker := WorkerAt(next))
  }

  /** The state after an enabled step. */
  ghost function Apply(s: State, step: Step): State
    requires Enabled(s, step)
  {
    match step
    case Begin(i, level) =>
      if level < s.shared.logLevel then s
      else SetWriter(s, i, Chosen(level, level >= s.shared.syncLogLevel))
    case Allocate(i) =>
      var w := s.writers[i];
      TakeBuffer(s, i, w.flush, OutOfBuffers(w.level, w.flush))
    case GiveUpOrWait(i) =>
      var w := s.writers[i];
      if w.level < s.shared.syncLogLevel then
        SetWriter(s, i, Idle).(shared := s.shared.(missLogs := s.shared.missLogs + 1))
      else SetWriter(s, i, Retrying(w.flush))
    case Retry(i) => TakeBuffer(s, i, s.writers[i].flush, Missed)
    case CountMiss(i) => SetWriter(s, i, Idle).(shared := s.shared.(missLogs := s.shared.missLogs + 1))
    case Format(i, text) =>
      var w := s.writers[i];
      SetWriter(s, i, Ready(Entry(w.buffer, |text|), w.flush)).(memory := Store(s.memory, w.buffer, text))
    case Push(i, target) =>
      var w := s.writers[i];
      var text := Load(s.memory, w.entry.buffer);
      var (sh, n, waits) := PushSection(s.shared, w.entry, w.flush);
      // the thread joins the sleepers only after its own notification
      SetWriter(Notify(s, n, target), i, if waits then Blocked(sh.writtenLogIndex, text, true) else Idle)
        .(shared := sh, pushed := s.pushed + [text])
    case Recheck(i) =>
      var w := s.writers[i];
      if w.need > s.shared.flushedLogIndex then SetWriter(s, i, w.(asleep := true))
      else SetWriter(s, i, Idle).(shared := s.shared.(blockedThreads := s.shared.blockedThreads - 1))
    case WakeUnasked(i) => SetWriter(s, i, WakeWriter(s.writers[i]))
    case WorkerTimeout => s.(worker := Awake)
    case WorkerTop => Top(s)
    case WorkerWrite(disk) =>
      var e := s.worker.rest[0];
      var (files, ok) := WriteEntry(s.files, s.limit, Load(s.memory, e.buffer), disk);
      if ok then
        s.(files := files,
           freeList := s.freeList + [e.buffer],
           worker := Writing(s.worker.done + [e], s.worker.rest[1..], false))
      else
        s.(files := files, worker := Writing(s.worker.done, s.worker.rest, true))
    case WorkerFlush(flushing) =>
      s.(files := Flush(s.files, flushing), worker := Flushed(s.worker.done, s.worker.rest))
    case WorkerCommit(target) =>
      var (sh, n) := Commit(s.shared, s.worker.done, s.worker.rest);
      Top(Notify(s, n, target).(shared := sh))
    case SetLogLevel(level) => s.(shared := s.shared.(logLevel := level))
    case SetSyncLogLevel(level) =>
      if level < s.shared.logLevel then s else s.(shared := s.shared.(syncLogLevel := level))
    case Shutdown => Notify(s, All, Nothing).(shared := s.shared.(running := false))
    case LastFlush(succeeds) => s.(files := Flush(s.files, Flushing(succeeds, Unchanged)))
  }

  function FirstBuffers(n: nat): (bs: seq<Buffer>)
    ensures |bs| == n && forall k | 0 <= k < n :: bs[k] == k
  {
    seq(n, i => i)
  }

  /** A logger that has just been constructed, for any number of client threads. */
  ghost predicate Init(s: State) {
    && (exists named, opens, header :: s.files == CreateFile(NO_FILES.(named := named), true, opens, header))
    && s.shared == Shared(1, 4, 0, 0, 0, 0, 0, [], true, 0)
    && s.freeList == FirstBuffers(MAX_LOG_ENTRY)
    && |s.memory| == MAX_LOG_ENTRY
    && (forall i | 0 <= i < |s.writers| :: s.writers[i] == Idle)
    && s.worker == Awake
    && s.pushed == []
  }

  /** `s` is reached from `s0` by the given steps, each enabled when it is taken. */
  ghost predicate IsRun(s0: State, steps: seq<Step>, s: State)
    decreases |steps|
  {
    if steps == [] then s == s0
    else Enabled(s0, steps[0]) && IsRun(Apply(s0, steps[0]), steps[1..], s)
  }

  ghost predicate Reachable(s: State) {
    exists s0, steps :: Init(s0) && IsRun(s0, steps, s)
  }
}
