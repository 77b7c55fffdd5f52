/** What every step of the logger protocol keeps. */
module LoggerInvariant {
  import opened LogFiles
  import opened LoggerProtocol

  /** The entries the worker has taken but not written. */
  function InFlight(w: Worker): seq<Entry> {
    if w.Writing? || w.Flushed? then w.rest else []
  }

  /** The entries the worker has written but not yet accounted for. */
  function Done(w: Worker): seq<Entry> {
    if w.Writing? || w.Flushed? then w.done else []
  }

  function Texts(memory: seq<string>, es: seq<Entry>): (texts: seq<string>)
    ensures |texts| == |es|
    ensures forall k | 0 <= k < |es| :: texts[k] == Load(memory, es[k].buffer)
  {
    seq(|es|, k requires 0 <= k < |es| => Load(memory, es[k].buffer))
  }

  function Buffers(es: seq<Entry>): (bs: seq<Buffer>)
    ensures |bs| == |es|
    ensures forall k | 0 <= k < |es| :: bs[k] == es[k].buffer
  {
    seq(|es|, k requires 0 <= k < |es| => es[k].buffer)
  }

  function Count(bs: seq<Buffer>, b: Buffer): nat {
    if bs == [] then 0 else Count(bs[..|bs| - 1], b) + if bs[|bs| - 1] == b then 1 else 0
  }

  /** A thread that is formatting or about to queue a message owns its buffer. */
  predicate Holds(w: Writer, b: Buffer) {
    (w.Formatting? && w.buffer == b) || (w.Ready? && w.entry.buffer == b)
  }

  function HeldCount(ws: seq<Writer>, b: Buffer): nat {
    if ws == [] then 0 else HeldCount(ws[..|ws| - 1], b) + if Holds(ws[|ws| - 1], b) then 1 else 0
  }

  function BlockedCount(ws: seq<Writer>): nat {
    if ws == [] then 0 else BlockedCount(ws[..|ws| - 1]) + if ws[|ws| - 1].Blocked? then 1 else 0
  }

  /** The entries are as long as the messages in their buffers. */
  ghost predicate Measured(memory: seq<string>, es: seq<Entry>) {
    forall e <- es :: |Load(memory, e.buffer)| == e.length
  }

  /** The messages whose write has reported success, the unwritten part of the table in
      flight and the queue are the messages in push order. */
  ghost predicate Ordered(
    reported: seq<string>, memory: seq<string>, inFlight: seq<Entry>, memtable: seq<Entry>, pushed: seq<string>)
  {
    && reported + Texts(memory, inFlight) + Texts(memory, memtable) == pushed
    && Measured(memory, inFlight)
    && Measured(memory, memtable)
  }

  ghost predicate ReadyMeasured(memory: seq<string>, ws: seq<Writer>) {
    forall i | 0 <= i < |ws| && ws[i].Ready? :: |Load(memory, ws[i].entry.buffer)| == ws[i].entry.length
  }

  /** The two indices count pushed and flushed messages, and the queue size is the number
      of bytes not yet accounted for. */
  ghost predicate Counted(
    writtenIndex: int, flushed: int, size: int,
    reported: seq<string>, done: seq<Entry>, inFlight: seq<Entry>, memtable: seq<Entry>, pushed: seq<string>)
  {
    && writtenIndex == |pushed|
    && 0 <= flushed
    && flushed + |done| == |reported|
    && size == Lengths(done) + Lengths(inFlight) + Lengths(memtable)
  }

  /** The files are what the history says, and a refusal leaves its entry in the table. */
  ghost predicate OnDisk(files: Files, limit: nat, w: Worker) {
    && FilesInv(files, limit)
    && (w.Writing? && w.refused ==> w.rest != [])
  }

  /** A blocked writer waits for the index of its own message. */
  ghost predicate OwnMessages(ws: seq<Writer>, pushed: seq<string>) {
    forall i | 0 <= i < |ws| && ws[i].Blocked? :: 0 < ws[i].need <= |pushed| && pushed[ws[i].need - 1] == ws[i].own
  }

  /** A sleeping writer's message is not flushed yet. */
  ghost predicate SleepersWait(ws: seq<Writer>, flushed: int) {
    forall i | 0 <= i < |ws| && IsAsleep(ws[i]) :: ws[i].need > flushed
  }

  /** No blocked writer, awake or asleep, still needs the worker. */
  ghost predicate NoneNeedsWorker(ws: seq<Writer>, flushed: int) {
    forall i | 0 <= i < |ws| && ws[i].Blocked? :: ws[i].need <= flushed
  }

  /** While the logger runs, the disk-full countdown is over whenever the lock is free. */
  ghost predicate Settled(running: bool, tries: nat, w: Worker) {
    && (running ==> tries == 0)
    && tries <= DISK_FULL_TRIES
    && (w.Asleep? ==> running)
    && (w.Exited? ==> !running)
  }

  /** In how many places a buffer is: free, in a writer's hands, queued, or in the
      unwritten part of the table in flight. */
  ghost function Places(
    b: Buffer, free: seq<Buffer>, ws: seq<Writer>, memtable: seq<Entry>, inFlight: seq<Entry>): nat
  {
    Count(free, b) + HeldCount(ws, b) + Count(Buffers(memtable), b) + Count(Buffers(inFlight), b)
  }

  /** Each of the `n` buffers of the pool is in exactly one place. */
  ghost predicate Pooled(n: nat, free: seq<Buffer>, ws: seq<Writer>, memtable: seq<Entry>, inFlight: seq<Entry>) {
    forall b: Buffer :: Places(b, free, ws, memtable, inFlight) == if b < n then 1 else 0
  }

  ghost predicate Inv(s: State) {
    && Ordered(s.files.log.reported, s.memory, InFlight(s.worker), s.shared.memtable, s.pushed)
    && ReadyMeasured(s.memory, s.writers)
    && Counted(s.shared.writtenLogIndex, s.shared.flushedLogIndex, s.shared.memtableSize,
               s.files.log.reported, Done(s.worker), InFlight(s.worker), s.shared.memtable, s.pushed)
    && OnDisk(s.files, s.limit, s.worker)
    && s.shared.blockedThreads == BlockedCount(s.writers)
    && OwnMessages(s.writers, s.pushed)
    && SleepersWait(s.writers, s.shared.flushedLogIndex)
    && (s.worker.Asleep? ==> NoneNeedsWorker(s.writers, s.shared.flushedLogIndex))
    && Settled(s.shared.running, s.shared.diskFullTryTimes, s.worker)
    && Pooled(|s.memory|, s.freeList, s.writers, s.shared.memtable, InFlight(s.worker))
  }

  // ---- facts about the pieces ----

  lemma {:induction false} FirstBuffersOnce(n: nat, b: Buffer)
    ensures Count(FirstBuffers(n), b) == if b < n then 1 else 0
  {
    if n > 0 {
      FirstBuffersOnce(n - 1, b);
      assert FirstBuffers(n)[..n - 1] == FirstBuffers(n - 1);
    }
  }

  lemma {:induction false} CountAppend(bs: seq<Buffer>, bs': seq<Buffer>, b: Buffer)
    ensures Count(bs + bs', b) == Count(bs, b) + Count(bs', b)
  {
    if bs' == [] {
      assert bs + bs' == bs;
    } else {
      var last := |bs'| - 1;
      CountAppend(bs, bs'[..last], b);
      assert (bs + bs')[..|bs| + last] == bs + bs'[..last];
    }
  }

  lemma {:induction false} CountPresent(bs: seq<Buffer>, k: nat)
    requires k < |bs|
    ensures Count(bs, bs[k]) > 0
  {
    var last := |bs| - 1;
    if k < last {
      CountPresent(bs[..last], k);
    }
  }

  lemma {:induction false} HeldUpdate(ws: seq<Writer>, i: nat, w: Writer, b: Buffer)
    requires i < |ws|
    ensures HeldCount(ws[i := w], b)
            == HeldCount(ws, b) - (if Holds(ws[i], b) then 1 else 0) + (if Holds(w, b) then 1 else 0)
  {
    var last := |ws| - 1;
    if i == last {
      assert ws[i := w][..last] == ws[..last];
    } else {
      HeldUpdate(ws[..last], i, w, b);
      assert ws[i := w][..last] == ws[..last][i := w];
    }
  }

  lemma {:induction false} BlockedCountUpdate(ws: seq<Writer>, i: nat, w: Writer)
    requires i < |ws|
    ensures BlockedCount(ws[i := w])
            == BlockedCount(ws) - (if ws[i].Blocked? then 1 else 0) + (if w.Blocked? then 1 else 0)
  {
    var last := |ws| - 1;
    if i == last {
      assert ws[i := w][..last] == ws[..last];
    } else {
      BlockedCountUpdate(ws[..last], i, w);
      assert ws[i := w][..last] == ws[..last][i := w];
    }
  }

  lemma {:induction false} WakeAllKeeps(ws: seq<Writer>)
    ensures BlockedCount(WakeAll(ws)) == BlockedCount(ws)
    ensures forall b :: HeldCount(WakeAll(ws), b) == HeldCount(ws, b)
  {
    if ws != [] {
      var last := |ws| - 1;
      WakeAllKeeps(ws[..last]);
      assert WakeAll(ws)[..last] == WakeAll(ws[..last]);
      forall b ensures HeldCount(WakeAll(ws), b) == HeldCount(ws, b) {
        assert Holds(WakeWriter(ws[last]), b) == Holds(ws[last], b);
      }
    }
  }

  lemma WriterUpdate(ws: seq<Writer>, i: nat, w: Writer, pushed: seq<string>, flushed: int)
    requires i < |ws|
    ensures OwnMessages(ws, pushed) && (w.Blocked? ==> 0 < w.need <= |pushed| && pushed[w.need - 1] == w.own)
            ==> OwnMessages(ws[i := w], pushed)
    ensures SleepersWait(ws, flushed) && (IsAsleep(w) ==> w.need > flushed) ==> SleepersWait(ws[i := w], flushed)
    ensures NoneNeedsWorker(ws, flushed) && (w.Blocked? ==> w.need <= flushed) ==> NoneNeedsWorker(ws[i := w], flushed)
  {
  }

  lemma WokenWait(ws: seq<Writer>, n: Notification, target: Target, pushed: seq<string>, flushed: int)
    ensures var ws' := WokenWriters(ws, n, target);
            && (OwnMessages(ws, pushed) ==> OwnMessages(ws', pushed))
            && (SleepersWait(ws, flushed) ==> SleepersWait(ws', flushed))
            && (NoneNeedsWorker(ws, flushed) ==> NoneNeedsWorker(ws', flushed))
  {
  }

  lemma WakeWriterKeeps(ws: seq<Writer>, i: nat)
    requires i < |ws|
    ensures var ws' := ws[i := WakeWriter(ws[i])];
            && BlockedCount(ws') == BlockedCount(ws)
            && forall b :: HeldCount(ws', b) == HeldCount(ws, b)
  {
    BlockedCountUpdate(ws, i, WakeWriter(ws[i]));
    forall b ensures HeldCount(ws[i := WakeWriter(ws[i])], b) == HeldCount(ws, b) {
      HeldUpdate(ws, i, WakeWriter(ws[i]), b);
    }
  }

  lemma {:induction false} LengthsAppend(es: seq<Entry>, es': seq<Entry>)
    ensures Lengths(es + es') == Lengths(es) + Lengths(es')
  {
    if es' == [] {
      assert es + es' == es;
    } else {
      var last := |es'| - 1;
      LengthsAppend(es, es'[..last]);
      assert (es + es')[..|es| + last] == es + es'[..last];
    }
  }

  lemma TextsAppend(memory: seq<string>, es: seq<Entry>, es': seq<Entry>)
    ensures Texts(memory, es + es') == Texts(memory, es) + Texts(memory, es')
  {
  }

  lemma BuffersAppend(es: seq<Entry>, es': seq<Entry>, b: Buffer)
    ensures Count(Buffers(es + es'), b) == Count(Buffers(es), b) + Count(Buffers(es'), b)
  {
    CountAppend(Buffers(es), Buffers(es'), b);
    assert Buffers(es + es') == Buffers(es) + Buffers(es');
  }

  /** Waking threads moves no buffer and leaves no waiting loop. */
  lemma WokenWritersKeep(ws: seq<Writer>, n: Notification, target: Target)
    ensures var ws' := WokenWriters(ws, n, target);
            && BlockedCount(ws') == BlockedCount(ws)
            && forall b :: HeldCount(ws', b) == HeldCount(ws, b)
  {
    match n
    case Nobody =>
    case All => WakeAllKeeps(ws);
    case One =>
      if target.TheWriter? && target.i < |ws| {
        WakeWriterKeeps(ws, target.i);
      }
  }

  /** The top of the worker's loop in closed form: the countdown never keeps the worker
      from a nonempty queue, it only resets the counter. */
  lemma {:induction false} NextBatchEffect(sh: Shared)
    ensures NextBatch(sh) ==
            if sh.memtable == [] then (sh, if sh.running then Sleep else Exit)
            else (sh.(missLogs := 0, memtable := [],
                      diskFullTryTimes := if sh.running then 0 else sh.diskFullTryTimes),
                  Take(sh.memtable))
    decreases sh.diskFullTryTimes
  {
    if sh.memtable != [] && sh.running && sh.diskFullTryTimes > 0 {
      NextBatchEffect(sh.(diskFullTryTimes := sh.diskFullTryTimes - 1));
    }
  }
}
