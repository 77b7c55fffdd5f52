/** The logger's objects as the program has them: each critical section and the unlocked
    write loop, proved to do what the protocol's functions say. */
module LogWriter {
  import opened LogFiles
  import opened Options
  import opened LoggerProtocol

  class LoggerAllocator {
    var freeList: seq<Buffer>

    constructor ()
      ensures freeList == FirstBuffers(MAX_LOG_ENTRY)
    {
      freeList := [];
      new;
      for i := 0 to MAX_LOG_ENTRY
        invariant freeList == FirstBuffers(i)
      {
        freeList := freeList + [i];
      }
    }

    method Allocate() returns (b: Option<Buffer>)
      modifies this
      ensures b == if old(freeList) == [] then None else Some(old(freeList)[0])
      ensures freeList == if old(freeList) == [] then [] else old(freeList)[1..]
    {
      if freeList == [] {
        return None;
      }
      b := Some(freeList[0]);
      freeList := freeList[1..];
    }

    method Deallocate(b: Buffer)
      modifies this
      ensures freeList == old(freeList) + [b]
    {
      freeList := freeList + [b];
    }
  }

  /** One pass of the worker over the table it has taken: the files, the free list and the
      number of entries written when the pass ends or a write reports a refusal. */
  function WriteBatch(
    files: Files, limit: nat, free: seq<Buffer>, memory: seq<string>, rest: seq<Entry>, disks: seq<Disk>):
    (res: (Files, seq<Buffer>, nat))
    requires |disks| >= |rest|
    ensures res.2 <= |rest|
    decreases |rest|
  {
    if rest == [] then (files, free, 0)
    else
      var (files', ok) := WriteEntry(files, limit, Load(memory, rest[0].buffer), disks[0]);
      if !ok then (files', free, 0)
      else
        var (files'', free', n) := WriteBatch(files', limit, free + [rest[0].buffer], memory, rest[1..], disks[1..]);
        (files'', free', n + 1)
  }

  /** The state after `n` entries of the table have been written. */
  function AfterBatch(s: State, files: Files, free: seq<Buffer>, n: nat): State
    requires s.worker.Writing? && n <= |s.worker.rest|
  {
    var rest := s.worker.rest;
    s.(files := files, freeList := free, worker := Writing(s.worker.done + rest[..n], rest[n..], n < |rest|))
  }

  lemma AfterOneMore(s: State, s1: State, files: Files, free: seq<Buffer>, n: nat)
    requires s.worker.Writing? && s.worker.rest != [] && n < |s.worker.rest|
    requires s1 == s.(files := s1.files, freeList := s1.freeList,
                      worker := Writing(s.worker.done + [s.worker.rest[0]], s.worker.rest[1..], false))
    ensures AfterBatch(s1, files, free, n) == AfterBatch(s, files, free, n + 1)
  {
    var rest := s.worker.rest;
    assert (s.worker.done + [rest[0]]) + rest[1..][..n] == s.worker.done + rest[..n + 1];
    assert rest[1..][n..] == rest[n + 1..];
  }

  /** A pass is a run of write steps of the protocol. */
  lemma {:induction false} WriteBatchIsRun(s: State, disks: seq<Disk>) returns (steps: seq<Step>)
    requires s.worker.Writing? && !s.worker.refused && |disks| >= |s.worker.rest|
    ensures var (files, free, n) := WriteBatch(s.files, s.limit, s.freeList, s.memory, s.worker.rest, disks);
            IsRun(s, steps, AfterBatch(s, files, free, n))
    decreases |s.worker.rest|
  {
    var rest := s.worker.rest;
    var (files, free, n) := WriteBatch(s.files, s.limit, s.freeList, s.memory, rest, disks);
    assert s.worker.done + rest[..0] == s.worker.done;
    if rest == [] {
      steps := [];
    } else {
      var s1 := Apply(s, WorkerWrite(disks[0]));
      if s1.worker.refused {
        steps := [WorkerWrite(disks[0])];
        assert IsRun(s1, [], s1);
      } else {
        var more := WriteBatchIsRun(s1, disks[1..]);
        AfterOneMore(s, s1, files, free, n - 1);
        steps := [WorkerWrite(disks[0])] + more;
      }
    }
  }

  lemma LengthsStep(table: seq<Entry>, k: nat)
    requires k < |table|
    ensures Lengths(table[..k + 1]) == Lengths(table[..k]) + table[k].length
  {
    assert table[..k + 1][..k] == table[..k];
  }

  type Batch = (Files, seq<Buffer>, nat)

  /** From entry `k` on, the pass ends as given. */
  predicate BatchFrom(
    files: Files, limit: nat, free: seq<Buffer>, memory: seq<string>, table: seq<Entry>, disks: seq<Disk>, k: nat,
    outcome: Batch)
  {
    && k <= |table| <= |disks|
    && var (files', free', n) := WriteBatch(files, limit, free, memory, table[k..], disks[k..]);
       outcome == (files', free', k + n)
  }

  lemma BatchBegins(
    files: Files, limit: nat, free: seq<Buffer>, memory: seq<string>, table: seq<Entry>, disks: seq<Disk>)
    requires |table| <= |disks|
    ensures BatchFrom(files, limit, free, memory, table, disks, 0, WriteBatch(files, limit, free, memory, table, disks))
  {
    assert table[0..] == table && disks[0..] == disks;
  }

  /** A pass unfolds at its next entry. */
  lemma BatchStep(
    files: Files, limit: nat, free: seq<Buffer>, memory: seq<string>, table: seq<Entry>, disks: seq<Disk>, k: nat,
    outcome: Batch)
    requires BatchFrom(files, limit, free, memory, table, disks, k, outcome) && k < |table|
    ensures var (files', ok) := WriteEntry(files, limit, Load(memory, table[k].buffer), disks[k]);
            if ok then BatchFrom(files', limit, free + [table[k].buffer], memory, table, disks, k + 1, outcome)
            else outcome == (files', free, k)
  {
    assert table[k..][1..] == table[k + 1..];
    assert disks[k..][1..] == disks[k + 1..];
  }

  class LogWritter {
    const fileWriter: FileWritter
    const alloc: LoggerAllocator
    const maxFileSize: nat

    var logLevel: int
    var syncLogLevel: int
    var missLogs: nat
    var blockedThreads: int
    var writtenLogIndex: nat
    var flushedLogIndex: int
    var memtableSize: int
    var memtable: seq<Entry>
    var running: bool
    var diskFullTryTimes: nat

    function Fields(): Shared
      reads this
    {
      Shared(logLevel, syncLogLevel, missLogs, blockedThreads, writtenLogIndex, flushedLogIndex,
             memtableSize, memtable, running, diskFullTryTimes)
    }

    constructor (fileWriter: FileWritter, maxFileSize: nat)
      ensures this.fileWriter == fileWriter && this.maxFileSize == maxFileSize
      ensures fresh(alloc) && alloc.freeList == FirstBuffers(MAX_LOG_ENTRY)
      ensures Fields() == Shared(1, 4, 0, 0, 0, 0, 0, [], true, 0)
    {
      this.fileWriter := fileWriter;
      this.maxFileSize := maxFileSize;
      alloc := new LoggerAllocator();
      logLevel, syncLogLevel, missLogs, blockedThreads := 1, 4, 0, 0;
      writtenLogIndex, flushedLogIndex, memtableSize, memtable := 0, 0, 0, [];
      running, diskFullTryTimes := true, 0;
    }

    /** A write up to its first wait or its return. */
    method Write(forceFlush: bool, e: Entry) returns (note: Notification, waits: bool)
      modifies this
      ensures (Fields(), note, waits) == PushSection(old(Fields()), e, forceFlush)
    {
      memtable := memtable + [e];
      writtenLogIndex := writtenLogIndex + 1;
      memtableSize := memtableSize + e.length;
      note, waits := Nobody, false;
      if forceFlush {
        if diskFullTryTimes > 0 {
          diskFullTryTimes := diskFullTryTimes - 1;
          return;
        }
        var needFlushedIndex := writtenLogIndex;
        blockedThreads := blockedThreads + 1;
        note := All;
        if needFlushedIndex > flushedLogIndex {
          waits := true;
          return;
        }
        blockedThreads := blockedThreads - 1;
        return;
      }
      if memtableSize > NOTIFY_SIZE {
        if diskFullTryTimes > 0 {
          diskFullTryTimes := diskFullTryTimes - 1;
          return;
        }
        note := if blockedThreads > 0 then All else One;
      }
    }

    /** The retries of a message that must be flushed when the pool is empty. The loop is
        written for ten attempts, but its first failure already returns: there is exactly
        one attempt, and a failed one counts a missed log. */
    method RetryAllocate() returns (b: Option<Buffer>)
      modifies this, alloc
      ensures b == if old(alloc.freeList) == [] then None else Some(old(alloc.freeList)[0])
      ensures alloc.freeList == if old(alloc.freeList) == [] then [] else old(alloc.freeList)[1..]
      ensures Fields() == old(Fields()).(missLogs := old(missLogs) + if b.None? then 1 else 0)
    {
      b := None;
      for i := 0 to 10
        invariant i == 0 && b == None
        invariant alloc.freeList == old(alloc.freeList) && Fields() == old(Fields())
      {
        b := alloc.Allocate();
        if b.Some? {
          break;
        }
        missLogs := missLogs + 1;
        return;
      }
    }

    /** From the top of the worker's loop to where the lock is given up. */
    method NextTable() returns (next: Next)
      modifies this
      ensures (Fields(), next) == NextBatch(old(Fields()))
    {
      while true
        invariant NextBatch(Fields()) == NextBatch(old(Fields()))
        decreases diskFullTryTimes
      {
        if running && memtable == [] {
          return Sleep;
        }
        if diskFullTryTimes > 0 && running {
          diskFullTryTimes := diskFullTryTimes - 1;
          continue;
        }
        if !running && memtable == [] {
          return Exit;
        }
        missLogs := 0;
        next := Take(memtable);
        memtable := [];
        return;
      }
    }

    /** Rotates the file if it has outgrown the limit and writes one record. */
    method WriteEntryToFile(text: string, disk: Disk) returns (ok: bool)
      modifies fileWriter
      ensures (fileWriter.State(), ok) == WriteEntry(old(fileWriter.State()), maxFileSize, text, disk)
    {
      if fileWriter.fileSize > maxFileSize {
        fileWriter.RotateFile(disk.closes, disk.rotates, disk.rotateHeader);
      }
      ok := fileWriter.Write(text, disk.opens, disk.openHeader, disk.took, disk.errno);
    }

    /** The unlocked pass over the table, up to and including the flush. */
    method WriteTable(table: seq<Entry>, memory: seq<string>, disks: seq<Disk>, flushing: Flushing)
      returns (written: nat, writtenSize: nat)
      requires |disks| >= |table|
      modifies fileWriter, alloc
      ensures var (files, free, n) :=
                WriteBatch(old(fileWriter.State()), maxFileSize, old(alloc.freeList), memory, table, disks);
              && fileWriter.State() == Flush(files, flushing)
              && alloc.freeList == free
              && written == n
      ensures written <= |table| && writtenSize == Lengths(table[..written])
    {
      ghost var outcome := WriteBatch(fileWriter.State(), maxFileSize, alloc.freeList, memory, table, disks);
      BatchBegins(fileWriter.State(), maxFileSize, alloc.freeList, memory, table, disks);
      written, writtenSize := 0, 0;
      while written < |table|
        invariant written <= |table| && writtenSize == Lengths(table[..written])
        invariant BatchFrom(fileWriter.State(), maxFileSize, alloc.freeList, memory, table, disks, written, outcome)
      {
        var e, disk := table[written], disks[written];
        BatchStep(fileWriter.State(), maxFileSize, alloc.freeList, memory, table, disks, written, outcome);
        LengthsStep(table, written);
        var ok := WriteEntryToFile(Load(memory, e.buffer), disk);
        if !ok {
          break;
        }
        alloc.Deallocate(e.buffer);
        written := written + 1;
        writtenSize := writtenSize + e.length;
      }
      fileWriter.FlushStream(flushing);
    }

    /** What follows the flush, with the lock taken back. */
    method CommitTable(table: seq<Entry>, written: nat, writtenSize: nat) returns (note: Notification)
      requires written <= |table| && writtenSize == Lengths(table[..written])
      modifies this
      ensures (Fields(), note) == Commit(old(Fields()), table[..written], table[written..])
    {
      if written < |table| {
        memtable := table[written..] + memtable;
        diskFullTryTimes := DISK_FULL_TRIES;
      }
      memtableSize := memtableSize - writtenSize;
      flushedLogIndex := flushedLogIndex + written;
      note := if blockedThreads == 1 then One else if blockedThreads > 1 then All else Nobody;
    }
  }
}
