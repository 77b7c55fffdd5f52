/** The log files behind the asynchronous logger: creation, rotation by size, and the error
    number that decides what a write reports. Disk behaviour is an argument of every
    operation, and every operation on the disk may fail. */
module LogFiles {
  import opened LogHistory
  import opened Options

  /** The size the program counts for a file, and why the real size differs: `stray` bytes
      were taken by writes that reported a refusal and are not counted, `lost` bytes were
      counted but are not in the file. */
  datatype Tally = Tally(counted: nat, stray: nat, lost: nat)

  /** One file: the length of its header, the records after it, the tally when each of them
      was added, and the tally now. */
  datatype LogFile = LogFile(header: nat, records: seq<Record>, before: seq<Tally>, tally: Tally)

  /** The state of the file writer. `named` is false when the log goes to standard output,
      `current` is the open stream, the first `durable` records of all files together are
      out of the stdio buffer, and `noSpace` says that `errno` is ENOSPC. */
  datatype Files = Files(
    named: bool,
    closed: seq<LogFile>,
    current: Option<LogFile>,
    size: nat,
    durable: nat,
    noSpace: bool,
    log: History)

  /** What the calls of one operation leave in `errno`; no call clears it. */
  datatype Errno = Unchanged | NoSpace | OtherError

  /** What the disk does during one record write: whether the old stream can be closed and
      a new file created (with the length of its header) when rotating, whether one can be
      created when reopening, what `fwrite` takes, and the error number. */
  datatype Disk = Disk(
    closes: bool,
    rotates: bool,
    rotateHeader: nat,
    opens: bool,
    openHeader: nat,
    took: Fwrite,
    errno: Errno)

  /** What the disk does during a flush. */
  datatype Flushing = Flushing(succeeds: bool, errno: Errno)

  function SetErrno(noSpace: bool, errno: Errno): bool {
    match errno
    case Unchanged => noSpace
    case NoSpace => true
    case OtherError => false
  }

  function Bytes(records: seq<Record>): nat {
    if records == [] then 0 else Bytes(records[..|records| - 1]) + |records[|records| - 1].text|
  }

  function RecordsOf(files: seq<LogFile>): seq<Record> {
    if files == [] then [] else RecordsOf(files[..|files| - 1]) + files[|files| - 1].records
  }

  function CurrentRecords(f: Files): seq<Record> {
    if f.current.Some? then f.current.value.records else []
  }

  /** All records in the files and their buffer, oldest file first and headers removed. */
  function Written(f: Files): seq<Record> {
    RecordsOf(f.closed) + CurrentRecords(f)
  }

  function EmptyFile(header: nat): LogFile {
    LogFile(header, [], [], Tally(header, 0, 0))
  }

  /** The file after its unflushed records are gone. */
  function Truncated(file: LogFile, kept: nat): LogFile
    requires kept <= |file.records|
  {
    file.(records := file.records[..kept],
          before := if kept <= |file.before| then file.before[..kept] else file.before,
          tally := file.tally.(lost := file.tally.lost + Bytes(file.records[kept..])))
  }

  /** How many records of the open file are out of the stdio buffer. */
  function FlushedCount(f: Files): (n: nat)
    ensures n <= |CurrentRecords(f)|
  {
    var before, open := |RecordsOf(f.closed)|, |CurrentRecords(f)|;
    if f.durable <= before then 0 else if f.durable - before < open then f.durable - before else open
  }

  /** Closing flushes the stream first; if that fails, what is in the buffer is lost. */
  function CloseStream(f: Files, closes: bool): Files {
    if f.current.None? then f
    else if closes then
      f.(closed := f.closed + [f.current.value], current := None,
         durable := |Written(f)|, log := AfterFlush(f.log))
    else
      var file := f.current.value;
      f.(closed := f.closed + [Truncated(file, FlushedCount(f))], current := None,
         log := AfterDrop(f.log, |file.records| - FlushedCount(f)))
  }

  function CreateFile(f: Files, closes: bool, opens: bool, header: nat): Files {
    if !f.named then
      f.(current := Some(if f.current.Some? then f.current.value else EmptyFile(0)), size := 0)
    else
      var f' := CloseStream(f, closes);
      if opens then f'.(current := Some(EmptyFile(header)), size := header) else f'.(size := 0)
  }

  function Rotate(f: Files, closes: bool, opens: bool, header: nat): Files {
    if !f.named then f else CreateFile(CloseStream(f, closes), closes, opens, header)
  }

  /** Tries to create a file if none is open. */
  function Reopen(f: Files, opens: bool, header: nat): Files {
    if f.current.None? then CreateFile(f, true, opens, header) else f
  }

  /** Adds what `fwrite` takes to the file; only a write that reports success is counted. */
  function AddRecord(file: LogFile, id: nat, text: string, took: Fwrite, ok: bool): LogFile {
    var pieces, n, t := Taken(id, text, took), TakenBytes(text, took), file.tally;
    file.(records := file.records + pieces,
          before := file.before + if pieces == [] then [] else [t],
          tally := if ok then Tally(t.counted + |text|, t.stray, t.lost + |text| - n)
                   else Tally(t.counted, t.stray + n, t.lost))
  }

  /** Returns the new state and what the write reports: it looks at `errno` and not at
      what `fwrite` has taken. */
  function WriteRecord(f: Files, text: string, opens: bool, header: nat, took: Fwrite, errno: Errno): (Files, bool) {
    var f' := Reopen(f, opens, header).(noSpace := SetErrno(f.noSpace, errno));
    if f'.current.None? then (f', false)
    else
      var ok := !f'.noSpace;
      (f'.(current := Some(AddRecord(f'.current.value, |f.log.reported|, text, took, ok)),
           size := f'.size + (if ok then |text| else 0),
           log := AfterWrite(f'.log, text, took, ok)), ok)
  }

  /** The program ignores whether a flush succeeds. */
  function Flush(f: Files, flushing: Flushing): Files {
    if f.current.None? then f
    else
      var f' := f.(noSpace := SetErrno(f.noSpace, flushing.errno));
      if flushing.succeeds then f'.(durable := |Written(f)|, log := AfterFlush(f.log)) else f'
  }

  /** One iteration of the worker's write loop on the files: rotate first if the current
      file has outgrown the limit. */
  function WriteEntry(f: Files, limit: nat, text: string, disk: Disk): (Files, bool) {
    var f' := if f.size > limit then Rotate(f, disk.closes, disk.rotates, disk.rotateHeader) else f;
    WriteRecord(f', text, disk.opens, disk.openHeader, disk.took, disk.errno)
  }

  function Max(a: nat, b: nat): nat {
    if a < b then b else a
  }

  /** The real size of the file up to its first `k` records. */
  function RealSize(file: LogFile, k: nat): nat
    requires k <= |file.records|
  {
    file.header + Bytes(file.records[..k])
  }

  /** The real size and the counted size differ by what is uncounted on either side. */
  predicate Balances(size: nat, t: Tally) {
    size + t.lost == t.counted + t.stray
  }

  ghost predicate Balanced(file: LogFile) {
    && |file.before| == |file.records|
    && Balances(RealSize(file, |file.records|), file.tally)
    && forall k | 0 <= k < |file.records| :: Balances(RealSize(file, k), file.before[k])
  }

  /** Each record of the file was added while the size counted for the file was no larger
      than the limit, or was that of the header alone. */
  ghost predicate WithinLimit(file: LogFile, limit: nat) {
    forall t <- file.before :: t.counted <= Max(limit, file.header)
  }

  /** The file was counted to have outgrown the limit, so it was time to rotate it. */
  ghost predicate Outgrown(file: LogFile, limit: nat) {
    file.tally.counted > limit
  }

  /** A record was added while the real size of the file was within the limit exactly when
      the stray bytes before it fit into what the count left free and what was lost. Without
      stray bytes before it, it was. */
  lemma RealSizeExactlyWhen(file: LogFile, limit: nat, k: nat)
    requires Balanced(file) && WithinLimit(file, limit) && k < |file.records|
    ensures var top, t := Max(limit, file.header), file.before[k];
            && t.counted <= top
            && (RealSize(file, k) <= top <==> t.counted + t.stray <= top + t.lost)
            && (t.stray == 0 ==> RealSize(file, k) <= top)
            && RealSize(file, k) <= top + t.stray
  {
    assert file.before[k] in file.before;
    assert Balances(RealSize(file, k), file.before[k]);
  }

  ghost predicate Rotated(files: seq<LogFile>, limit: nat) {
    forall file <- files :: Balanced(file) && WithinLimit(file, limit) && Outgrown(file, limit)
  }

  ghost predicate FilesInv(f: Files, limit: nat) {
    && (f.named && f.current.Some? ==> f.size == f.current.value.tally.counted)
    && (f.current.None? ==> f.size == 0)
    && (!f.named ==> f.current.Some?)
    && (f.named ==> Rotated(f.closed, limit))
    && (f.named && f.current.Some? ==> Balanced(f.current.value) && WithinLimit(f.current.value, limit))
    && |RecordsOf(f.closed)| <= f.durable
    && Recorded(Written(f), f.durable, f.log)
  }

  // ---- the operations ----

  const NO_FILES := Files(true, [], None, 0, 0, false, NO_HISTORY)

  /** A log starts with no records, whether or not its first file could be created. */
  lemma FreshFiles(named: bool, opens: bool, header: nat, limit: nat)
    ensures var f := CreateFile(NO_FILES.(named := named), true, opens, header);
            FilesInv(f, limit) && Written(f) == [] && f.log == NO_HISTORY && !f.noSpace
  {
  }

  lemma {:induction false} BytesAppend(a: seq<Record>, b: seq<Record>)
    ensures Bytes(a + b) == Bytes(a) + Bytes(b)
    decreases |b|
  {
    if b == [] {
      assert a + b == a;
    } else {
      var last := |b| - 1;
      BytesAppend(a, b[..last]);
      assert (a + b)[..|a| + last] == a + b[..last];
    }
  }

  lemma RecordsAppend(files: seq<LogFile>, file: LogFile)
    ensures RecordsOf(files + [file]) == RecordsOf(files) + file.records
  {
    assert (files + [file])[..|files|] == files;
  }

  lemma TruncatedKeeps(file: LogFile, kept: nat, limit: nat)
    requires kept <= |file.records| && Balanced(file) && WithinLimit(file, limit)
    ensures Balanced(Truncated(file, kept)) && WithinLimit(Truncated(file, kept), limit)
  {
    BytesAppend(file.records[..kept], file.records[kept..]);
    assert file.records[..kept] + file.records[kept..] == file.records;
    assert file.records[..|file.records|] == file.records && file.records[..kept][..kept] == file.records[..kept];
    forall k | 0 <= k < kept
      ensures file.records[..kept][..k] == file.records[..k]
    {
    }
  }

  /** Closing keeps the records that are out of the stdio buffer, and all of them if it
      succeeds. */
  lemma CloseKeepsDurable(f: Files, closes: bool)
    requires |RecordsOf(f.closed)| <= f.durable && Recorded(Written(f), f.durable, f.log)
    ensures var f' := CloseStream(f, closes);
            && Written(f') == (if closes || f.current.None? then Written(f) else Written(f)[..f.durable])
            && f'.durable == |Written(f')|
            && Recorded(Written(f'), f'.durable, f'.log)
  {
    if f.current.Some? {
      var before, file := RecordsOf(f.closed), f.current.value;
      RecordsAppend(f.closed, file);
      FlushRecorded(Written(f), f.durable, f.log);
      var kept := FlushedCount(f);
      RecordsAppend(f.closed, Truncated(file, kept));
      DropRecorded(Written(f), f.durable, f.log);
      assert (before + file.records)[..f.durable] == before + file.records[..kept];
    }
  }

  lemma CloseKeepsLimits(f: Files, closes: bool, limit: nat)
    requires FilesInv(f, limit) && f.named && (f.current.Some? ==> f.size > limit)
    ensures Rotated(CloseStream(f, closes).closed, limit)
  {
    if f.current.Some? && !closes {
      TruncatedKeeps(f.current.value, FlushedCount(f), limit);
    }
  }

  /** Creating a file, even unsuccessfully, loses no record; if it opens, the new file
      holds only its header. */
  lemma CreateKeepsRecords(f: Files, closes: bool, opens: bool, header: nat, limit: nat)
    requires f.current.None? && f.named && Rotated(f.closed, limit)
    requires |RecordsOf(f.closed)| <= f.durable && Recorded(Written(f), f.durable, f.log)
    ensures var f' := CreateFile(f, closes, opens, header);
            && FilesInv(f', limit)
            && Written(f') == Written(f)
            && f'.durable == f.durable && f'.log == f.log
            && (f'.current.Some? <==> opens)
            && (opens ==> f'.size == header == f'.current.value.header)
  {
    assert Written(f) == RecordsOf(f.closed);
  }

  /** Rotation loses no record that is out of the stdio buffer, and none at all if the old
      stream can be closed. */
  lemma RotateKeepsDurable(f: Files, closes: bool, opens: bool, header: nat, limit: nat)
    requires FilesInv(f, limit) && f.size > limit
    ensures var f' := Rotate(f, closes, opens, header);
            && FilesInv(f', limit)
            && Written(f') == (if closes || !f.named then Written(f) else Written(f)[..f.durable])
            && f'.durable >= f.durable
            && f'.noSpace == f.noSpace && f'.log.reported == f.log.reported
            && (f'.named && f'.current.Some? ==> f'.size == f'.current.value.header)
            && (f.named ==> (f'.current.Some? <==> opens))
  {
    if f.named {
      CloseKeepsDurable(f, closes);
      CloseKeepsLimits(f, closes, limit);
      CreateKeepsRecords(CloseStream(f, closes), closes, opens, header, limit);
    }
  }

  lemma AddRecordKeeps(file: LogFile, id: nat, text: string, took: Fwrite, ok: bool, limit: nat)
    requires Balanced(file)
    ensures var file' := AddRecord(file, id, text, took, ok);
            && Balanced(file')
            && (WithinLimit(file, limit) && file.tally.counted <= Max(limit, file.header) ==> WithinLimit(file', limit))
  {
    var pieces := Taken(id, text, took);
    var records' := file.records + pieces;
    BytesAppend(file.records, pieces);
    PieceBytes(id, text, took);
    forall k | 0 <= k <= |file.records|
      ensures records'[..k] == file.records[..k]
    {
    }
    assert file.records[..|file.records|] == file.records && records'[..|records'|] == records';
  }

  lemma PieceBytes(id: nat, text: string, took: Fwrite)
    ensures Bytes(Taken(id, text, took)) == TakenBytes(text, took)
    ensures |Taken(id, text, took)| <= 1
  {
    var pieces := Taken(id, text, took);
    if pieces != [] {
      assert pieces[..0] == [];
    }
  }

  lemma AddKeeps(f: Files, limit: nat, text: string, took: Fwrite)
    requires FilesInv(f, limit) && f.current.Some?
    requires f.named ==> f.size <= Max(limit, f.current.value.header)
    ensures var ok := !f.noSpace;
            var f' := f.(current := Some(AddRecord(f.current.value, |f.log.reported|, text, took, ok)),
                         size := f.size + (if ok then |text| else 0),
                         log := AfterWrite(f.log, text, took, ok));
            FilesInv(f', limit) && Written(f') == Written(f) + Taken(|f.log.reported|, text, took)
  {
    var ok, id := !f.noSpace, |f.log.reported|;
    if f.named {
      AddRecordKeeps(f.current.value, id, text, took, ok, limit);
    }
    WriteRecorded(Written(f), f.durable, f.log, text, took, ok);
    assert RecordsOf(f.closed) + (f.current.value.records + Taken(id, text, took))
           == Written(f) + Taken(id, text, took);
  }

  lemma ReopenKeeps(f: Files, opens: bool, header: nat, errno: Errno, limit: nat)
    requires FilesInv(f, limit)
    ensures var f' := Reopen(f, opens, header).(noSpace := SetErrno(f.noSpace, errno));
            && FilesInv(f', limit)
            && Written(f') == Written(f)
            && (f'.current.Some? <==> f.current.Some? || opens)
            && f'.log == f.log && f'.durable == f.durable && f'.named == f.named
            && (f.current.Some? ==> f'.current == f.current && f'.size == f.size)
            && (f.current.None? && f'.current.Some? ==> f'.size == f'.current.value.header)
  {
    if f.current.None? {
      CreateKeepsRecords(f, true, opens, header, limit);
    }
    assert Written(Reopen(f, opens, header)) == Written(f);
  }

  /** A write adds what `fwrite` takes, and reports success exactly when there is a stream
      and `errno` is not ENOSPC afterwards, whatever was taken. */
  lemma WriteRecordAdds(f: Files, limit: nat, text: string, opens: bool, header: nat, took: Fwrite, errno: Errno)
    requires FilesInv(f, limit)
    requires f.named && f.current.Some? ==> f.size <= Max(limit, f.current.value.header)
    ensures var (f', ok) := WriteRecord(f, text, opens, header, took, errno);
            && FilesInv(f', limit)
            && (f'.current.Some? <==> f.current.Some? || opens)
            && f'.noSpace == SetErrno(f.noSpace, errno)
            && (ok <==> f'.current.Some? && !f'.noSpace)
            && Written(f') == Written(f) + (if f'.current.Some? then Taken(|f.log.reported|, text, took) else [])
            && f'.log == (if f'.current.Some? then AfterWrite(f.log, text, took, ok) else f.log)
            && f'.durable == f.durable
  {
    ReopenKeeps(f, opens, header, errno, limit);
    var f1 := Reopen(f, opens, header).(noSpace := SetErrno(f.noSpace, errno));
    if f1.current.Some? {
      AddKeeps(f1, limit, text, took);
    } else {
      assert Written(f) + [] == Written(f);
    }
  }

  /** What a write reports: if its calls leave ENOSPC it is refused, whatever was in `errno`
      before; if they leave another error it is not, if there is a stream; and if they leave
      `errno` alone, what was there before decides. */
  lemma ReportExactlyWhen(f: Files, text: string, opens: bool, header: nat, took: Fwrite, errno: Errno)
    ensures WriteRecord(f, text, opens, header, took, errno).1 <==>
            && (f.current.Some? || !f.named || opens)
            && (errno == OtherError || (errno == Unchanged && !f.noSpace))
  {
  }

  /** Writing one entry keeps every record that is out of the stdio buffer, and all of them
      unless an old stream cannot be closed; what it reports depends on `errno` alone once
      a file is open. */
  lemma WriteEntryAdds(f: Files, limit: nat, text: string, disk: Disk)
    requires FilesInv(f, limit)
    ensures var (f', ok) := WriteEntry(f, limit, text, disk);
            var kept := if f.size <= limit || disk.closes || !f.named then Written(f) else Written(f)[..f.durable];
            && FilesInv(f', limit)
            && f'.noSpace == SetErrno(f.noSpace, disk.errno)
            && (ok <==> f'.current.Some? && !f'.noSpace)
            && (disk.opens ==> f'.current.Some?)
            && Written(f') == kept + (if f'.current.Some? then Taken(|f.log.reported|, text, disk.took) else [])
            && f'.log.reported == f.log.reported + (if ok then [text] else [])
            && f'.durable >= f.durable
  {
    var f1 := if f.size > limit then Rotate(f, disk.closes, disk.rotates, disk.rotateHeader) else f;
    if f.size > limit {
      RotateKeepsDurable(f, disk.closes, disk.rotates, disk.rotateHeader, limit);
    }
    WriteRecordAdds(f1, limit, text, disk.opens, disk.openHeader, disk.took, disk.errno);
    assert f.log.reported + [] == f.log.reported;
  }

  /** Without a stream, every reported message has been flushed. */
  predicate ClosedIsSynced(f: Files) {
    f.current.None? ==> f.log.synced == |f.log.reported|
  }

  /** If streams can be closed, writing loses nothing to them. */
  lemma WriteEntrySynced(f: Files, limit: nat, text: string, disk: Disk)
    requires FilesInv(f, limit) && ClosedIsSynced(f) && disk.closes
    ensures var (f', ok) := WriteEntry(f, limit, text, disk);
            && ClosedIsSynced(f')
            && f.log.synced <= f'.log.synced
            && f'.log.dropped == f.log.dropped
  {
  }

  /** A flush moves no record; if it succeeds, every record is out of the stdio buffer. */
  lemma FlushKeepsRecords(f: Files, flushing: Flushing, limit: nat)
    requires FilesInv(f, limit)
    ensures var f' := Flush(f, flushing);
            && FilesInv(f', limit)
            && Written(f') == Written(f)
            && f'.log.reported == f.log.reported
            && f.durable <= f'.durable
            && (flushing.succeeds || f.current.None? ==> f'.durable == |Written(f)|)
            && (flushing.succeeds && f.current.Some? ==> f'.log.synced == |f.log.reported|)
            && (!flushing.succeeds ==> f'.durable == f.durable && f'.log == f.log)
  {
    FlushRecorded(Written(f), f.durable, f.log);
  }

  // ---- the object ----

  /** The file writer as the program has it: an object whose stream, size and error number
      change. What is in the files is ghost state. */
  class FileWritter {
    const named: bool
    var isOpen: bool
    var fileSize: nat
    var noSpace: bool
    ghost var closed: seq<LogFile>
    ghost var stream: LogFile
    ghost var durable: nat
    ghost var log: History

    ghost function State(): Files
      reads this
    {
      Files(named, closed, if isOpen then Some(stream) else None, fileSize, durable, noSpace, log)
    }

    constructor (named: bool, opens: bool, header: nat)
      ensures State() == CreateFile(NO_FILES.(named := named), true, opens, header)
    {
      this.named := named;
      isOpen, fileSize, noSpace := false, 0, false;
      closed, stream, durable, log := [], EmptyFile(0), 0, NO_HISTORY;
      new;
      Create(true, opens, header);
    }

    method Close(closes: bool)
      modifies this
      ensures State() == CloseStream(old(State()), closes)
    {
      if isOpen {
        if closes {
          closed, durable, log := closed + [stream], |Written(State())|, AfterFlush(log);
        } else {
          ghost var kept := FlushedCount(State());
          closed, log := closed + [Truncated(stream, kept)], AfterDrop(log, |stream.records| - kept);
        }
        isOpen := false;
      }
    }

    method Create(closes: bool, opens: bool, header: nat)
      modifies this
      ensures State() == CreateFile(old(State()), closes, opens, header)
    {
      fileSize := 0;
      if !named {
        stream := if isOpen then stream else EmptyFile(0);
        isOpen := true;
        return;
      }
      Close(closes);
      if !opens {
        return;
      }
      isOpen, stream := true, EmptyFile(header);
      fileSize := fileSize + header;
    }

    method Write(text: string, opens: bool, header: nat, took: Fwrite, errno: Errno) returns (ok: bool)
      modifies this
      ensures (State(), ok) == WriteRecord(old(State()), text, opens, header, took, errno)
    {
      if !isOpen {
        Create(true, opens, header);
      }
      noSpace := SetErrno(noSpace, errno);
      if !isOpen {
        return false;
      }
      stream := AddRecord(stream, |log.reported|, text, took, !noSpace);
      log := AfterWrite(log, text, took, !noSpace);
      if noSpace {
        return false;
      }
      fileSize := fileSize + |text|;
      return true;
    }

    method FlushStream(flushing: Flushing)
      modifies this
      ensures State() == Flush(old(State()), flushing)
    {
      if !isOpen {
        return;
      }
      noSpace := SetErrno(noSpace, flushing.errno);
      if flushing.succeeds {
        durable, log := |Written(State())|, AfterFlush(log);
      }
    }

    method RotateFile(closes: bool, opens: bool, header: nat)
      modifies this
      ensures State() == Rotate(old(State()), closes, opens, header)
    {
      if !named {
        return;
      }
      Close(closes);
      Create(closes, opens, header);
    }
  }
}
