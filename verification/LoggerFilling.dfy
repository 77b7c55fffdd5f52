/** What the worker does while `errno` stays ENOSPC: every try takes another copy of the
    same record. */
module LoggerFilling {
  import opened LogFiles
  import opened LogHistory
  import opened LoggerProtocol
  import opened LoggerInvariant
  import opened LoggerRelease

  function Copies(r: Record, n: nat): (rs: seq<Record>)
    ensures |rs| == n && forall k | 0 <= k < n :: rs[k] == r
  {
    seq(n, _ => r)
  }

  /** The open file has grown by `n` copies of a record, and nothing else has changed that
      the program knows of: no message is reported, nothing is counted, no file rotated. */
  ghost predicate Filled(f: Files, f': Files, r: Record, n: nat) {
    && f.current.Some? && f'.current.Some?
    && f'.current.value.records == f.current.value.records + Copies(r, n)
    && f'.size == f.size && f'.closed == f.closed && f'.named == f.named
    && f'.log.reported == f.log.reported
  }

  lemma FilledOn(f: Files, f1: Files, f2: Files, r: Record, m: nat, n: nat)
    requires Filled(f, f1, r, m) && Filled(f1, f2, r, n)
    ensures Filled(f, f2, r, m + n)
  {
    assert Copies(r, m) + Copies(r, n) == Copies(r, m + n);
    var rs := f.current.value.records;
    assert (rs + Copies(r, m)) + Copies(r, n) == rs + (Copies(r, m) + Copies(r, n));
  }

  /** The file is open and it is not time to rotate it. */
  ghost predicate Stays(f: Files, limit: nat) {
    f.current.Some? && (f.named ==> f.size <= limit)
  }

  lemma RefusedWriteFills(f: Files, limit: nat, text: string)
    requires Stays(f, limit) && f.noSpace
    ensures Filled(f, WriteEntry(f, limit, text, WILLING).0, Record(|f.log.reported|, text), 1)
  {
    assert Copies(Record(|f.log.reported|, text), 1) == [Record(|f.log.reported|, text)];
    assert f.log.reported + [] == f.log.reported;
  }

  lemma FlushFillsNothing(f: Files, flushing: Flushing, r: Record)
    requires f.current.Some?
    ensures Filled(f, f, r, 0) && Filled(f, Flush(f, flushing), r, 0)
  {
    assert f.current.value.records + Copies(r, 0) == f.current.value.records;
  }

  /** The message at the front of what is not reported. */
  function Front(s: State): Record {
    var n := |s.files.log.reported|;
    Record(n, if n < |s.pushed| then s.pushed[n] else "")
  }

  /** The worker is about to write the front message. */
  ghost predicate AtFront(s: State, i: nat) {
    && Stuck(s, i)
    && s.worker.Writing? && !s.worker.refused && s.worker.rest != []
  }

  lemma FrontText(s: State)
    requires Inv(s) && s.worker.Writing? && s.worker.rest != []
    ensures Front(s) == Record(|s.files.log.reported|, Load(s.memory, s.worker.rest[0].buffer))
  {
    var n := |s.files.log.reported|;
    assert s.pushed[n] == Texts(s.memory, s.worker.rest)[0];
  }

  /** A writer that waits leaves the worker no rest, and a message unreported. */
  lemma StuckQueue(s: State, i: nat)
    requires Stuck(s, i)
    ensures !s.worker.Asleep? && |s.files.log.reported| < |s.pushed|
    ensures InFlight(s.worker) + s.shared.memtable != []
  {
    assert s.writers[i].need <= |s.pushed|;
    assert |s.pushed| == |s.files.log.reported| + |InFlight(s.worker)| + |s.shared.memtable|;
  }

  /** From the end of a refused table back to its front. */
  lemma BackToFront(s: State, i: nat) returns (steps: seq<Step>, s': State)
    requires Stuck(s, i) && s.files.current.Some?
    requires s.worker.Flushed? || (s.worker.Writing? && (s.worker.refused || s.worker.rest == []))
    ensures Leads(s, steps, s', i) && AtFront(s', i)
    ensures Filled(s.files, s'.files, Front(s), 0)
  {
    StuckQueue(s, i);
    steps, s' := FinishTable(s, i);
    FlushFillsNothing(s.files, WILLING_FLUSH, Front(s));
  }

  lemma ToFront(s: State, i: nat) returns (steps: seq<Step>, s': State)
    requires Stuck(s, i) && s.files.current.Some? && !s.worker.Exited?
    ensures Leads(s, steps, s', i) && AtFront(s', i)
    ensures Filled(s.files, s'.files, Front(s), 0)
  {
    StuckQueue(s, i);
    FlushFillsNothing(s.files, WILLING_FLUSH, Front(s));
    if s.worker.Awake? {
      TopStep(s, i);
      NextBatchEffect(s.shared);
      steps, s' := [WorkerTop], Apply(s, WorkerTop);
    } else if s.worker.Writing? && !s.worker.refused && s.worker.rest != [] {
      steps, s' := [], s;
    } else {
      steps, s' := BackToFront(s, i);
    }
  }

  /** The worker has gone round its table and added `n` copies of the front message. */
  ghost predicate Rounds(s: State, steps: seq<Step>, s': State, i: nat, n: nat) {
    && Leads(s, steps, s', i)
    && AtFront(s', i) && Stays(s'.files, s'.limit) && Front(s') == Front(s)
    && Filled(s.files, s'.files, Front(s), n)
  }

  lemma RoundsOn(s: State, a: seq<Step>, s1: State, b: seq<Step>, s2: State, i: nat, m: nat, n: nat)
    requires Rounds(s, a, s1, i, m) && Rounds(s1, b, s2, i, n)
    ensures Rounds(s, a + b, s2, i, m + n)
  {
    LeadsOn(s, a, s1, b, s2, i);
    FilledOn(s.files, s1.files, s2.files, Front(s), m, n);
  }

  /** The record is taken once more and refused once more. */
  lemma TakenAgain(s: State, i: nat)
    requires AtFront(s, i) && Stays(s.files, s.limit)
    ensures var s' := Apply(s, WorkerWrite(WILLING));
            && Leads(s, [WorkerWrite(WILLING)], s', i)
            && Stuck(s', i) && s'.worker.Writing? && s'.worker.refused
            && Filled(s.files, s'.files, Front(s), 1) && Front(s') == Front(s) && s'.limit == s.limit
  {
    WriteStep(s, i);
    FrontText(s);
    RefusedWriteFills(s.files, s.limit, Load(s.memory, s.worker.rest[0].buffer));
  }

  lemma RoundsFrom(s: State, a: seq<Step>, s1: State, b: seq<Step>, s2: State, i: nat, m: nat)
    requires Leads(s, a, s1, i) && Filled(s.files, s1.files, Front(s), m) && Front(s1) == Front(s)
    requires Leads(s1, b, s2, i) && Filled(s1.files, s2.files, Front(s), 0) && AtFront(s2, i)
    requires Stays(s.files, s.limit)
    ensures Rounds(s, a + b, s2, i, m)
  {
    LeadsOn(s, a, s1, b, s2, i);
    FilledOn(s.files, s1.files, s2.files, Front(s), m, 0);
    LimitKept(s, a + b, s2);
  }

  /** One round of the worker. */
  lemma OneMoreCopy(s: State, i: nat) returns (steps: seq<Step>, s': State)
    requires AtFront(s, i) && Stays(s.files, s.limit)
    ensures Rounds(s, steps, s', i, 1)
  {
    TakenAgain(s, i);
    var s1 := Apply(s, WorkerWrite(WILLING));
    var b;
    b, s' := BackToFront(s1, i);
    RoundsFrom(s, [WorkerWrite(WILLING)], s1, b, s', i, 1);
    steps := [WorkerWrite(WILLING)] + b;
  }

  lemma {:induction false} MoreCopies(s: State, i: nat, n: nat) returns (steps: seq<Step>, s': State)
    requires AtFront(s, i) && Stays(s.files, s.limit)
    ensures Rounds(s, steps, s', i, n)
    decreases n
  {
    if n == 0 {
      steps, s' := [], s;
      FlushFillsNothing(s.files, WILLING_FLUSH, Front(s));
    } else {
      var a, s1 := OneMoreCopy(s, i);
      var b;
      b, s' := MoreCopies(s1, i, n - 1);
      RoundsOn(s, a, s1, b, s', i, 1, n - 1);
      steps := a + b;
    }
  }

  lemma {:induction false} LimitKept(s: State, steps: seq<Step>, s': State)
    requires IsRun(s, steps, s')
    ensures s'.limit == s.limit
    decreases |steps|
  {
    if steps != [] {
      LimitKept(Apply(s, steps[0]), steps[1..], s');
    }
  }

  lemma StartRounds(s: State, i: nat) returns (steps: seq<Step>, s': State)
    requires Stuck(s, i) && !s.worker.Exited? && Stays(s.files, s.limit)
    ensures Rounds(s, steps, s', i, 0)
  {
    steps, s' := ToFront(s, i);
    LimitKept(s, steps, s');
  }

  lemma Fill(s: State, i: nat, n: nat) returns (steps: seq<Step>, s': State)
    requires Stuck(s, i) && !s.worker.Exited? && Stays(s.files, s.limit)
    ensures Rounds(s, steps, s', i, n)
  {
    var a, s1 := StartRounds(s, i);
    var b;
    b, s' := MoreCopies(s1, i, n);
    RoundsOn(s, a, s1, b, s', i, 0, n);
    steps := a + b;
  }

  /** While `errno` is ENOSPC, a disk that takes everything is filled without end: for every
      `n`, the worker alone can leave `n` more copies of the front message in the open file,
      although all calls succeed. The counted size does not change, so the file is never
      rotated. */
  lemma FillsTheDisk(s: State, i: nat, n: nat) returns (steps: seq<Step>, s': State)
    requires Reachable(s) && Stuck(s, i) && !s.worker.Exited? && Stays(s.files, s.limit)
    ensures IsRun(s, steps, s') && WorkerOnly(steps)
    ensures |s.files.log.reported| < |s.pushed|
    ensures Filled(s.files, s'.files, Record(|s.files.log.reported|, s.pushed[|s.files.log.reported|]), n)
  {
    StuckQueue(s, i);
    steps, s' := Fill(s, i, n);
  }
}
