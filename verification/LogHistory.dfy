/** What the log files hold, against what the file writer has reported: a write can take its
    record and report a refusal, or report success without taking all of it. */
module LogHistory {

  /** A record in a file: the number of its message in push order, and its bytes. */
  datatype Record = Record(id: nat, text: string)

  /** What `fwrite` takes of a record into the stream. */
  datatype Fwrite = TakesAll | TakesPart(n: nat)

  /** `reported` are the messages whose write returned success. The first `synced` of them
      were reported when a flush or a close last succeeded. `extra` counts the records and
      fragments in the files that no successful write accounts for, `missing` the reported
      messages their own write did not take in full, and `dropped` the records lost with a
      stream that could not be closed. */
  datatype History = History(reported: seq<string>, synced: nat, extra: nat, missing: nat, dropped: nat)

  const NO_HISTORY := History([], 0, 0, 0, 0)

  predicate IsWhole(text: string, took: Fwrite) {
    took.TakesAll? || took.n >= |text|
  }

  function TakenBytes(text: string, took: Fwrite): (n: nat)
    ensures n <= |text|
  {
    if IsWhole(text, took) then |text| else took.n
  }

  /** What a write leaves in the file: the record, a fragment of it, or nothing. */
  function Taken(id: nat, text: string, took: Fwrite): seq<Record> {
    if IsWhole(text, took) then [Record(id, text)]
    else if took.n == 0 then []
    else [Record(id, text[..took.n])]
  }

  function AfterWrite(h: History, text: string, took: Fwrite, ok: bool): History {
    h.(reported := h.reported + if ok then [text] else [],
       extra := h.extra + if Taken(|h.reported|, text, took) != [] && !(ok && IsWhole(text, took)) then 1 else 0,
       missing := h.missing + if ok && !IsWhole(text, took) then 1 else 0)
  }

  function AfterFlush(h: History): History {
    h.(synced := |h.reported|)
  }

  function AfterDrop(h: History, n: nat): History {
    h.(dropped := h.dropped + n)
  }

  /** No reported message was lost. */
  predicate Lossless(h: History) {
    h.missing == 0 && h.dropped == 0
  }

  /** The records of messages written once each, in order and in full. */
  function Whole(texts: seq<string>): (w: seq<Record>)
    ensures |w| == |texts| && forall k | 0 <= k < |texts| :: w[k] == Record(k, texts[k])
  {
    seq(|texts|, k requires 0 <= k < |texts| => Record(k, texts[k]))
  }

  /** Reported messages only, in full, in order, and none of them twice. */
  ghost predicate InOrder(w: seq<Record>, reported: seq<string>) {
    && (forall k | 0 <= k < |w| :: w[k].id < |reported| && w[k].text == reported[w[k].id])
    && forall j, k | 0 <= j < k < |w| :: w[j].id < w[k].id
  }

  ghost predicate AllRecorded(w: seq<Record>, texts: seq<string>, n: nat)
    requires n <= |texts|
  {
    forall m: nat | m < n :: Record(m, texts[m]) in w
  }

  /** The records `w`, of which the first `durable` are out of the stdio buffer, are what
      the history says. */
  ghost predicate Recorded(w: seq<Record>, durable: nat, h: History) {
    && durable <= |w|
    && h.synced <= |h.reported|
    && |w| + h.missing + h.dropped == |h.reported| + h.extra
    && (forall k | 0 <= k < |w| :: w[k].id <= |h.reported|)
    && (Lossless(h) ==> AllRecorded(w, h.reported, |h.reported|))
    && (Lossless(h) ==> AllRecorded(w[..durable], h.reported, h.synced))
    && (h.extra == 0 ==> InOrder(w, h.reported))
    && (h.extra == 0 ==> forall k | 0 <= k < durable :: w[k].id < h.synced)
    && (h.extra == 0 && Lossless(h) ==> w == Whole(h.reported))
  }

  lemma WriteRecorded(w: seq<Record>, durable: nat, h: History, text: string, took: Fwrite, ok: bool)
    requires Recorded(w, durable, h)
    ensures Recorded(w + Taken(|h.reported|, text, took), durable, AfterWrite(h, text, took, ok))
  {
    var w' := w + Taken(|h.reported|, text, took);
    var h' := AfterWrite(h, text, took, ok);
    assert w'[..durable] == w[..durable];
    if Lossless(h') {
      forall m: nat | m < |h'.reported|
        ensures Record(m, h'.reported[m]) in w'
      {
        if m < |h.reported| {
          assert Record(m, h.reported[m]) in w;
        } else {
          assert w'[|w|] == Record(m, text);
        }
      }
    }
    if h'.extra == 0 && Lossless(h') {
      assert w' == Whole(h'.reported);
    }
  }

  lemma FlushRecorded(w: seq<Record>, durable: nat, h: History)
    requires Recorded(w, durable, h)
    ensures Recorded(w, |w|, AfterFlush(h))
  {
    assert w[..|w|] == w;
  }

  lemma DropRecorded(w: seq<Record>, durable: nat, h: History)
    requires Recorded(w, durable, h)
    ensures Recorded(w[..durable], durable, AfterDrop(h, |w| - durable))
  {
    assert durable == |w| ==> w[..durable] == w;
    assert w[..durable][..durable] == w[..durable];
  }

  /** The files hold the reported messages and nothing else: if none of them was lost,
      exactly when no refused or short write left anything behind; and if none of them left
      anything behind, exactly when nothing was lost. */
  lemma ExactlyTheReported(w: seq<Record>, durable: nat, h: History)
    requires Recorded(w, durable, h)
    ensures Lossless(h) ==> (w == Whole(h.reported) <==> h.extra == 0)
    ensures h.extra == 0 ==> (w == Whole(h.reported) <==> Lossless(h))
  {
  }

  // ---- duplicates ----

  ghost predicate NoDuplicate(w: seq<Record>) {
    forall j, k | 0 <= j < k < |w| :: w[j].id != w[k].id
  }

  ghost function Ids(w: seq<Record>): set<nat> {
    set k | 0 <= k < |w| :: w[k].id
  }

  lemma IdsAppend(w: seq<Record>, r: Record)
    requires forall k | 0 <= k < |w| :: w[k].id != r.id
    ensures |Ids(w + [r])| == |Ids(w)| + 1
  {
    var w' := w + [r];
    assert r.id !in Ids(w);
    assert w'[|w|] == r && forall k | 0 <= k < |w| :: w'[k] == w[k];
    forall id
      ensures id in Ids(w') <==> id in Ids(w) + {r.id}
    {
      if id in Ids(w) {
        var k :| 0 <= k < |w| && w[k].id == id;
        assert w'[k].id == id;
      }
    }
    assert Ids(w + [r]) == Ids(w) + {r.id};
  }

  /** There are as many numbers as records exactly when no number occurs twice. */
  lemma {:induction false} IdsCount(w: seq<Record>)
    ensures |Ids(w)| <= |w|
    ensures |Ids(w)| == |w| <==> NoDuplicate(w)
  {
    if w != [] {
      var front, last := w[..|w| - 1], w[|w| - 1];
      IdsCount(front);
      assert w == front + [last];
      if k :| 0 <= k < |front| && front[k].id == last.id {
        IdsRepeated(front, last, k);
        assert w[k].id == w[|front|].id;
      } else {
        IdsAppend(front, last);
      }
    }
  }

  lemma IdsRepeated(w: seq<Record>, r: Record, k: nat)
    requires k < |w| && w[k].id == r.id
    ensures Ids(w + [r]) == Ids(w)
  {
    var w' := w + [r];
    forall id
      ensures id in Ids(w') <==> id in Ids(w)
    {
      if id in Ids(w) {
        var j :| 0 <= j < |w| && w[j].id == id;
        assert w'[j].id == id;
      }
    }
  }

  ghost function Below(n: nat): (ids: set<nat>)
    ensures |ids| == n
    ensures forall id: nat :: id in ids <==> id < n
  {
    if n == 0 then {} else Below(n - 1) + {n - 1}
  }

  /** Something of the next message to be reported is in the files already: its write was
      refused, and it waits for another try. */
  predicate Waiting(w: seq<Record>, h: History) {
    exists k :: 0 <= k < |w| && w[k].id == |h.reported|
  }

  lemma LosslessIds(w: seq<Record>, durable: nat, h: History)
    requires Recorded(w, durable, h) && Lossless(h)
    ensures |Ids(w)| == |h.reported| + if Waiting(w, h) then 1 else 0
  {
    var n := |h.reported|;
    forall m: nat | m < n
      ensures m in Ids(w)
    {
      var k :| 0 <= k < |w| && w[k] == Record(m, h.reported[m]);
      assert w[k].id == m;
    }
    assert Ids(w) == if Waiting(w, h) then Below(n) + {n} else Below(n);
  }

  /** When no message was lost, some message is in the files twice, in full or in part,
      exactly when refused and short writes have left more behind than the one copy of a
      refused message that waits for its next try. */
  lemma DuplicateExactlyWhen(w: seq<Record>, durable: nat, h: History)
    requires Recorded(w, durable, h) && Lossless(h)
    ensures NoDuplicate(w) <==> h.extra == if Waiting(w, h) then 1 else 0
  {
    LosslessIds(w, durable, h);
    IdsCount(w);
  }

  // ---- durability ----

  /** The record of message `m` is out of the stdio buffer. */
  predicate IsDurable(w: seq<Record>, durable: nat, m: nat, text: string)
    requires durable <= |w|
  {
    Record(m, text) in w[..durable]
  }

  /** A reported message is durable if a flush or close has succeeded since its write and
      nothing was lost; and only then, if nothing was left behind by other writes. */
  lemma DurableExactlyWhen(w: seq<Record>, durable: nat, h: History, m: nat)
    requires Recorded(w, durable, h) && m < |h.reported|
    ensures Lossless(h) && m < h.synced ==> IsDurable(w, durable, m, h.reported[m])
    ensures h.extra == 0 && IsDurable(w, durable, m, h.reported[m]) ==> m < h.synced
  {
    if IsDurable(w, durable, m, h.reported[m]) {
      var k :| 0 <= k < durable && w[..durable][k] == Record(m, h.reported[m]);
      assert w[k].id == m;
    }
  }
}
