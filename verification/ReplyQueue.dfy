/** The queue of replies to a peer, drained by a handler whose writes the operating system
    may take in part, put off, or refuse. */
module ReplyQueue {
  import opened Decimal

  type Bytes = seq<Byte>

  /** What a write system call does with the bytes it is offered: take up to `n` of them,
      ask for another try, or fail. */
  datatype Answer = Takes(n: nat) | TryAgain | Fails

  /** A connection: whether its descriptor is still good, and every byte it has sent. */
  datatype Link = Link(open: bool, sent: Bytes)

  /** One write to the socket and its result. A write that takes nothing closes the
      connection just as a failing one does, but returns 0. */
  function Send(link: Link, data: Bytes, answer: Answer): (res: (Link, int)) {
    if !link.open then (link, -1)
    else
      match answer
      case TryAgain => (link, -1)
      case Fails => (link.(open := false), -1)
      case Takes(n) =>
        var taken := if n < |data| then n else |data|;
        if taken == 0 then (link.(open := false), 0)
        else (link.(sent := link.sent + data[..taken]), taken)
  }

  /** The queue, how much of its front has been sent, and the connection. */
  datatype Queue = Queue(replys: seq<Bytes>, written: nat, link: Link)

  /** The front reply is not written out, and nothing is written of an empty queue. */
  predicate Fits(q: Queue) {
    q.written == 0 || (q.replys != [] && q.written < |q.replys[0]|)
  }

  function Next(answers: seq<Answer>): Answer {
    if answers == [] then TryAgain else answers[0]
  }

  function Later(answers: seq<Answer>): seq<Answer> {
    if answers == [] then [] else answers[1..]
  }

  /** One turn of the handler's loop: the queue after it and whether the loop goes on. */
  function Turn(q: Queue, answer: Answer): (Queue, bool)
    requires Fits(q) && q.replys != []
  {
    var (link, ret) := Send(q.link, q.replys[0][q.written..], answer);
    if ret == -1 then (q.(link := link), false)
    else if q.written + ret < |q.replys[0]| then (Queue(q.replys, q.written + ret, link), false)
    else (Queue(q.replys[1..], 0, link), true)
  }

  /** The queue after one call of the handler. */
  function Drain(q: Queue, answers: seq<Answer>): Queue
    requires Fits(q)
    decreases |q.replys|
  {
    if q.replys == [] then q
    else
      var (q', goesOn) := Turn(q, Next(answers));
      if goesOn then Drain(q', Later(answers)) else q'
  }

  class Connection {
    var open: bool
    ghost var sent: Bytes

    ghost function State(): Link
      reads this
    {
      Link(open, sent)
    }

    constructor ()
      ensures State() == Link(true, [])
    {
      open, sent := true, [];
    }

    method WriteToSocket(data: Bytes, answer: Answer) returns (ret: int)
      modifies this
      ensures (State(), ret) == Send(old(State()), data, answer)
    {
      if !open {
        return -1;
      }
      match answer {
        case TryAgain => return -1;
        case Fails =>
          open := false;
          return -1;
        case Takes(n) =>
          ret := if n < |data| then n else |data|;
          if ret == 0 {
            open := false;
            return 0;
          }
          sent := sent + data[..ret];
      }
    }
  }

  class RaftNode {
    var replys: seq<Bytes>
    var replyWritten: nat
    const connection: Connection

    ghost function State(): Queue
      reads this, connection
    {
      Queue(replys, replyWritten, connection.State())
    }

    constructor ()
      ensures fresh(connection) && State() == Queue([], 0, Link(true, []))
    {
      replys, replyWritten := [], 0;
      connection := new Connection();
    }

    method Enqueue(reply: Bytes)
      modifies this
      ensures State() == old(State()).(replys := old(replys) + [reply])
    {
      replys := replys + [reply];
    }

    /** Writes replies until the queue is empty or the peer stops taking them. `answers`
        are what the system calls answer, one after another. */
    method WriteHandler(answers: seq<Answer>)
      requires Fits(State())
      modifies this, connection
      ensures State() == Drain(old(State()), answers)
    {
      ghost var end := Drain(State(), answers);
      var left := answers;
      while replys != []
        invariant Fits(State()) && Drain(State(), left) == end
        decreases |replys|
      {
        var data := replys[0];
        var ret := connection.WriteToSocket(data[replyWritten..], Next(left));
        left := Later(left);
        if ret == -1 {
          break;
        }
        replyWritten := replyWritten + ret;
        if replyWritten < |data| {
          break;
        }
        replys := replys[1..];
        replyWritten := 0;
      }
    }
  }

  // ---- conservation ----

  function Concat(rs: seq<Bytes>): Bytes {
    if rs == [] then [] else Concat(rs[..|rs| - 1]) + rs[|rs| - 1]
  }

  /** The connection has sent the replies that have left the queue, then the written part
      of the front; the queue holds the others, in order. */
  ghost predicate Delivered(q: Queue, all: seq<Bytes>) {
    && Fits(q)
    && |q.replys| <= |all|
    && q.replys == all[|all| - |q.replys|..]
    && q.link.sent == Concat(all[..|all| - |q.replys|]) + if q.replys == [] then [] else q.replys[0][..q.written]
  }

  lemma PartSent(q: Queue, n: nat, all: seq<Bytes>)
    requires Delivered(q, all) && q.replys != [] && q.written + n < |q.replys[0]|
    ensures var link := Link(q.link.open, q.link.sent + q.replys[0][q.written..][..n]);
            Delivered(Queue(q.replys, q.written + n, link), all)
  {
    var front := q.replys[0];
    Regroup(Concat(all[..|all| - |q.replys|]), front[..q.written], front[q.written..][..n]);
    assert front[..q.written] + front[q.written..][..n] == front[..q.written + n];
  }

  lemma FrontSent(q: Queue, open: bool, all: seq<Bytes>)
    requires Delivered(q, all) && q.replys != []
    ensures Delivered(Queue(q.replys[1..], 0, Link(open, q.link.sent + q.replys[0][q.written..])), all)
  {
    var front, k := q.replys[0], |all| - |q.replys|;
    var gone := all[..k + 1];
    assert gone[..k] == all[..k] && gone[k] == front;
    Regroup(Concat(all[..k]), front[..q.written], front[q.written..]);
    assert front[..q.written] + front[q.written..] == front;
    assert Concat(gone) + [] == Concat(gone);
  }

  /** Whatever the system call answers, a turn sends exactly what it takes off the queue. */
  lemma TurnDelivers(q: Queue, answer: Answer, all: seq<Bytes>)
    requires Delivered(q, all) && q.replys != []
    ensures var (q', goesOn) := Turn(q, answer); Delivered(q', all)
  {
    var rest := q.replys[0][q.written..];
    var (link, ret) := Send(q.link, rest, answer);
    assert rest[..|rest|] == rest;
    if ret > 0 {
      if ret < |rest| {
        PartSent(q, ret, all);
      } else {
        FrontSent(q, link.open, all);
      }
    } else if ret == 0 && rest == [] {
      assert link.sent + rest == link.sent;
      FrontSent(q, link.open, all);
    }
  }

  lemma {:induction false} DrainDelivers(q: Queue, answers: seq<Answer>, all: seq<Bytes>)
    requires Delivered(q, all)
    ensures Delivered(Drain(q, answers), all)
    decreases |q.replys|
  {
    if q.replys != [] {
      TurnDelivers(q, Next(answers), all);
      var (q', goesOn) := Turn(q, Next(answers));
      if goesOn {
        DrainDelivers(q', Later(answers), all);
      }
    }
  }

  datatype Event = Enqueued(reply: Bytes) | Handled(answers: seq<Answer>)

  /** The queue after a history of events, from a new connection. */
  function After(events: seq<Event>): (q: Queue)
    ensures Fits(q)
  {
    if events == [] then Queue([], 0, Link(true, []))
    else
      var q := After(events[..|events| - 1]);
      match events[|events| - 1]
      case Enqueued(reply) => q.(replys := q.replys + [reply])
      case Handled(answers) => DrainFits(q, answers); Drain(q, answers)
  }

  function AllReplies(events: seq<Event>): seq<Bytes> {
    if events == [] then []
    else
      var last := events[|events| - 1];
      AllReplies(events[..|events| - 1]) + if last.Enqueued? then [last.reply] else []
  }

  lemma {:induction false} DrainFits(q: Queue, answers: seq<Answer>)
    requires Fits(q)
    ensures Fits(Drain(q, answers))
    decreases |q.replys|
  {
    if q.replys != [] {
      var (q', goesOn) := Turn(q, Next(answers));
      if goesOn {
        DrainFits(q', Later(answers));
      }
    }
  }

  /** For every interleaving of enqueues and handler calls under any answers, the bytes sent
      are the replies that have left the queue and the written part of the next one. */
  lemma {:induction false} EveryRunDelivers(events: seq<Event>)
    ensures Delivered(After(events), AllReplies(events))
  {
    if events != [] {
      var before := events[..|events| - 1];
      EveryRunDelivers(before);
      var q, all := After(before), AllReplies(before);
      match events[|events| - 1]
      case Enqueued(reply) => EnqueueDelivers(q, reply, all);
      case Handled(answers) =>
        assert all + [] == all;
        DrainDelivers(q, answers, all);
    }
  }

  lemma EnqueueDelivers(q: Queue, reply: Bytes, all: seq<Bytes>)
    requires Delivered(q, all)
    ensures Delivered(q.(replys := q.replys + [reply]), all + [reply])
  {
    var k := |all| - |q.replys|;
    assert (all + [reply])[k..] == all[k..] + [reply];
    assert (all + [reply])[..k] == all[..k];
  }

  lemma {:induction false} ConcatAppend(a: seq<Bytes>, b: seq<Bytes>)
    ensures Concat(a + b) == Concat(a) + Concat(b)
    decreases |b|
  {
    if b == [] {
      assert a + b == a && Concat(a) + [] == Concat(a);
    } else {
      var front, last := b[..|b| - 1], b[|b| - 1];
      ConcatAppend(a, front);
      assert (a + b)[..|a + b| - 1] == a + front;
      Regroup(Concat(a), Concat(front), last);
    }
  }

  lemma FrontOfConcat(rs: seq<Bytes>, n: nat)
    requires rs != [] && n <= |rs[0]|
    ensures n <= |Concat(rs)| && Concat(rs)[..n] == rs[0][..n]
  {
    ConcatAppend([rs[0]], rs[1..]);
    assert rs == [rs[0]] + rs[1..];
    assert Concat([rs[0]][..0]) == [];
  }

  /** Bytes sent, then the unsent bytes of the queue, are all bytes ever enqueued. */
  lemma NoByteLost(events: seq<Event>)
    ensures var q := After(events);
            && q.written <= |Concat(q.replys)|
            && q.link.sent + Concat(q.replys)[q.written..] == Concat(AllReplies(events))
  {
    var q, all := After(events), AllReplies(events);
    EveryRunDelivers(events);
    var gone, whole := all[..|all| - |q.replys|], Concat(q.replys);
    ConcatAppend(gone, q.replys);
    assert all == gone + q.replys;
    if q.replys != [] {
      FrontOfConcat(q.replys, q.written);
      SentThenUnsent(Concat(gone), whole, q.written);
    }
  }

  lemma SentThenUnsent(gone: Bytes, whole: Bytes, n: nat)
    requires n <= |whole|
    ensures gone + whole[..n] + whole[n..] == gone + whole
  {
    assert whole[..n] + whole[n..] == whole;
    Regroup(gone, whole[..n], whole[n..]);
  }

  // ---- what a willing peer gets ----

  /** The answers of a peer that takes everything it is offered. */
  ghost predicate Willing(q: Queue, answers: seq<Answer>) {
    && |answers| >= |q.replys|
    && forall k | 0 <= k < |q.replys| :: answers[k].Takes? && answers[k].n >= |q.replys[k]|
  }

  function FirstEmpty(rs: seq<Bytes>): (k: nat)
    ensures k <= |rs| && (forall i | 0 <= i < k :: rs[i] != []) && (k < |rs| ==> rs[k] == [])
  {
    if rs == [] || rs[0] == [] then 0 else 1 + FirstEmpty(rs[1..])
  }

  /** A willing peer gets everything up to the first empty reply. Writing that one takes
      nothing, which closes the connection; the replies after it are stuck. */
  lemma {:induction false} WillingPeer(q: Queue, answers: seq<Answer>)
    requires Fits(q) && q.link.open && Willing(q, answers)
    ensures var k := FirstEmpty(q.replys);
            var q' := Drain(q, answers);
            if k == |q.replys| then q'.replys == [] && q'.link.open
            else q'.replys == q.replys[k + 1..] && !q'.link.open
    decreases |q.replys|
  {
    if q.replys != [] {
      var (q', goesOn) := Turn(q, Next(answers));
      if q.replys[0] != [] {
        WillingPeer(q', Later(answers));
      }
    }
  }

  /** So one call of the handler delivers a whole queue and keeps the connection if and
      only if no reply in it is empty. */
  lemma WholeQueueExactlyWhen(q: Queue, answers: seq<Answer>)
    requires Fits(q) && q.link.open && Willing(q, answers)
    ensures Drain(q, answers).replys == [] && Drain(q, answers).link.open <==> [] !in q.replys
  {
    WillingPeer(q, answers);
    var k := FirstEmpty(q.replys);
    assert k < |q.replys| ==> q.replys[k] in q.replys;
  }

  /** A closed connection sends nothing more, however long the run goes on. */
  lemma {:induction false} ClosedForever(events: seq<Event>, more: seq<Event>)
    requires !After(events).link.open
    ensures After(events + more).link == After(events).link
    decreases |more|
  {
    if more == [] {
      assert events + more == events;
    } else {
      ClosedForever(events, more[..|more| - 1]);
      assert (events + more)[..|events + more| - 1] == events + more[..|more| - 1];
    }
  }

  // ---- what the connection went through ----

  /** One write on an open connection: how many bytes it offered and what was answered. */
  datatype Call = Call(offered: nat, answer: Answer)

  /** The write fails or takes nothing. */
  predicate Breaks(c: Call) {
    c.answer == Fails || (c.answer.Takes? && (c.answer.n == 0 || c.offered == 0))
  }

  function Took(c: Call): nat {
    if c.answer.TryAgain? || c.answer.Fails? then 0
    else if c.answer.n < c.offered then c.answer.n
    else c.offered
  }

  function TookAll(calls: seq<Call>): nat {
    if calls == [] then 0 else TookAll(calls[..|calls| - 1]) + Took(calls[|calls| - 1])
  }

  /** The writes one call of the handler makes while the connection is open. */
  function CallsOf(q: Queue, answers: seq<Answer>): seq<Call>
    requires Fits(q)
    decreases |q.replys|
  {
    if q.replys == [] || !q.link.open then []
    else
      var (q', goesOn) := Turn(q, Next(answers));
      [Call(|q.replys[0]| - q.written, Next(answers))] + if goesOn then CallsOf(q', Later(answers)) else []
  }

  function Calls(events: seq<Event>): seq<Call> {
    if events == [] then []
    else
      var before := events[..|events| - 1];
      Calls(before)
      + match events[|events| - 1]
        case Enqueued(_) => []
        case Handled(answers) => CallsOf(After(before), answers)
  }

  ghost predicate NoneBreaks(calls: seq<Call>) {
    forall c <- calls :: !Breaks(c)
  }

  lemma {:induction false} TookAllAppend(a: seq<Call>, b: seq<Call>)
    ensures TookAll(a + b) == TookAll(a) + TookAll(b)
    decreases |b|
  {
    if b == [] {
      assert a + b == a;
    } else {
      TookAllAppend(a, b[..|b| - 1]);
      assert (a + b)[..|a + b| - 1] == a + b[..|b| - 1];
    }
  }

  /** One turn: the connection stays open unless the write breaks it, and sends what is
      taken. */
  lemma TurnCall(q: Queue, answer: Answer)
    requires Fits(q) && q.replys != [] && q.link.open
    ensures var c := Call(|q.replys[0]| - q.written, answer);
            var q' := Turn(q, answer).0;
            && q'.link.open == !Breaks(c)
            && |q'.link.sent| == |q.link.sent| + Took(c)
  {
  }

  lemma ClosedDrain(q: Queue, answers: seq<Answer>)
    requires Fits(q) && !q.link.open
    ensures Drain(q, answers) == q
  {
  }

  lemma {:induction false} DrainCalls(q: Queue, answers: seq<Answer>)
    requires Fits(q)
    ensures Drain(q, answers).link.open <==> q.link.open && NoneBreaks(CallsOf(q, answers))
    ensures |Drain(q, answers).link.sent| == |q.link.sent| + TookAll(CallsOf(q, answers))
    decreases |q.replys|
  {
    if !q.link.open {
      ClosedDrain(q, answers);
    } else if q.replys != [] {
      var (q', goesOn) := Turn(q, Next(answers));
      var c := Call(|q.replys[0]| - q.written, Next(answers));
      TurnCall(q, Next(answers));
      if goesOn {
        DrainCalls(q', Later(answers));
        OneCall(c, CallsOf(q', Later(answers)));
      } else {
        OneCall(c, []);
      }
    }
  }

  lemma OneCall(c: Call, rest: seq<Call>)
    ensures NoneBreaks([c] + rest) <==> !Breaks(c) && NoneBreaks(rest)
    ensures TookAll([c] + rest) == Took(c) + TookAll(rest)
  {
    TookAllAppend([c], rest);
    assert [c][..0] == [];
    assert TookAll([c]) == Took(c);
    assert ([c] + rest)[0] == c;
    assert forall r <- rest :: r in [c] + rest;
  }

  /** In every history the connection is open if and only if no write on it has failed or
      taken nothing, and it has sent exactly as many bytes as its writes were answered. */
  lemma {:induction false} OpenExactlyWhen(events: seq<Event>)
    ensures After(events).link.open <==> NoneBreaks(Calls(events))
    ensures |After(events).link.sent| == TookAll(Calls(events))
  {
    if events != [] {
      var before := events[..|events| - 1];
      var q := After(before);
      OpenExactlyWhen(before);
      match events[|events| - 1]
      case Enqueued(_) => assert Calls(before) + [] == Calls(before);
      case Handled(answers) =>
        TookAllAppend(Calls(before), CallsOf(q, answers));
        DrainCalls(q, answers);
        assert forall c <- Calls(before) :: c in Calls(events);
    }
  }

  // ---- a busy peer ----

  /** A handler call that is asked to try again changes nothing. */
  lemma BusyChangesNothing(q: Queue, answers: seq<Answer>)
    requires Fits(q) && Next(answers) == TryAgain
    ensures Drain(q, answers) == q
  {
  }

  function Busy(n: nat): seq<Event> {
    seq(n, _ => Handled([TryAgain]))
  }

  lemma {:induction false} BusyCalls(events: seq<Event>, n: nat)
    ensures After(events + Busy(n)) == After(events)
    decreases n
  {
    if n == 0 {
      assert events + Busy(0) == events;
    } else {
      BusyCalls(events, n - 1);
      var longer := events + Busy(n);
      assert longer[..|longer| - 1] == events + Busy(n - 1);
      assert longer[|longer| - 1] == Handled([TryAgain]);
      BusyChangesNothing(After(events), [TryAgain]);
    }
  }

  lemma HandledLast(events: seq<Event>, answers: seq<Answer>)
    ensures After(events + [Handled(answers)]) == Drain(After(events), answers)
    ensures AllReplies(events + [Handled(answers)]) == AllReplies(events)
  {
    var all := events + [Handled(answers)];
    assert all[..|all| - 1] == events;
    assert AllReplies(events) + [] == AllReplies(events);
  }

  lemma EmptyQueueSentAll(events: seq<Event>)
    requires After(events).replys == []
    ensures After(events).link.sent == Concat(AllReplies(events))
  {
    NoByteLost(events);
    var q := After(events);
    assert Concat(q.replys)[q.written..] == [];
    assert q.link.sent + [] == q.link.sent;
  }

  /** After any number of calls that are asked to try again, a peer that becomes willing
      still gets the whole queue. */
  lemma BusyThenWilling(events: seq<Event>, n: nat, answers: seq<Answer>)
    requires After(events).link.open && Willing(After(events), answers) && [] !in After(events).replys
    ensures var q := After(events + Busy(n) + [Handled(answers)]);
            q.replys == [] && q.link.open && q.link.sent == Concat(AllReplies(events))
  {
    BusyCalls(events, n);
    RepliesOfBusy(events, n);
    HandledLast(events + Busy(n), answers);
    WholeQueueExactlyWhen(After(events), answers);
    EmptyQueueSentAll(events + Busy(n) + [Handled(answers)]);
  }

  lemma {:induction false} RepliesOfBusy(events: seq<Event>, n: nat)
    ensures AllReplies(events + Busy(n)) == AllReplies(events)
    decreases n
  {
    if n == 0 {
      assert events + Busy(0) == events;
    } else {
      RepliesOfBusy(events, n - 1);
      var longer := events + Busy(n);
      assert longer[..|longer| - 1] == events + Busy(n - 1);
      assert AllReplies(events) + [] == AllReplies(events);
    }
  }
}
