/** A record that arrives while the transport does other things: PDUs are queued and written and timeout
    scans pass between the reads, and still the record has the effect of its payload. */
module Interleaving {
  import opened Bytes
  import opened Iovec
  import opened Transport
  import opened QueueInvariants
  import opened Runs
  import opened RecordReader
  import opened Service
  import opened Timeouts

  /** The callbacks that a reply or an error caused. */
  function Replies(log: seq<Completion>): (r: seq<Completion>)
  {
    if log == [] then []
    else
      var c := log[|log| - 1];
      Replies(log[..|log| - 1]) + if c.status.TIMEOUT? then [] else [c]
  }

  lemma {:induction false} RepliesAppend(a: seq<Completion>, b: seq<Completion>)
    ensures Replies(a + b) == Replies(a) + Replies(b)
    decreases |b|
  {
    if b == [] {
      assert a + b == a;
    } else {
      assert (a + b)[..|a + b| - 1] == a + b[..|b| - 1];
      RepliesAppend(a, b[..|b| - 1]);
    }
  }

  lemma {:induction false} NoReplies(log: seq<Completion>)
    requires forall c :: c in log ==> c.status.TIMEOUT?
    ensures Replies(log) == []
  {
    if log != [] {
      assert log[|log| - 1] in log;
      NoReplies(log[..|log| - 1]);
    }
  }

  /** What the reader and the user see is the same; queues, clock and timeouts may differ. */
  ghost predicate Like(s: State, t: State)
  {
    s.rd == t.rd && s.mem == t.mem && s.cfg == t.cfg && Replies(s.log) == Replies(t.log)
  }

  // ---------------------------------------------------------------- reads

  lemma ReportLike(s: State, t: State, p: Pdu, status: Status, reply: seq<byte>, buffer: Option<seq<byte>>)
    requires Like(s, t)
    ensures Like(Report(s, p, status, reply, buffer), Report(t, p, status, reply, buffer))
  {
    var c := Completion(p.id, p.xid, status, reply, buffer);
    RepliesAppend(s.log, [c]);
    RepliesAppend(t.log, [c]);
  }

  lemma FinishPduLike(s: State, t: State, p: Pdu, got: seq<byte>)
    requires Like(s, t)
    ensures Like(FinishPdu(s, p, got), FinishPdu(t, p, got))
  {
    hide Replies, Gather;
    ReportLike(s, t, p, SUCCESS, got, Some(Gather(s.mem, Take(p.inp.addrs, |got|))));
  }

  lemma StartDataLike(s: State, t: State, p: Pdu, at: nat)
    requires Like(s, t)
    ensures Like(StartData(s, p, at), StartData(t, p, at))
  {
    hide Replies, Scatter, Word, FinishPdu;
    var b := s.rd.buf;
    if at + 4 <= |b| {
      var count := Min(Word(b, at), |p.inp.addrs|);
      var n := Min(Min(|b| - (at + 4), count), |p.inp.todo|);
      var data, todo := b[at + 4..at + 4 + n], Take(p.inp.todo, count);
      var mem := Scatter(s.mem, Take(todo, n), data);
      FinishPduLike(s.(mem := mem), t.(mem := mem), WithTodo(p, []), data);
    }
  }

  lemma FinishPayloadLike(s: State, t: State, p: Pdu, now: nat, later: nat)
    requires Like(s, t)
    ensures Like(FinishPayload(s, p, now), FinishPayload(t, p, later))
  {
    hide Replies, StartData, FinishPdu, ReplyHeader, ReadResult, Decodes, RefusedButDone, Report;
    var b := s.rd.buf;
    var h := ReplyHeader(b);
    assert h.Undecodable? || h.Astray? || h.Refused? || h.Accepted?;
    ReportLike(s, t, p, ERROR, b, None);
    if h.Astray? {
    } else if !p.inp.zeroCopy {
      OrdinaryLike(s, t, p, now, later);
    } else if h.Refused? {
      RefusedLike(s, t, p);
      StartDataLike(ReportRefused(s, p), ReportRefused(t, p), p, h.pos);
    } else if h.Undecodable? || ReadResult(b, h.pos).BadResult? {
      CrashLike(s, t, p);
    } else if ReadResult(b, h.pos).FailedRead? {
      FinishPduLike(s.(lastOk := now), t.(lastOk := later), Owed(p), []);
    } else {
      StartDataLike(s.(lastOk := now), t.(lastOk := later), Owed(p), ReadResult(b, h.pos).pos);
    }
  }

  lemma OrdinaryLike(s: State, t: State, p: Pdu, now: nat, later: nat)
    requires Like(s, t) && !p.inp.zeroCopy && !ReplyHeader(s.rd.buf).Astray?
    ensures Like(FinishPayload(s, p, now), FinishPayload(t, p, later))
  {
    hide Replies, ReplyHeader, Decodes;
    ReportLike(s, t, p, if Decodes(s.cfg, p, s.rd.buf) then SUCCESS else ERROR, s.rd.buf, None);
  }

  lemma RefusedLike(s: State, t: State, p: Pdu)
    requires Like(s, t)
    ensures Like(ReportRefused(s, p), ReportRefused(t, p))
  {
    hide Replies, RefusedButDone;
    ReportLike(s, t, p, ERROR, s.rd.buf, None);
  }

  lemma CrashLike(s: State, t: State, p: Pdu)
    requires Like(s, t)
    ensures Like(Crash(s, p), Crash(t, p))
  {
    hide Replies;
    ReportLike(s, t, p, ERROR, s.rd.buf, None);
  }

  /** Outside the record marker a read depends on nothing else. */
  lemma RecvLike(s: State, t: State, c: seq<byte>, now: nat, later: nat)
    requires Like(s, t) && !s.rd.phase.Marker? && 1 <= |c| <= s.rd.need
    ensures Like(Recv(s, c, now), Recv(t, c, later))
  {
    hide Replies, FinishPayload, FinishPdu, Scatter, FinishMarker;
    var a, b := Absorb(s, c), Absorb(t, c);
    assert Like(a, b) && a.rd.phase == s.rd.phase;
    if a.rd.need == 0 && a.rd.pdu.Some? {
      var p := a.rd.pdu.value;
      match a.rd.phase
      case Payload => FinishPayloadLike(a, b, p, now, later);
      case Iovecs => FinishPduLike(a, b, p, a.rd.got);
      case Padding => FinishPduLike(a, b, p, a.rd.got);
      case _ =>
    }
  }

  // ---------------------------------------------------------------- other events

  /** Reads, writes, new PDUs, and scans that ask for no reconnect. */
  ghost predicate Calm(s: State, e: Event)
  {
    e.Queued? || e.Wrote? || e.Read? || (e.Tick? && (TooSoon(s, e.t) || !NeedReconnect(s, e.t)))
  }

  ghost predicate CalmRun(s: State, es: seq<Event>)
    requires IsRun(s, es)
    decreases |es|
  {
    es == [] || (CalmRun(s, es[..|es| - 1]) && Calm(Run(s, es[..|es| - 1]), es[|es| - 1]))
  }

  /** The bytes the events of a run brought. */
  function Received(es: seq<Event>): (r: seq<byte>)
  {
    if es == [] then []
    else Received(es[..|es| - 1]) + if es[|es| - 1].Read? then es[|es| - 1].c else []
  }

  /** Anything but a read leaves the reader alone. */
  lemma OtherLike(s: State, t: State, e: Event)
    requires Like(s, t) && Enabled(s, e) && Calm(s, e) && !e.Read?
    ensures Like(Step(s, e), t)
  {
    if e.Tick? && !TooSoon(s, e.t) {
      SweptLike(s, e.t);
    }
  }

  lemma SweptLike(s: State, t: nat)
    ensures Swept(s, t).rd == s.rd && Swept(s, t).mem == s.mem && Swept(s, t).cfg == s.cfg
    ensures Replies(Swept(s, t).log) == Replies(s.log)
  {
    hide Replies, ScanQueued, ScanTable;
    var log := Swept(s, t).log;
    var more := log[|s.log|..];
    forall c | c in more ensures c.status.TIMEOUT? {
      ScanCallbacks(s, t, c);
    }
    ScanCallbacks(s, t, TimedOut(Pdu(0, 0, Outgoing([], 0), Incoming(false, [], [], false), Timer(false, 0, 0, 0, 0))));
    assert log == s.log + more;
    RepliesAppend(s.log, more);
    NoReplies(more);
  }

  // ---------------------------------------------------------------- the bytes of one record

  /** Reading `w` from `t` never fails and never comes to a record marker before its end. */
  ghost predicate Safe(t: State, w: seq<byte>)
    decreases |w|
  {
    && !t.rd.phase.Failed?
    && (w == [] || (!t.rd.phase.Marker? && 0 < t.rd.need <= |w|
                    && Safe(Recv(t, w[..t.rd.need], 0), w[t.rd.need..])))
  }

  lemma SafePart(t: State, w: seq<byte>, k: nat)
    requires Safe(t, w) && 1 <= k <= t.rd.need && k <= |w|
    ensures !t.rd.phase.Marker? && Safe(Recv(t, w[..k], 0), w[k..])
  {
    hide Recv;
    var need := t.rd.need;
    if k < need {
      var a, c := w[..k], w[k..][..need - k];
      RecvAppend(t, a, c, 0);
      assert a + c == w[..need] && w[k..][need - k..] == w[need..];
      PartRead(t, a);
    }
  }

  lemma PartRead(t: State, a: seq<byte>)
    requires |a| < t.rd.need
    ensures Recv(t, a, 0).rd.phase == t.rd.phase
  {
  }

  /** Interleaved with other events, part of a record is read as it would be alone. */
  lemma {:induction false} ReadInterleaved(s: State, t: State, es: seq<Event>, w: seq<byte>)
    requires Like(s, t) && Safe(t, w) && IsRun(s, es) && CalmRun(s, es) && Received(es) <= w
    ensures Like(Run(s, es), Feed(t, Received(es), 0))
    ensures Safe(Feed(t, Received(es), 0), w[|Received(es)|..])
    decreases |es|
  {
    hide Like, Safe, Step, Enabled, Calm, Feed, Recv;
    if es == [] {
      FeedNothing(t, 0);
      assert w[0..] == w;
    } else {
      var init, e := es[..|es| - 1], es[|es| - 1];
      ReadInterleaved(s, t, init, w);
      var sofar := Received(init);
      var s1, t1 := Run(s, init), Feed(t, sofar, 0);
      if e.Read? {
        assert w[|sofar|..][..|e.c|] == e.c && w[|sofar|..][|e.c|..] == w[|sofar + e.c|..];
        ReadOne(s1, t1, e, w[|sofar|..]);
        FeedMore(t, sofar, e.c, 0);
      } else {
        OtherLike(s1, t1, e);
        assert sofar + [] == sofar;
      }
    }
  }

  lemma ReadOne(s: State, t: State, e: Event, w: seq<byte>)
    requires Like(s, t) && Safe(t, w) && e.Read? && Enabled(s, e) && e.c <= w
    ensures 1 <= |e.c| <= t.rd.need
    ensures Like(Step(s, e), Recv(t, e.c, 0)) && Safe(Recv(t, e.c, 0), w[|e.c|..])
  {
    hide Recv, Reconnect;
    SafePart(t, w, |e.c|);
    assert w[..|e.c|] == e.c;
    RecvLike(s, t, e.c, e.now, 0);
  }

  lemma WholeRead(t: State, c: seq<byte>)
    requires |c| == t.rd.need
    ensures Recv(t, c, 0) == Finish(Absorb(t, c), 0)
  {
  }

  /** A last read that ends at a record boundary. */
  lemma SafeLast(t: State, w: seq<byte>)
    requires !t.rd.phase.Failed? && !t.rd.phase.Marker? && 0 < t.rd.need == |w|
    requires !Finish(Absorb(t, w), 0).rd.phase.Failed?
    ensures Safe(t, w)
  {
    hide Absorb, Finish;
    WholeRead(t, w);
    assert w[..|w|] == w && w[|w|..] == [];
  }

  /** A read that is not the last. */
  lemma SafeNext(t: State, a: seq<byte>, w: seq<byte>)
    requires !t.rd.phase.Failed? && !t.rd.phase.Marker? && 0 < t.rd.need == |a|
    requires Safe(Finish(Absorb(t, a), 0), w)
    ensures Safe(t, a + w)
  {
    hide Absorb, Finish;
    WholeRead(t, a);
    assert (a + w)[..|a|] == a && (a + w)[|a|..] == w;
    assert a + w != [];
  }

  /** The data of a READ reply behind its preamble. */
  lemma SafeData(s: State, p: Pdu, payload: seq<byte>, at: nat, n: nat)
    requires HasData(p, payload, at) && p.inp.freePdu && |payload| <= MAX_FRAGMENT_SIZE
    requires n == Min(|Preamble(payload)| - (at + 4), |ReadData(payload, at)|)
    ensures Safe(AfterPreamble(s, p, payload, at, n), payload[|Preamble(payload)|..])
  {
    hide Scatter, Absorb, Finish, Word, Gather, Safe;
    var data, tail := ReadData(payload, at), payload[|Preamble(payload)|..];
    PreambleTail(payload, at, n);
    if n == |data| {
      SafeEnd(Delivered(s, p, data));
    } else {
      var pad := tail[|data| - n..];
      ReadvStep(s, p, data, n, |tail|, 0);
      assert tail == data[n..] + pad;
      if pad == [] {
        SafeEnd(Delivered(s, p, data));
      } else {
        PaddingStep(s, p, data, pad, 0);
        SafeLast(InPadding(s, p, data, |pad|), pad);
      }
      SafeNext(InData(s, p, data, n, |tail|), data[n..], pad);
    }
  }

  lemma SafeEnd(t: State)
    requires !t.rd.phase.Failed?
    ensures Safe(t, [])
  {
  }

  /** A well-formed record from its ninth byte on. */
  lemma SafeRecord(s: State, payload: seq<byte>)
    requires s.rd == BOUNDARY && WellFormed(s, payload)
    ensures Safe(AfterMarker(s, payload), payload[4..])
  {
    hide Find, Word, Absorb, Finish, Safe, FinishPayload, IsReadError, IsReadReply, ReplyHeader;
    var found := Find(s.q, Word(payload, 0)).1;
    if found.None? {
      UnknownStep(s, payload, 0);
      SafeLast(AfterMarker(s, payload), payload[4..]);
    } else {
      var p := found.value;
      var span := PayloadSpan(p, |payload|);
      var g := AfterMarker(s, payload).(rd := InPayload(p, payload[..span], |payload|));
      PayloadStep(s, payload, 0);
      SafePayload(g, p, payload);
      SafeNext(AfterMarker(s, payload), payload[4..span], payload[span..]);
      assert payload[4..] == payload[4..span] + payload[span..];
    }
  }

  lemma SafePayload(g: State, p: Pdu, payload: seq<byte>)
    requires Answers(Some(p), payload)
    requires var span := PayloadSpan(p, |payload|); g.rd == InPayload(p, payload[..span], |payload|)
    ensures Safe(FinishPayload(g, p, 0), payload[PayloadSpan(p, |payload|)..])
  {
    hide Word, ReplyHeader, ReadResult, Safe, StartData, Decodes, Gather, Scatter, RefusedButDone;
    assert payload[..PayloadSpan(p, |payload|)] == if p.inp.zeroCopy then Preamble(payload) else payload;
    if !p.inp.zeroCopy {
      assert payload[|payload|..] == [];
      SafeEnd(FinishPayload(g, p, 0));
    } else if IsReadError(payload) {
      SafeReadError(g, p, payload);
    } else {
      SafeRead(g, p, payload, DataAt(payload).value);
    }
  }

  lemma SafeReadError(g: State, p: Pdu, payload: seq<byte>)
    requires IsReadError(payload) && p.inp.zeroCopy && g.rd.buf == Preamble(payload)
    ensures Safe(FinishPayload(g, p, 0), payload[|Preamble(payload)|..])
  {
    hide Safe, ReplyHeader, ReadResult, Gather;
    assert Preamble(payload) == payload && payload[|payload|..] == [];
    SafeEnd(FinishPayload(g, p, 0));
  }

  lemma SafeRead(g: State, p: Pdu, payload: seq<byte>, at: nat)
    requires DataAt(payload) == Some(at) && HasData(p, payload, at) && p.inp.todo == p.inp.addrs
    requires p.inp.zeroCopy && |payload| <= MAX_FRAGMENT_SIZE
    requires g.rd.buf == Preamble(payload) && g.rd.left == |payload|
    ensures Safe(FinishPayload(g, p, 0), payload[|Preamble(payload)|..])
  {
    hide Safe, StartData, FinishPayload, Word, ReplyHeader, ReadResult;
    var n := Min(|Preamble(payload)| - (at + 4), |ReadData(payload, at)|);
    FinishRead(g, p, payload, at, 0);
    StartDataIs(g.(lastOk := 0), Owed(p), at, payload, n);
    SafeData(g.(lastOk := 0), Owed(p), payload, at, n);
  }

  // ---------------------------------------------------------------- the theorems

  /** The reader after the first `i` bytes of a record. */
  function MarkerSoFar(payload: seq<byte>, i: nat): (rd: Reader)
    requires i < 8 <= |payload| <= MAX_FRAGMENT_SIZE
  {
    Reader(Marker, RecordOf(payload)[..i], 8 - i, 8, 0, [], None)
  }

  /** In state `m` part of the marker of a record has been read. The events `es` begin with the read that
      completes the marker, and their reads bring the rest of the record. */
  ghost predicate Brings(m: State, payload: seq<byte>, i: nat, es: seq<Event>)
  {
    && i < 8 <= |payload| <= MAX_FRAGMENT_SIZE && m.rd == MarkerSoFar(payload, i)
    && IsRun(m, es) && CalmRun(m, es) && es != []
    && es[0].Read? && es[0].c == RecordOf(payload)[i..8] && Received(es) == RecordOf(payload)[i..]
  }

  /** The read that completes the marker finds the PDU. */
  lemma MarkerDone(m: State, payload: seq<byte>, i: nat, now: nat)
    requires i < 8 <= |payload| <= MAX_FRAGMENT_SIZE && m.rd == MarkerSoFar(payload, i)
    requires WellFormed(m.(rd := BOUNDARY), payload)
    ensures |RecordOf(payload)[i..8]| == m.rd.need
    ensures Recv(m, RecordOf(payload)[i..8], now) == AfterMarker(m.(rd := BOUNDARY), payload)
  {
    hide Find, Finish, Word, ReplyHeader, IsReadError, IsReadReply;
    var s := m.(rd := BOUNDARY);
    var a, c := RecordOf(payload)[..i], RecordOf(payload)[i..8];
    MarkerStep(s, payload, now);
    assert BOUNDARY.buf + Prefix8(payload) == Prefix8(payload) == a + c;
    assert Absorb(m, c) == Absorb(s, Prefix8(payload));
  }

  lemma {:induction false} ReceivedFrom(e: Event, es: seq<Event>)
    ensures Received([e] + es) == (if e.Read? then e.c else []) + Received(es)
    decreases |es|
  {
    if es == [] {
      assert [e] + es == [e] && [e][..0] == [];
    } else {
      assert ([e] + es)[..|es|] == [e] + es[..|es| - 1];
      ReceivedFrom(e, es[..|es| - 1]);
    }
  }

  /** A calm run without its first event. */
  lemma {:induction false} CalmFrom(s: State, es: seq<Event>)
    requires IsRun(s, es) && CalmRun(s, es) && es != []
    ensures Enabled(s, es[0]) && Calm(s, es[0])
    ensures IsRun(Step(s, es[0]), es[1..]) && CalmRun(Step(s, es[0]), es[1..])
    ensures Run(Step(s, es[0]), es[1..]) == Run(s, es)
    decreases |es|
  {
    hide Step, Enabled, Calm;
    var init := es[..|es| - 1];
    if init == [] {
      assert es[1..] == [];
    } else {
      CalmFrom(s, init);
      assert init[0] == es[0] && es[1..][..|es| - 2] == init[1..];
    }
  }

  /** Split independence in company: a well-formed record that arrives piece by piece, with new PDUs,
      writes and scans in between, has the effect of its payload delivered at once in the state in which
      its marker was completed - the same reader, the same user memory, the same callbacks but timeouts. */
  lemma InterleavedDelivery(m: State, payload: seq<byte>, i: nat, es: seq<Event>)
    requires Brings(m, payload, i, es) && WellFormed(m.(rd := BOUNDARY), payload)
    ensures Like(Run(m, es), Deliver(m.(rd := BOUNDARY), payload, 0))
  {
    hide WellFormed, Deliver, Like, CalmRun, Enabled, Calm, Recv, Reconnect, Safe, RecordOf, AfterMarker, Feed;
    var s := m.(rd := BOUNDARY);
    var rec := RecordOf(payload);
    var t := AfterMarker(s, payload);
    RecordSize(payload);
    CalmFrom(m, es);
    MarkerDone(m, payload, i, es[0].now);
    MarkerPassed(s, payload);
    LikeItself(t);
    ReceivedFrom(es[0], es[1..]);
    assert es == [es[0]] + es[1..];
    Cancel(rec[i..8], Received(es[1..]), rec[8..]) by { assert rec[i..] == rec[i..8] + rec[8..]; }
    SafeRecord(s, payload);
    assert Step(m, es[0]) == t;
    ReadInterleaved(t, t, es[1..], rec[8..]);
    WholeRecord(s, payload);
  }

  lemma Cancel(a: seq<byte>, b: seq<byte>, c: seq<byte>)
    requires a + b == a + c
    ensures b == c
  {
    assert b == (a + b)[|a|..] && c == (a + c)[|a|..];
  }

  lemma RecordSize(payload: seq<byte>)
    requires 8 <= |payload| <= MAX_FRAGMENT_SIZE
    ensures |RecordOf(payload)| == |payload| + 4 && RecordOf(payload)[8..] == payload[4..]
  {
  }

  lemma LikeItself(t: State)
    ensures Like(t, t)
  {
  }

  lemma MarkerPassed(s: State, payload: seq<byte>)
    requires |payload| >= 8
    ensures !AfterMarker(s, payload).rd.phase.Failed?
  {
  }

  /** From the ninth byte on, the record has the effect of its payload. */
  lemma WholeRecord(s: State, payload: seq<byte>)
    requires s.rd == BOUNDARY && WellFormed(s, payload)
    ensures Feed(AfterMarker(s, payload), payload[4..], 0) == Deliver(s, payload, 0)
  {
    hide Find, Word, Deliver, Feed, Finish, ReplyHeader, IsReadError, IsReadReply;
    RecordDelivery(s, payload, [], 0);
    FeedNothing(Deliver(s, payload, 0), 0);
    MarkerStep(s, payload, 0);
    FeedPiece(s, Prefix8(payload), payload[4..], 0, AfterMarker(s, payload));
    assert RecordOf(payload) + [] == Prefix8(payload) + payload[4..];
  }

  /** Zero-copy READ, end to end and in company: in every run, a READ reply whose marker completes in
      state `m` and whose other bytes are read with new PDUs, writes and scans in between, makes one
      callback besides timeouts, of the PDU with the reply's xid, that finds the reply's data in the
      user's buffers; no other byte of memory changes. */
  lemma InterleavedReadReply(s: State, before: seq<Event>, payload: seq<byte>, i: nat, es: seq<Event>)
    requires Initial(s) && IsRun(s, before) && ReadAnswer(Run(s, before).q, payload)
    requires Brings(Run(s, before), payload, i, es)
    ensures var m, f := Run(s, before), Run(Run(s, before), es);
            var p := Find(m.q, Word(payload, 0)).1.value;
            var data := DataOf(p, payload);
            && p.xid == Word(payload, 0) && f.rd == BOUNDARY
            && Replies(f.log) == Replies(m.log) + [Completion(p.id, p.xid, SUCCESS, data, Some(data))]
            && |f.mem| == |m.mem| && Gather(f.mem, p.inp.addrs[..|data|]) == data
            && forall k :: 0 <= k < |m.mem| && k !in p.inp.addrs[..|data|] ==> f.mem[k] == m.mem[k]
  {
    hide QueuesOk, Find, Word, DataOf, Deliver, WellFormed, RecordOf, CalmRun, Gather, Replies;
    var m := Run(s, before);
    InitialInv(s);
    RunInv(s, before, s.nextId);
    var b := m.(rd := BOUNDARY);
    ReadAnswerWellFormed(b, payload);
    InterleavedDelivery(m, payload, i, es);
    DeliverAnswers(b, payload, 0);
    OneReply(m.log, Run(m, es).log, Deliver(b, payload, 0).log);
  }

  lemma OneReply(a: seq<Completion>, f: seq<Completion>, d: seq<Completion>)
    requires |d| > 0 && d[..|d| - 1] == a && !d[|d| - 1].status.TIMEOUT? && Replies(f) == Replies(d)
    ensures Replies(f) == Replies(a) + [d[|d| - 1]]
  {
  }
}
