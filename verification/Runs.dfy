/** Safety over whole runs of the transport, for every interleaving of calls, short writes, short
    reads, timer ticks, connection failures and replies - including replies no server should send. */
module Runs {
  import opened Bytes
  import opened Iovec
  import opened Transport
  import opened Conservation
  import opened QueueInvariants
  import opened Timeouts

  // ---------------------------------------------------------------- the reader

  /** The first bytes of the user's buffers hold the data received so far. */
  ghost predicate Stored(mem: seq<byte>, p: Pdu, got: seq<byte>)
  {
    |got| <= |p.inp.addrs| && Gather(mem, p.inp.addrs[..|got|]) == got
  }

  ghost predicate Filling(cfg: Config, mem: seq<byte>, rd: Reader, p: Pdu)
  {
    && Sound(cfg, |mem|, p) && p.inp.zeroCopy && Stored(mem, p, rd.got)
    && |rd.got| + rd.need <= |p.inp.addrs|
    && p.inp.todo == p.inp.addrs[|rd.got|..|rd.got| + rd.need]
  }

  ghost predicate ReaderOk(cfg: Config, mem: seq<byte>, rd: Reader)
  {
    match (rd.phase, rd.pdu)
    case (Marker, None) => rd.need > 0 && |rd.buf| + rd.need == 8
    case (Payload, Some(p)) => rd.need > 0 && Ready(cfg, |mem|, p) && Carries(rd.buf, p.xid)
    case (Unknown, None) => rd.need > 0
    case (Iovecs, Some(p)) => rd.need > 0 && Filling(cfg, mem, rd, p)
    case (Padding, Some(p)) => rd.need > 0 && Sound(cfg, |mem|, p) && p.inp.zeroCopy && Stored(mem, p, rd.got)
    case (Failed, _) => rd.need == 0 && (rd.pdu.Some? ==> Sound(cfg, |mem|, rd.pdu.value))
    case (Crashed, _) => rd.need == 0 && (rd.pdu.Some? ==> Sound(cfg, |mem|, rd.pdu.value))
    case _ => false
  }

  /** A callback of a zero-copy READ found the data received for it in the user's buffers; a callback
      with a reply got one whose xid is that of its PDU. */
  ghost predicate CallbackOk(c: Completion)
  {
    if c.buffer.Some? then c.buffer.value == c.reply else c.reply != [] ==> Carries(c.reply, c.xid)
  }

  predicate Carries(b: seq<byte>, xid: uint32)
  {
    |b| >= 4 && Word(b, 0) == xid
  }

  ghost predicate LogOk(log: seq<Completion>)
  {
    forall i :: 0 <= i < |log| ==> CallbackOk(log[i])
  }

  /** Everything the reader's transitions rely on and keep. */
  ghost predicate Sane(s: State)
  {
    QueuesOk(s.cfg, |s.mem|, s.q) && LogOk(s.log)
  }

  lemma GatherPrefix(mem: seq<byte>, p: Pdu, cfg: Config, data: seq<byte>)
    requires Sound(cfg, |mem|, p) && p.inp.zeroCopy && |data| <= |p.inp.addrs|
    ensures Stored(Scatter(mem, p.inp.addrs[..|data|], data), p, data)
  {
    PrefixGood(p.inp.addrs, |mem|, |data|);
    GatherScatter(mem, p.inp.addrs[..|data|], data);
  }

  lemma PrefixGood(a: seq<nat>, n: nat, k: nat)
    requires k <= |a| && NoDuplicates(a) && forall i :: 0 <= i < |a| ==> a[i] < n
    ensures NoDuplicates(a[..k]) && forall i :: 0 <= i < k ==> a[..k][i] < n
  {
  }

  /** More data goes behind the data that is already there. */
  lemma StoreMore(mem: seq<byte>, p: Pdu, cfg: Config, got: seq<byte>, c: seq<byte>)
    requires Sound(cfg, |mem|, p) && p.inp.zeroCopy && Stored(mem, p, got) && |got| + |c| <= |p.inp.addrs|
    ensures Stored(Scatter(mem, p.inp.addrs[|got|..|got| + |c|], c), p, got + c)
  {
    hide Scatter, Gather, Sound, InMemory;
    GoodAddresses(cfg, mem, p);
    var a, k := p.inp.addrs, |got|;
    var at := a[k..k + |c|];
    var m := Scatter(mem, at, c);
    SliceGood(a, |mem|, k, k + |c|);
    assert InMemory(mem, at) by { SliceInMemory(mem, at); }
    GatherScatter(mem, at, c);
    GatherFrame(mem, at, c, a[..k]);
    GatherAppend(m, a[..k], at);
    assert a[..k] + at == a[..k + |c|];
  }

  lemma GoodAddresses(cfg: Config, mem: seq<byte>, p: Pdu)
    requires Sound(cfg, |mem|, p) && p.inp.zeroCopy
    ensures NoDuplicates(p.inp.addrs) && forall i :: 0 <= i < |p.inp.addrs| ==> p.inp.addrs[i] < |mem|
  {
  }

  lemma SliceInMemory(mem: seq<byte>, at: seq<nat>)
    requires forall i :: 0 <= i < |at| ==> at[i] < |mem|
    ensures InMemory(mem, at)
  {
  }

  lemma SliceGood(a: seq<nat>, n: nat, i: nat, j: nat)
    requires i <= j <= |a| && NoDuplicates(a) && forall k :: 0 <= k < |a| ==> a[k] < n
    ensures NoDuplicates(a[i..j]) && forall k :: 0 <= k < j - i ==> a[i..j][k] < n
    ensures forall k :: 0 <= k < i ==> a[..i][k] !in a[i..j]
  {
    forall k, m | 0 <= k < i && 0 <= m < j - i ensures a[..i][k] != a[i..j][m] {
      assert a[..i][k] == a[k] && a[i..j][m] == a[i + m];
    }
  }

  lemma FinishPduOk(s: State, p: Pdu, got: seq<byte>)
    requires Sane(s) && (p.inp.freePdu ==> Stored(s.mem, p, got))
    ensures Sane(FinishPdu(s, p, got)) && ReaderOk(s.cfg, s.mem, FinishPdu(s, p, got).rd)
  {
    if p.inp.freePdu {
      assert Take(p.inp.addrs, |got|) == p.inp.addrs[..|got|];
    }
  }

  lemma FinishMarkerOk(s: State)
    requires Sane(s) && s.rd.phase.Marker? && s.rd.pdu.None? && |s.rd.buf| == 8
    ensures Sane(FinishMarker(s)) && ReaderOk(s.cfg, s.mem, FinishMarker(s).rd)
  {
    hide Word, Find, StartRecord, QueuesOk, LogOk;
    var xid := Word(s.rd.buf, 4);
    FindOk(s.cfg, |s.mem|, s.q, xid);
    FoundCarries(s.q, s.rd.buf);
    var size := Word(s.rd.buf, 0) - 0x8000_0000;
    if 8 <= size <= MAX_FRAGMENT_SIZE {
      StartRecordOk(s.(q := Find(s.q, xid).0), Find(s.q, xid).1, Drop(s.rd.buf, 4), size);
    }
  }

  lemma FoundCarries(q: Queues, b: seq<byte>)
    requires |b| == 8
    ensures var found := Find(q, Word(b, 4)).1; found.Some? ==> Carries(Drop(b, 4), found.value.xid)
  {
  }

  lemma StartRecordOk(s: State, found: Option<Pdu>, xid: seq<byte>, size: nat)
    requires Sane(s) && s.rd.pdu.None? && |xid| == 4 && size >= 8
    requires found.Some? ==> Ready(s.cfg, |s.mem|, found.value) && Carries(xid, found.value.xid)
    ensures var r := StartRecord(s, found, xid, size); Sane(r) && ReaderOk(s.cfg, s.mem, r.rd)
  {
    if found.Some? {
      AfterHeadOk(s.cfg, |s.mem|, s.q, found.value);
    }
  }

  lemma CopyDataOk(s: State, p: Pdu, data: seq<byte>, count: nat, left: uint32)
    requires Sane(s) && Ready(s.cfg, |s.mem|, p) && p.inp.zeroCopy && |data| <= count <= |p.inp.addrs|
    ensures var r := CopyData(s, p, data, count, left); Sane(r) && ReaderOk(r.cfg, r.mem, r.rd)
  {
    var a, n := p.inp.addrs, |data|;
    assert Take(Take(a, count), n) == a[..n] && Drop(Take(a, count), n) == a[n..count];
    GatherPrefix(s.mem, p, s.cfg, data);
    var s1 := s.(mem := Scatter(s.mem, a[..n], data));
    if n == count {
      FinishPduOk(s1, WithTodo(p, []), data);
    }
  }

  lemma StartDataOk(s: State, p: Pdu, at: nat)
    requires Sane(s) && Ready(s.cfg, |s.mem|, p) && p.inp.zeroCopy
    ensures var r := StartData(s, p, at); Sane(r) && ReaderOk(r.cfg, r.mem, r.rd)
  {
    hide Word, CopyData, QueuesOk, LogOk;
    var b := s.rd.buf;
    if at + 4 <= |b| {
      var count := Min(Word(b, at), |p.inp.addrs|);
      var n := Min(|b| - (at + 4), count);
      CopyDataOk(s, p, b[at + 4..at + 4 + n], count, Wrap32(s.rd.left - (at + 4 + n)));
    }
  }

  lemma FinishPayloadOk(s: State, p: Pdu, now: nat)
    requires Sane(s) && Ready(s.cfg, |s.mem|, p) && s.rd.pdu == Some(p) && Carries(s.rd.buf, p.xid)
    ensures var r := FinishPayload(s, p, now); Sane(r) && ReaderOk(r.cfg, r.mem, r.rd)
  {
    var b := s.rd.buf;
    var h := ReplyHeader(b);
    if p.inp.zeroCopy {
      if h.Refused? {
        StartDataOk(ReportRefused(s, p), p, h.pos);
      } else if h.Accepted? && ReadResult(b, h.pos).FailedRead? {
        FinishPduOk(s.(lastOk := now), Owed(p), []);
      } else if h.Accepted? && ReadResult(b, h.pos).ReadOk? {
        StartDataOk(s.(lastOk := now), Owed(p), ReadResult(b, h.pos).pos);
      }
    }
  }

  /** The reader between a `recv` and the check for completion. */
  ghost predicate Partial(cfg: Config, mem: seq<byte>, rd: Reader)
  {
    match (rd.phase, rd.pdu)
    case (Marker, None) => |rd.buf| + rd.need == 8
    case (Payload, Some(p)) => Ready(cfg, |mem|, p) && Carries(rd.buf, p.xid)
    case (Unknown, None) => true
    case (Iovecs, Some(p)) => Filling(cfg, mem, rd, p)
    case (Padding, Some(p)) => Sound(cfg, |mem|, p) && p.inp.zeroCopy && Stored(mem, p, rd.got)
    case _ => false
  }

  lemma AbsorbOk(s: State, c: seq<byte>)
    requires Sane(s) && ReaderOk(s.cfg, s.mem, s.rd) && 1 <= |c| <= s.rd.need
    ensures var r := Absorb(s, c); Sane(r) && Partial(r.cfg, r.mem, r.rd) && r.q == s.q && r.log == s.log
  {
    if s.rd.phase.Iovecs? {
      FillingMore(s, s.rd.pdu.value, c);
    } else {
      BufferedOk(s, c);
    }
  }

  lemma BufferedOk(s: State, c: seq<byte>)
    requires ReaderOk(s.cfg, s.mem, s.rd) && !s.rd.phase.Iovecs? && 1 <= |c| <= s.rd.need
    ensures Partial(s.cfg, s.mem, Buffered(s.rd, c))
  {
    hide Sound, Stored;
    if s.rd.phase.Payload? {
      CarriesMore(s.rd.buf, c, s.rd.pdu.value.xid);
    }
  }

  lemma CarriesMore(b: seq<byte>, c: seq<byte>, xid: uint32)
    requires Carries(b, xid)
    ensures Carries(b + c, xid)
  {
  }

  lemma FillingMore(s: State, p: Pdu, c: seq<byte>)
    requires s.rd.pdu == Some(p) && Filling(s.cfg, s.mem, s.rd, p) && 1 <= |c| <= s.rd.need
    ensures var r := Scattered(s, p, c); Filling(r.cfg, r.mem, r.rd, r.rd.pdu.value) && |r.mem| == |s.mem|
  {
    hide Stored, Scatter, Paced, Flatten;
    var k := |s.rd.got|;
    StoredFits(s.mem, p, s.rd.got);
    assert Take(p.inp.todo, |c|) == p.inp.addrs[k..k + |c|];
    assert Drop(p.inp.todo, |c|) == p.inp.addrs[k + |c|..k + s.rd.need];
    StoreMore(s.mem, p, s.cfg, s.rd.got, c);
    StoredAgain(Scattered(s, p, c).mem, p, WithTodo(p, Drop(p.inp.todo, |c|)), s.rd.got + c);
  }

  lemma StoredFits(mem: seq<byte>, p: Pdu, got: seq<byte>)
    requires Stored(mem, p, got)
    ensures |got| <= |p.inp.addrs|
  {
  }

  lemma StoredAgain(mem: seq<byte>, p: Pdu, p': Pdu, got: seq<byte>)
    requires Stored(mem, p, got) && p'.inp.addrs == p.inp.addrs
    ensures Stored(mem, p', got)
  {
  }

  lemma FinishOk(s: State, now: nat)
    requires Sane(s) && Partial(s.cfg, s.mem, s.rd) && s.rd.need == 0
    ensures var r := Finish(s, now); Sane(r) && ReaderOk(r.cfg, r.mem, r.rd)
  {
    match s.rd.phase
    case Marker => FinishMarkerOk(s);
    case Payload => FinishPayloadOk(s, s.rd.pdu.value, now);
    case Unknown =>
    case Iovecs => FinishIovecsOk(s, s.rd.pdu.value);
    case Padding => FinishPduOk(s, s.rd.pdu.value, s.rd.got);
  }

  lemma FinishIovecsOk(s: State, p: Pdu)
    requires Sane(s) && s.rd.phase.Iovecs? && s.rd.pdu == Some(p) && Filling(s.cfg, s.mem, s.rd, p)
    ensures var r := FinishIovecs(s, p); Sane(r) && ReaderOk(r.cfg, r.mem, r.rd)
  {
    FinishPduOk(s, p, s.rd.got);
  }

  /** A step of the reader that is not about the record marker. */
  ghost predicate Quiet(s: State, r: State)
  {
    && r.q == s.q && r.link == s.link && r.cfg == s.cfg && r.nextId == s.nextId && r.lastScan == s.lastScan
       && (s.poisoned ==> r.poisoned)
    && Owing(r)
  }

  /** While user buffers are being filled the success callback is owed, unless the error callback of
      this PDU has already run. */
  ghost predicate Owing(s: State)
  {
    s.rd.phase.Iovecs? || s.rd.phase.Padding? ==> s.poisoned || (s.rd.pdu.Some? && s.rd.pdu.value.inp.freePdu)
  }

  lemma StartDataQuiet(s: State, p: Pdu, at: nat)
    requires p.inp.freePdu || s.poisoned || EndsAtOnce(s.rd.buf, p, at)
    ensures Quiet(s, StartData(s, p, at)) || at + 4 > |s.rd.buf|
    ensures at + 4 > |s.rd.buf| ==> StartData(s, p, at) == Fail(s.(rd := s.rd.(pdu := Some(p))))
  {
  }

  lemma FinishPayloadQuiet(s: State, p: Pdu, now: nat)
    ensures Quiet(s, FinishPayload(s, p, now))
  {
    var b := s.rd.buf;
    var h := ReplyHeader(b);
    if p.inp.zeroCopy {
      if h.Refused? {
        StartDataQuiet(ReportRefused(s, p), p, h.pos);
      } else if h.Accepted? && ReadResult(b, h.pos).ReadOk? {
        StartDataQuiet(s.(lastOk := now), Owed(p), ReadResult(b, h.pos).pos);
      }
    }
  }

  /** Outside the record marker the reader leaves the queues alone; it never touches the link. */
  lemma FinishFrame(s: State, now: nat)
    requires Owing(s)
    ensures !s.rd.phase.Marker? ==> Quiet(s, Finish(s, now))
    ensures Finish(s, now).link == s.link && Finish(s, now).cfg == s.cfg && Finish(s, now).nextId == s.nextId
    ensures (s.poisoned ==> Finish(s, now).poisoned) && Owing(Finish(s, now))
  {
    if s.rd.phase.Payload? && s.rd.pdu.Some? {
      FinishPayloadQuiet(s, s.rd.pdu.value, now);
    } else if s.rd.phase.Marker? {
      FinishMarkerFrame(s);
    }
  }

  lemma FinishMarkerFrame(s: State)
    ensures var r := FinishMarker(s);
            r == s.(q := r.q, rd := r.rd) && (r.rd.phase.Failed? || r.rd.phase.Unknown? || r.rd.phase.Payload?)
  {
  }

  lemma FinishCounted(cfg: Config, n: nat, s: State, now: nat)
    requires QueuesOk(cfg, n, s.q) && Counted(s.q) && Owing(s)
    ensures Counted(Finish(s, now).q)
  {
    if s.rd.phase.Marker? {
      FindOk(cfg, n, s.q, Word(s.rd.buf, 4));
    } else {
      FinishFrame(s, now);
    }
  }

  // ---------------------------------------------------------------- reconnecting

  lemma RequeuedOk(cfg: Config, n: nat, q: Queues, rd: Reader)
    requires QueuesOk(cfg, n, q) && (rd.pdu.Some? ==> Sound(cfg, n, rd.pdu.value))
    ensures QueuesOk(cfg, n, Requeued(q, rd)) && Counted(Requeued(q, rd)) && !Requeued(q, rd).wire.torn
    ensures NoneSent(Requeued(q, rd).out)
  {
    hide ReturnAll, Restarted, Sound, HalfRead;
    var back := Concat(q.wait) + HalfRead(rd);
    var out := Restarted(q.out);
    HalfReadReady(cfg, n, rd);
    ChainReady(cfg, n, q.wait);
    RestartedReady(cfg, n, q.out);
    ReturnAllReady(cfg, n, out, back);
    ReturnAllFrame(out, back, 0);
    EmptyTableConcat(EmptyTable(|q.wait|));
    var r := ReturnAll(out, back);
    if r != [] {
      HasRecord(cfg, n, r[0]);
      assert r[0].out.numDone == 0;
    }
  }

  lemma HalfReadReady(cfg: Config, n: nat, rd: Reader)
    requires rd.pdu.Some? ==> Sound(cfg, n, rd.pdu.value)
    ensures forall p :: p in HalfRead(rd) ==> Sound(cfg, n, p)
  {
  }

  lemma RestartedReady(cfg: Config, n: nat, q: seq<Pdu>)
    requires AllReady(cfg, n, q) && TailUnsent(q)
    ensures AllReady(cfg, n, Restarted(q)) && NoneSent(Restarted(q))
  {
    if q != [] {
      assert Ready(cfg, n, q[0]);
    }
  }

  lemma PurgeOk(s: State)
    requires Sane(s)
    ensures Sane(Purge(s))
    ensures s.q.waitLen == 0 ==> Counted(Purge(s).q)
  {
    EmptyTableConcat(EmptyTable(|s.q.wait|));
    ErrorsPlain(s.q.out);
    ErrorsPlain(Concat(s.q.wait));
    assert !HalfSent(s.q.out) ==> Half(s.q.out) == [];
    WireKept(s.q, [], HalfSent(s.q.out));
  }

  lemma {:induction false} ErrorsPlain(q: seq<Pdu>)
    ensures forall i :: 0 <= i < |q| ==> Errors(q)[i] == Completion(q[i].id, q[i].xid, ERROR, [], None)
  {
    if q != [] {
      ErrorsPlain(q[1..]);
    }
  }

  /** Purging leaves the in-flight counter behind: it is right afterwards exactly when it was zero. */
  lemma PurgeCountedIff(s: State)
    ensures Counted(Purge(s).q) <==> s.q.waitLen == 0
  {
    EmptyTableConcat(EmptyTable(|s.q.wait|));
  }

  /** Attempts and remaining retries add up to the configured number while the link is down. */
  ghost predicate LinkOk(cfg: Config, k: Link)
  {
    cfg.autoReconnect > 0 ==>
      && k.attempts <= cfg.autoReconnect
      && (!k.connected ==> 0 <= k.numRetries && k.attempts + k.numRetries == cfg.autoReconnect)
  }

  ghost predicate Healthy(s: State)
  {
    && Sane(s) && ReaderOk(s.cfg, s.mem, s.rd) && LinkOk(s.cfg, s.link)
    && (s.link.closed || Counted(s.q)) && Owing(s)
  }

  lemma ReconnectOk(s: State, ok: bool)
    requires Healthy(s)
    ensures Healthy(Reconnect(s, ok))
  {
    hide QueuesOk, LogOk, Sound, Filling;
    if s.cfg.autoReconnect == 0 {
      PurgeOk(s);
    } else {
      HalfReadSound(s);
      RequeuedOk(s.cfg, |s.mem|, s.q, s.rd);
      var s1 := Requeue(s);
      if s.cfg.autoReconnect < 0 || s1.link.numRetries > 0 {
        PurgeOk(s1.(link := s1.link.(numRetries := s1.link.numRetries - 1, attempts := s1.link.attempts + 1)));
      } else {
        PurgeOk(s1);
      }
    }
  }

  lemma HalfReadSound(s: State)
    requires ReaderOk(s.cfg, s.mem, s.rd)
    ensures s.rd.pdu.Some? ==> Sound(s.cfg, |s.mem|, s.rd.pdu.value)
  {
  }

  // ---------------------------------------------------------------- steps

  lemma QueueOk(s: State, p: Pdu, now: nat)
    requires Healthy(s) && Record(p) != [] && GoodBuffers(p, s.mem)
    ensures Healthy(Queue(s, p, now))
  {
    NewTimerPaced(s.cfg, Timer(p.timer.doNotRetry, 0, 0, 0, 0), now);
    EnqueueOk(s.cfg, |s.mem|, s.q, NewPdu(s, p, now));
  }

  lemma SendHealthy(s: State, n: nat)
    requires Healthy(s) && n <= |Pending(s.q.out[..Room(s.cfg, s.q)])|
    ensures Healthy(s.(q := Send(s.q, n)))
  {
    SendOk(s.cfg, |s.mem|, s.q, n);
  }

  /** Successive `writev` calls that accept the given numbers of bytes. */
  ghost function SendAll(q: Queues, ns: seq<nat>): (r: Queues)
    decreases |ns|
  {
    if ns == [] then q else Send(SendAll(q, ns[..|ns| - 1]), ns[|ns| - 1])
  }

  /** Each accepts at least one byte and no more than it was offered. */
  ghost predicate CanSendAll(cfg: Config, q: Queues, ns: seq<nat>)
    decreases |ns|
  {
    ns == [] || (CanSendAll(cfg, q, ns[..|ns| - 1])
                 && var q1 := SendAll(q, ns[..|ns| - 1]); 1 <= ns[|ns| - 1] <= |Pending(q1.out[..Room(cfg, q1)])|)
  }

  lemma SendAllSnoc(cfg: Config, q: Queues, ns: seq<nat>, n: nat)
    requires CanSendAll(cfg, q, ns) && 1 <= n <= |Pending(SendAll(q, ns).out[..Room(cfg, SendAll(q, ns))])|
    ensures CanSendAll(cfg, q, ns + [n]) && SendAll(q, ns + [n]) == Send(SendAll(q, ns), n)
  {
    assert (ns + [n])[..|ns|] == ns;
  }

  lemma RecvOk(s: State, c: seq<byte>, now: nat)
    requires Healthy(s) && 1 <= |c| <= s.rd.need
    ensures Healthy(Recv(s, c, now))
  {
    AbsorbOk(s, c);
    var a := Absorb(s, c);
    if a.rd.need == 0 {
      FinishOk(a, now);
      FinishFrame(a, now);
      if Counted(a.q) {
        FinishCounted(a.cfg, |a.mem|, a, now);
      }
    }
  }

  lemma ScanHealthy(s: State, t: nat)
    requires Healthy(s)
    ensures Healthy(Swept(s, t))
  {
    SweptOk(s.cfg, |s.mem|, s.q, t);
    SweptLog(s, t);
  }

  lemma ScanOk(s: State, t: nat, ok: bool)
    requires Healthy(s)
    ensures Healthy(Scan(s, t, ok))
  {
    ScanHealthy(s, t);
    ReconnectOk(Swept(s, t), ok);
  }

  lemma SweptLog(s: State, t: nat)
    requires LogOk(s.log)
    ensures LogOk(Swept(s, t).log)
  {
    var r := Swept(s, t).log;
    forall i | 0 <= i < |r| ensures CallbackOk(r[i]) {
      if i >= |s.log| {
        assert r[i] in r[|s.log|..];
        ScanCallbacks(s, t, r[i]);
      }
      assert s.log <= r by { ScanCallbacks(s, t, r[i]); }
    }
  }

  /** Every step keeps the transport healthy. */
  lemma StepHealthy(s: State, e: Event)
    requires Healthy(s) && Enabled(s, e)
    ensures Healthy(Step(s, e))
  {
    match e
    case Queued(p, now) => QueueOk(s, p, now);
    case Wrote(n) => SendHealthy(s, n);
    case WriteFailed(ok) => ReconnectOk(s, ok);
    case Read(c, now, ok) =>
      RecvOk(s, c, now);
      ReconnectOk(Recv(s, c, now), ok);
    case ReadFailed(ok) => ReconnectOk(s, ok);
    case Tick(t, ok) => ScanOk(s, t, ok);
    case Connected =>
    case ConnectFailed(ok) => ReconnectOk(s, ok);
  }

  // ---------------------------------------------------------------- conservation over runs

  lemma RecvConserves(s: State, c: seq<byte>, now: nat, id: nat)
    requires Healthy(s) && 1 <= |c| <= s.rd.need && !Recv(s, c, now).poisoned
    ensures Total(Recv(s, c, now), id) == Total(s, id)
  {
    AbsorbOk(s, c);
    var a := Absorb(s, c);
    Holding(s.rd, id);
    Holding(a.rd, id);
    if a.rd.need == 0 {
      FinishFrame(a, now);
      FinishConserves(a, now, id);
    }
  }

  lemma FinishConserves(s: State, now: nat, id: nat)
    requires Sane(s) && Partial(s.cfg, s.mem, s.rd) && s.rd.need == 0 && Owing(s)
    requires !s.poisoned && !Finish(s, now).poisoned
    ensures Total(Finish(s, now), id) == Total(s, id)
  {
    Holding(s.rd, id);
    match s.rd.phase
    case Marker => FinishMarkerConserves(s, id);
    case Payload => FinishPayloadConserves(s, s.rd.pdu.value, now, id);
    case Unknown =>
    case Iovecs =>
      Holding(Finish(s, now).rd, id);
      FinishPduTotal(s, s.rd.pdu.value, s.rd.got, id);
    case Padding => FinishPduTotal(s, s.rd.pdu.value, s.rd.got, id);
  }

  lemma FinishPayloadConserves(s: State, p: Pdu, now: nat, id: nat)
    requires s.rd.pdu == Some(p) && !FinishPayload(s, p, now).poisoned
    ensures Total(FinishPayload(s, p, now), id) == Total(s, id)
  {
    FinishPayloadConservesIff(s, p, now, id);
    PoisonedIff(s, p, now);
  }

  /** The flag is raised exactly by the replies that do not conserve and by those that lead astray. */
  lemma PoisonedIff(s: State, p: Pdu, now: nat)
    ensures FinishPayload(s, p, now).poisoned
       <==> (s.poisoned || ReplyHeader(s.rd.buf).Astray?
             || (p.inp.zeroCopy && !GoodRead(s.rd.buf) && !RefusedButDone(s.rd.buf, p)))
  {
    var b := s.rd.buf;
    var h := ReplyHeader(b);
    if p.inp.zeroCopy && h.Refused? {
      StartDataPoison(ReportRefused(s, p), p, h.pos);
    } else if p.inp.zeroCopy && h.Accepted? && ReadResult(b, h.pos).ReadOk? {
      StartDataPoison(s.(lastOk := now), Owed(p), ReadResult(b, h.pos).pos);
    }
  }

  lemma StartDataPoison(s: State, p: Pdu, at: nat)
    ensures StartData(s, p, at).poisoned == s.poisoned
  {
  }

  lemma ScanConserves(s: State, t: nat, ok: bool, id: nat)
    ensures Total(Scan(s, t, ok), id) == Total(s, id)
  {
    SweepConserves(s, t, id);
    ReconnectConserves(Swept(s, t), ok, id);
  }

  lemma StepPoison(s: State, e: Event)
    requires Healthy(s) && Enabled(s, e) && s.poisoned
    ensures Step(s, e).poisoned
  {
    if e.Read? {
      RecvFrame(s, e.c, e.now);
      ReconnectFrame(Recv(s, e.c, e.now), e.connectOk);
    }
  }

  lemma ReadConserves(s: State, c: seq<byte>, now: nat, ok: bool, id: nat)
    requires Healthy(s) && 1 <= |c| <= s.rd.need && !AfterRead(Recv(s, c, now), ok).poisoned
    ensures Total(AfterRead(Recv(s, c, now), ok), id) == Total(s, id)
  {
    var r := Recv(s, c, now);
    ReconnectFrame(r, ok);
    RecvConserves(s, c, now, id);
    ReconnectConserves(r, ok, id);
  }

  lemma ReconnectFrame(s: State, ok: bool)
    ensures Reconnect(s, ok).poisoned == s.poisoned && Reconnect(s, ok).nextId == s.nextId
  {
  }

  lemma StepNextId(s: State, e: Event)
    requires Healthy(s) && Enabled(s, e)
    ensures Step(s, e).nextId == s.nextId + (if e.Queued? then 1 else 0)
  {
    if e.Read? {
      RecvFrame(s, e.c, e.now);
      ReconnectFrame(Recv(s, e.c, e.now), e.connectOk);
    }
  }

  lemma RecvFrame(s: State, c: seq<byte>, now: nat)
    requires Owing(s) && |c| <= s.rd.need
    ensures Recv(s, c, now).nextId == s.nextId && (s.poisoned ==> Recv(s, c, now).poisoned)
  {
    FinishFrame(Absorb(s, c), now);
  }

  /** Only queueing changes the total, and it adds exactly the new PDU. */
  lemma StepConserves(s: State, e: Event, id: nat)
    requires Healthy(s) && Enabled(s, e) && !Step(s, e).poisoned
    ensures Total(Step(s, e), id) == Total(s, id) + (if e.Queued? then One(s.nextId, id) else 0)
  {
    match e
    case Queued(p, now) => QueueAdds(s, p, now, id);
    case Wrote(n) => SendConserves(s.q, n, id);
    case WriteFailed(ok) => ReconnectConserves(s, ok, id);
    case Read(c, now, ok) => ReadConserves(s, c, now, ok, id);
    case ReadFailed(ok) => ReconnectConserves(s, ok, id);
    case Tick(t, ok) => ScanConserves(s, t, ok, id);
    case Connected =>
    case ConnectFailed(ok) => ReconnectConserves(s, ok, id);
  }

  /** Every PDU ever queued is in exactly one place or has been called back exactly once. */
  ghost predicate Balanced(s: State, first: nat)
  {
    first <= s.nextId && forall id: nat :: Total(s, id) == if first <= id < s.nextId then 1 else 0
  }

  ghost predicate Inv(s: State, first: nat)
  {
    Healthy(s) && (s.poisoned || Balanced(s, first))
  }

  lemma StepInv(s: State, e: Event, first: nat)
    requires Inv(s, first) && Enabled(s, e)
    ensures Inv(Step(s, e), first)
  {
    StepHealthy(s, e);
    if s.poisoned {
      StepPoison(s, e);
    } else if !Step(s, e).poisoned {
      StepNextId(s, e);
      forall id: nat ensures Total(Step(s, e), id) == if first <= id < Step(s, e).nextId then 1 else 0 {
        StepConserves(s, e, id);
      }
    }
  }

  lemma InitialInv(s: State)
    requires Initial(s)
    ensures Inv(s, s.nextId)
  {
    EmptyTableConcat(s.q.wait);
    assert s.q.wire.bytes == Concat(s.q.wire.records) + Half(s.q.out);
  }

  /** The invariant holds in every state of every run. */
  lemma {:induction false} RunInv(s: State, es: seq<Event>, first: nat)
    requires Inv(s, first) && IsRun(s, es)
    ensures Inv(Run(s, es), first)
    decreases |es|
  {
    if es != [] {
      RunInv(s, es[..|es| - 1], first);
      StepInv(Run(s, es[..|es| - 1]), es[|es| - 1], first);
    }
  }

  lemma {:induction false} RunHealthy(s: State, es: seq<Event>)
    requires Healthy(s) && IsRun(s, es)
    ensures Healthy(Run(s, es))
    decreases |es|
  {
    hide Healthy, Step, Enabled;
    if es != [] {
      RunHealthy(s, es[..|es| - 1]);
      StepHealthy(Run(s, es[..|es| - 1]), es[|es| - 1]);
    }
  }

  function Writes(ns: seq<nat>): (es: seq<Event>)
  {
    seq(|ns|, i requires 0 <= i < |ns| => Wrote(ns[i]))
  }

  /** What the send loop does is a run of write events. */
  lemma {:induction false} SendAllIsRun(s: State, ns: seq<nat>)
    requires CanSendAll(s.cfg, s.q, ns)
    ensures IsRun(s, Writes(ns)) && Run(s, Writes(ns)) == s.(q := SendAll(s.q, ns))
    decreases |ns|
  {
    hide Send, Room, Pending;
    if ns != [] {
      var init := ns[..|ns| - 1];
      SendAllIsRun(s, init);
      assert Writes(ns)[..|ns| - 1] == Writes(init);
    }
  }

  // ---------------------------------------------------------------- what a user may rely on

  /** Single location and at-most-once completion: in every run in which no zero-copy READ got a
      reply that was refused or did not decode, a PDU is in at most one place, is called back at most
      once, is never called back while it is still queued, and is never lost. */
  lemma AtMostOnce(s: State, es: seq<Event>, id: nat)
    requires Initial(s) && IsRun(s, es) && !Run(s, es).poisoned
    ensures var r := Run(s, es);
            && Completed(r.log, id) + Live(r, id) <= 1
            && (s.nextId <= id < r.nextId <==> Completed(r.log, id) + Live(r, id) == 1)
  {
    InitialInv(s);
    RunInv(s, es, s.nextId);
    assert Total(Run(s, es), id) == if s.nextId <= id < Run(s, es).nextId then 1 else 0;
  }

  /** Outgoing framing: the socket of the current connection has accepted whole records followed by
      a prefix of the head's record if and only if no half-sent head was taken off the queue since
      it was connected; and no PDU but the head is ever half-sent. */
  lemma OutgoingFraming(s: State, es: seq<Event>)
    requires Initial(s) && IsRun(s, es)
    ensures var r := Run(s, es); HeadOnly(r.q.out) && (r.q.wire.torn <==> !Framed(r.q))
  {
    InitialInv(s);
    RunInv(s, es, s.nextId);
    TornIff(Run(s, es).q);
  }

  /** In-flight limit and wait table: the counter never exceeds a configured limit, it is the number
      of waiting PDUs as long as the context was not shut down by a failure with reconnect disabled,
      and every waiting PDU is in the bucket of its xid. */
  lemma InFlight(s: State, es: seq<Event>)
    requires Initial(s) && IsRun(s, es)
    ensures var r := Run(s, es);
            && (r.cfg.maxWaitpduLen > 0 ==> r.q.waitLen <= r.cfg.maxWaitpduLen)
            && |Concat(r.q.wait)| <= r.q.waitLen
            && (r.link.closed || r.q.waitLen == |Concat(r.q.wait)|)
            && Hashed(r.q.wait)
  {
    InitialInv(s);
    RunInv(s, es, s.nextId);
  }

  /** Zero-copy delivery: whenever the callback of a zero-copy READ runs, in whatever run - short
      reads, other traffic and half-read attempts undone by reconnects included - the user's buffers
      hold exactly the bytes that were received as its data. */
  lemma ZeroCopyDelivery(s: State, es: seq<Event>, i: nat)
    requires Initial(s) && IsRun(s, es) && i < |Run(s, es).log|
    requires Run(s, es).log[i].buffer.Some?
    ensures Run(s, es).log[i].buffer.value == Run(s, es).log[i].reply
  {
    InitialInv(s);
    RunInv(s, es, s.nextId);
  }

  /** Retransmission bound: in every run with positive `timeout` and `retrans`, no PDU that waits for
      a reply has been put back by more than `retrans - 1` scans since its major deadline was set. */
  lemma Retransmissions(s: State, es: seq<Event>)
    requires Initial(s) && IsRun(s, es)
    ensures var r := Run(s, es);
            r.cfg.timeout > 0 && r.cfg.retrans > 0 ==>
              forall h, i :: 0 <= h < |r.q.wait| && 0 <= i < |r.q.wait[h]|
                  ==> r.q.wait[h][i].timer.resent < r.cfg.retrans
  {
    InitialInv(s);
    RunInv(s, es, s.nextId);
    var r := Run(s, es);
    if r.cfg.timeout > 0 && r.cfg.retrans > 0 {
      WaitingPaced(r);
    }
  }

  lemma WaitingPaced(r: State)
    requires Healthy(r) && r.cfg.timeout > 0 && r.cfg.retrans > 0
    ensures forall h, i :: 0 <= h < |r.q.wait| && 0 <= i < |r.q.wait[h]| ==> r.q.wait[h][i].timer.resent < r.cfg.retrans
  {
    forall h, i | 0 <= h < |r.q.wait| && 0 <= i < |r.q.wait[h]| ensures r.q.wait[h][i].timer.resent < r.cfg.retrans {
      assert AllReady(r.cfg, |r.mem|, r.q.wait[h]);
      assert Ready(r.cfg, |r.mem|, r.q.wait[h][i]);
    }
  }

  /** Reconnect bound: with `auto_reconnect = n > 0` at most `n` attempts are made between two
      connected states. */
  lemma ReconnectBound(s: State, es: seq<Event>)
    requires Initial(s) && IsRun(s, es) && Run(s, es).cfg.autoReconnect > 0
    ensures Run(s, es).link.attempts <= Run(s, es).cfg.autoReconnect
  {
    InitialInv(s);
    RunInv(s, es, s.nextId);
  }

  /** Reconnect conservation: requeueing puts every PDU that was in flight into the out queue, unsent
      and with its cursor reset, in front of a reader at a record boundary. */
  lemma RequeueAll(s: State, id: nat)
    requires Healthy(s)
    ensures var r := Requeue(s);
            && Ids(r.q.out, id) == Live(s, id) && Live(r, id) == Live(s, id)
            && NoneSent(r.q.out) && AllReady(s.cfg, |s.mem|, r.q.out)
            && Concat(r.q.wait) == [] && r.q.waitLen == 0 && r.rd == BOUNDARY
            && r.q.wire == NEW_WIRE
  {
    RequeueConserves(s, id);
    HalfReadSound(s);
    RequeuedOk(s.cfg, |s.mem|, s.q, s.rd);
    EmptyTableConcat(EmptyTable(|s.q.wait|));
    Holding(BOUNDARY, id);
  }

  /** When the attempts are used up, every live PDU gets exactly one error callback. */
  lemma GivingUp(s: State, ok: bool, id: nat)
    requires Healthy(s) && s.cfg.autoReconnect > 0 && !s.link.connected && s.link.attempts == s.cfg.autoReconnect
    ensures var r := Reconnect(s, ok);
            && Live(r, id) == 0
            && Completed(r.log, id) == Completed(s.log, id) + Live(s, id)
            && s.log <= r.log && forall i :: |s.log| <= i < |r.log| ==> r.log[i].status == ERROR
  {
    hide Requeue, Purge, Reconnect, InQueues, Sane, ReaderOk, LinkOk, Counted, Owing;
    GivesUp(s, ok);
    RequeueConserves(s, id);
    PurgeConserves(Requeue(s), id);
    PurgeLog(Requeue(s));
    RequeuedLog(s);
    Holding(Reconnect(s, ok).rd, id);
  }

  lemma GivesUp(s: State, ok: bool)
    requires LinkOk(s.cfg, s.link) && s.cfg.autoReconnect > 0
    requires !s.link.connected && s.link.attempts == s.cfg.autoReconnect
    ensures Reconnect(s, ok) == Purge(Requeue(s))
  {
    hide Purge, Requeued;
  }

  lemma RequeuedLog(s: State)
    ensures Requeue(s).log == s.log && Requeue(s).rd.pdu == None
  {
    hide Requeued;
  }

  lemma PurgeLog(s: State)
    ensures s.log <= Purge(s).log && Purge(s).rd == s.rd
    ensures forall i :: |s.log| <= i < |Purge(s).log| ==> Purge(s).log[i].status == ERROR
  {
    hide Concat, EmptyTable;
    ErrorsPlain(s.q.out);
    ErrorsPlain(Concat(s.q.wait));
  }

  /** Exactly when a reconnect gives up: it goes on if it is attempted and connecting works. Then no
      callback runs, every live PDU stays live, in the out queue, and the attempt is counted. */
  lemma ReconnectGoesOn(s: State, ok: bool, id: nat)
    requires Healthy(s) && ok
    requires s.cfg.autoReconnect < 0
             || (s.cfg.autoReconnect > 0 && (s.link.connected || s.link.attempts < s.cfg.autoReconnect))
    ensures var r := Reconnect(s, ok);
            && r.log == s.log && Live(r, id) == Live(s, id) == Ids(r.q.out, id)
            && r.rd == BOUNDARY && NoneSent(r.q.out) && Concat(r.q.wait) == [] && r.q.waitLen == 0
            && !r.link.connected && r.link.attempts == 1 + (if s.link.connected then 0 else s.link.attempts)
            && r.link.closed == s.link.closed
  {
    hide Requeued, Sane, ReaderOk;
    RequeueAll(s, id);
  }

  /** In all other cases every queued or waiting PDU gets one error callback, and so does a half-read one
      unless reconnecting is disabled, which also closes the context. */
  lemma ReconnectGivesUp(s: State, ok: bool, id: nat)
    requires Healthy(s)
    requires !ok || s.cfg.autoReconnect == 0
             || (s.cfg.autoReconnect > 0 && !s.link.connected && s.link.attempts >= s.cfg.autoReconnect)
    ensures var r := Reconnect(s, ok);
            && s.log <= r.log && (forall i :: |s.log| <= i < |r.log| ==> r.log[i].status == ERROR)
            && InQueues(r.q, id) == 0 && r.q.out == [] && (forall h :: 0 <= h < |r.q.wait| ==> r.q.wait[h] == [])
            && Completed(r.log, id) == Completed(s.log, id)
                                       + (if s.cfg.autoReconnect == 0 then InQueues(s.q, id) else Live(s, id))
            && (s.cfg.autoReconnect != 0 ==> Live(r, id) == 0 && r.rd == BOUNDARY && !r.link.connected)
            && (s.cfg.autoReconnect == 0 ==> r.rd == s.rd && r.link == s.link.(closed := true))
  {
    hide Requeue, Sane, ReaderOk, Counted, Owing, InQueues, Concat;
    var s1 := Requeue(s);
    if s.cfg.autoReconnect == 0 {
      PurgeOutcome(s, id);
    } else {
      RequeueConserves(s, id);
      RequeuedLog(s);
      Holding(s1.rd, id);
      RequeuedLink(s);
      PurgeOutcome(s1, id);
      PurgeOutcome(s1.(link := s1.link.(numRetries := s1.link.numRetries - 1, attempts := s1.link.attempts + 1)), id);
    }
  }

  /** The two outcomes, for the caller of the reconnect: whether it goes on shows in the log and the queues. */
  lemma ReconnectShows(s: State, connectOk: bool, goesOn: bool)
    requires Healthy(s)
    requires goesOn <==> connectOk && (s.cfg.autoReconnect < 0
                                       || (s.cfg.autoReconnect > 0
                                           && (s.link.connected || s.link.attempts < s.cfg.autoReconnect)))
    ensures var r := Reconnect(s, connectOk);
            && (goesOn ==> r.log == s.log)
            && (!goesOn ==> r.q.out == [] && forall h :: 0 <= h < |r.q.wait| ==> r.q.wait[h] == [])
            && (s.cfg.autoReconnect != 0 ==>
                  !r.link.connected && r.q.waitLen == 0 && forall h :: 0 <= h < |r.q.wait| ==> r.q.wait[h] == [])
  {
    hide Reconnect, Healthy;
    if s.cfg.autoReconnect != 0 {
      ReconnectDown(s, connectOk);
    }
    if goesOn {
      ReconnectGoesOn(s, connectOk, 0);
    } else {
      ReconnectGivesUp(s, connectOk, 0);
    }
  }

  /** Unless reconnecting is disabled, the link is down and nothing waits, whatever the outcome. */
  lemma ReconnectDown(s: State, connectOk: bool)
    requires s.cfg.autoReconnect != 0
    ensures var r := Reconnect(s, connectOk);
            !r.link.connected && r.q.waitLen == 0 && forall h :: 0 <= h < |r.q.wait| ==> r.q.wait[h] == []
  {
    hide ReturnAll, Errors, Concat, Restarted;
  }

  lemma HealthyLink(s: State)
    requires Healthy(s)
    ensures LinkOk(s.cfg, s.link)
  {
  }

  /** There is a retry left exactly when there have been fewer attempts than allowed. */
  lemma RetriesLeft(s: State)
    requires LinkOk(s.cfg, s.link) && s.cfg.autoReconnect > 0
    ensures Requeue(s).link.numRetries > 0 <==> s.link.connected || s.link.attempts < s.cfg.autoReconnect
  {
    hide Requeued;
  }

  lemma RequeuedLink(s: State)
    ensures Requeue(s).link == Dropped(s.cfg, s.link) && Requeue(s).rd == BOUNDARY && Requeue(s).cfg == s.cfg
  {
  }

  /** The callbacks of a purge, one by one: the out queue, then bucket after bucket. */
  lemma PurgeInOrder(s: State)
    ensures var q, log := s.q.out + Concat(s.q.wait), Purge(s).log;
            && s.log <= log && |log| == |s.log| + |q|
            && forall i :: 0 <= i < |q| ==> log[|s.log| + i] == Completion(q[i].id, q[i].xid, ERROR, [], None)
  {
    hide Concat, EmptyTable, Errors;
    ErrorsPlain(s.q.out);
    ErrorsPlain(Concat(s.q.wait));
  }

  lemma PurgeOutcome(s: State, id: nat)
    ensures var r := Purge(s);
            && r == s.(q := r.q, log := r.log) && s.log <= r.log
            && (forall i :: |s.log| <= i < |r.log| ==> r.log[i].status == ERROR)
            && InQueues(r.q, id) == 0 && r.q.out == [] && (forall h :: 0 <= h < |r.q.wait| ==> r.q.wait[h] == [])
            && Completed(r.log, id) == Completed(s.log, id) + InQueues(s.q, id)
  {
    hide InQueues, Concat;
    PurgeLog(s);
    PurgeConserves(s, id);
    Holding(s.rd, id);
  }

  // ---------------------------------------------------------------- replies that stop the reader for good

  /** Which record markers the reader refuses: fragments that are not the last, records of fewer than 8
      bytes or more than 8 MiB, and records of more than 4 MiB and 4096 bytes, unless they answer a
      zero-copy READ. */
  lemma MarkerRefusedIff(s: State, now: nat)
    requires s.rd.phase.Marker? && |s.rd.buf| == 8
    ensures var w, found := Word(s.rd.buf, 0), Find(s.q, Word(s.rd.buf, 4)).1;
            Finish(s, now).rd.phase.Failed?
            <==> w < 0x8000_0008 || w > 0x8000_0000 + 8 * 1024 * 1024
                 || (w > 0x8000_0000 + 4 * 1024 * 1024 + 4096 && (found.None? || !found.value.inp.zeroCopy))
  {
    hide Word, Find;
  }

  /** A reply to a zero-copy READ without a header or a READ3 result that decodes. */
  predicate BadReadReply(b: seq<byte>)
  {
    var h := ReplyHeader(b);
    h.Undecodable? || (h.Accepted? && ReadResult(b, h.pos).BadResult?)
  }

  /** The reader uses a null result exactly on such replies to a zero-copy READ, and goes astray exactly on
      headers that lead there. */
  lemma CrashedIff(s: State, now: nat)
    requires !s.rd.phase.Crashed?
    ensures Finish(s, now).rd.phase.Crashed?
       <==> s.rd.phase.Payload? && s.rd.pdu.Some?
            && (ReplyHeader(s.rd.buf).Astray? || (s.rd.pdu.value.inp.zeroCopy && BadReadReply(s.rd.buf)))
  {
    hide Word, ReplyHeader, ReadResult, Find, Scatter, Gather, Decodes, RefusedButDone;
    if s.rd.phase.Payload? && s.rd.pdu.Some? {
      var h := ReplyHeader(s.rd.buf);
      assert h.Undecodable? || h.Astray? || h.Refused? || h.Accepted?;
    }
  }

  /** Such a reply makes the error callback before the reader stops, with the PDU still held; a header that
      goes astray makes none. */
  lemma CrashReports(s: State, p: Pdu, now: nat)
    requires s.rd.phase.Payload? && s.rd.pdu == Some(p)
    ensures p.inp.zeroCopy && BadReadReply(s.rd.buf) ==>
              Finish(s, now).log == s.log + [Completion(p.id, p.xid, ERROR, s.rd.buf, None)]
              && Finish(s, now).rd.pdu == Some(p)
    ensures ReplyHeader(s.rd.buf).Astray? ==> Finish(s, now).log == s.log && Finish(s, now).rd.pdu == Some(p)
  {
    hide Word, ReplyHeader, ReadResult;
  }

  /** Decoding goes astray exactly on a CALL, and on an accepted reply whose verifier length is so large
      that, as a C `int`, it takes the position back by more than there is. */
  lemma AstrayIff(b: seq<byte>)
    ensures ReplyHeader(b).Astray?
       <==> |b| >= 12
            && (Word(b, 4) == 0
                || (|b| >= 20 && Word(b, 4) == 1 && Word(b, 8) == 0 && 0x8000_0000 <= Word(b, 16) <= TWO_32 - 24))
  {
  }

  /** Verifier lengths below 2^31 are bounds-checked: the header ends behind them. */
  lemma SoundVerifier(b: seq<byte>)
    requires |b| >= 20 && Word(b, 4) == 1 && Word(b, 8) == 0 && Word(b, 16) < 0x8000_0000
    ensures ReplyHeader(b).Accepted? || ReplyHeader(b).Refused? ==> 24 + Word(b, 16) <= ReplyHeader(b).pos <= |b|
    ensures 20 + Word(b, 16) > |b| ==> ReplyHeader(b).Undecodable?
  {
    hide Word, RoundUp4;
  }

  /** Whatever the reply: with such a verifier it is accepted if and only if its accept status is zero. */
  lemma StatusDecides(b: seq<byte>)
    requires |b| >= 20 && Word(b, 4) == 1 && Word(b, 8) == 0 && Word(b, 16) < 0x8000_0000
    ensures var at := RoundUp4(20 + Word(b, 16));
            && (ReplyHeader(b).Accepted? <==> at + 4 <= |b| && Word(b, at) == 0)
            && (ReplyHeader(b).Accepted? ==> ReplyHeader(b).pos == at + 4)
            && (at + 4 <= |b| && Word(b, at) != 0 && Word(b, at) != 2 ==> ReplyHeader(b) == Refused(at + 4))
            && (at + 12 <= |b| && Word(b, at) == 2 ==> ReplyHeader(b) == Refused(at + 12))
  {
    hide Word, RoundUp4;
  }

  /** xid 7, REPLY, MSG_ACCEPTED, flavor 0, a verifier of length 2^32 - 8, and a zero word. */
  const STEPS_BACK: seq<byte> := [0, 0, 0, 7, 0, 0, 0, 1, 0, 0, 0, 0, 0, 0, 0, 0, 255, 255, 255, 248, 0, 0, 0, 0]

  lemma WordAt(b: seq<byte>, at: nat)
    requires at + 4 <= |b|
    ensures Word(b, at) == (b[at] as int) * 0x100_0000 + (b[at + 1] as int) * 0x1_0000
                           + (b[at + 2] as int) * 0x100 + b[at + 3]
  {
  }

  /** The test for the end of the buffer passes, the position steps back from 20 to 12, and the word there
      is taken for the accept status. */
  lemma VerifierStepsBack()
    ensures ReplyHeader(STEPS_BACK) == Accepted(16) && ReadResult(STEPS_BACK, 16) == FailedRead
  {
    hide Word, AsInt32, RoundUp4;
    assert RoundUp4(12) == 12 && AsInt32(TWO_32 - 8) == -8 by { StepOf(); }
    var b := STEPS_BACK;
    WordAt(b, 4);
    WordAt(b, 8);
    WordAt(b, 12);
    WordAt(b, 16);
    WordAt(b, 20);
    assert Word(b, 16) == TWO_32 - 8 && AfterVerifier(b) == 12;
  }

  lemma StepOf()
    ensures RoundUp4(12) == 12 && AsInt32(TWO_32 - 8) == -8
  {
  }

  /** The reply that a callback gets carries the xid of the callback's own PDU. */
  lemma RepliesMatch(s: State, es: seq<Event>, i: nat)
    requires Initial(s) && IsRun(s, es) && i < |Run(s, es).log|
    ensures var c := Run(s, es).log[i]; c.buffer.None? && c.reply != [] ==> Carries(c.reply, c.xid)
  {
    InitialInv(s);
    RunInv(s, es, s.nextId);
    assert CallbackOk(Run(s, es).log[i]);
  }
}
