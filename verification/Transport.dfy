/** The TCP client transport: the state of a `struct rpc_context` and what each system call,
    timer tick or connection event does to it.

    PDUs are values held by the queues; `id` names a PDU for its whole life, across
    retransmissions. `epoch`, `resent` and the last group of fields of `State` are history:
    no transition looks at them. */
module Transport {
  import opened Bytes
  import opened Iovec

  const ZCRP: nat := 1024
  const MAX_FRAGMENT_SIZE: nat := 8 * 1024 * 1024
  const INBUF_LIMIT: nat := NFS_MAX_XFER_SIZE + 4096
  const FATTR3_SIZE: nat := 84

  /** One element of `pdu->out`: a buffer at address `base` with the bytes it holds. */
  datatype OutBuffer = OutBuffer(base: nat, data: seq<byte>)

  /** What a PDU puts on the wire. */
  datatype Outgoing = Outgoing(bufs: seq<OutBuffer>, numDone: nat)

  /** Where the data of a zero-copy READ goes: the addresses of the user's buffers, those its
      cursor has still to fill, and whether the success callback is owed. */
  datatype Incoming = Incoming(zeroCopy: bool, addrs: seq<nat>, todo: seq<nat>, freePdu: bool)

  datatype Timer = Timer(doNotRetry: bool, timeout: nat, majorTimeout: nat, epoch: nat, resent: nat)

  datatype Pdu = Pdu(id: nat, xid: uint32, out: Outgoing, inp: Incoming, timer: Timer)

  /** The wait table: one queue per hash value. */
  type Table = w: seq<seq<Pdu>> | w != [] witness [[]]

  /** `decodes(id, b, at)` is what the result decoder of PDU `id` makes of the bytes of `b` from `at` on. */
  datatype Config = Config(
    maxWaitpduLen: nat, timeout: int, retrans: int, autoReconnect: int, slack: nat,
    decodes: (nat, seq<byte>, nat) -> bool)

  datatype Status = SUCCESS | ERROR | TIMEOUT

  /** One invocation of a user callback of the PDU `id` with this xid: the reply bytes it is about
      and, for a zero-copy READ, what the user's buffers hold at that moment. */
  datatype Completion =
    Completion(id: nat, xid: uint32, status: Status, reply: seq<byte>, buffer: Option<seq<byte>>)

  /** READ_RM, READ_PAYLOAD, READ_UNKNOWN, READ_IOVEC and READ_PADDING; `Failed` is a reader that
      returned -1 and waits for the reconnect, `Crashed` one that used a null result or went astray. */
  datatype Phase = Marker | Payload | Unknown | Iovecs | Padding | Failed | Crashed

  /** `need` is `pdu_size - inpos`, `span` is `pdu_size`, `left` is `rm_xid[0]` and `pdu` is `rpc->pdu`. */
  datatype Reader = Reader(
    phase: Phase, buf: seq<byte>, need: nat, span: nat, left: nat, got: seq<byte>, pdu: Option<Pdu>)

  /** History of the current connection: the bytes its socket accepted, the records completed on
      it, and whether a half-sent PDU was taken off the queue. */
  datatype Wire = Wire(bytes: seq<byte>, records: seq<seq<byte>>, torn: bool)

  datatype Queues = Queues(out: seq<Pdu>, wait: Table, waitLen: int, wire: Wire)

  datatype Link = Link(connected: bool, numRetries: int, attempts: nat, closed: bool)

  datatype State = State(
    cfg: Config, q: Queues, rd: Reader, mem: seq<byte>, log: seq<Completion>,
    link: Link, lastScan: nat, lastOk: nat, nextId: nat, poisoned: bool)

  const BOUNDARY: Reader := Reader(Marker, [], 8, 8, 0, [], None)
  const NEW_WIRE: Wire := Wire([], [], false)

  // ---------------------------------------------------------------- queues

  function Flatten(v: seq<OutBuffer>): (r: seq<byte>)
  {
    if v == [] then [] else v[0].data + Flatten(v[1..])
  }

  /** The bytes of the PDU's record: marker, header and arguments. */
  function Record(p: Pdu): (r: seq<byte>)
  {
    Flatten(p.out.bufs)
  }

  function NumDone(p: Pdu, n: nat): (r: Pdu)
  {
    p.(out := p.out.(numDone := n))
  }

  /** The bytes of a queue that the socket has not accepted yet. */
  function Pending(q: seq<Pdu>): (r: seq<byte>)
  {
    if q == [] then [] else Drop(Record(q[0]), q[0].out.numDone) + Pending(q[1..])
  }

  function Records(q: seq<Pdu>): (r: seq<seq<byte>>)
    ensures |r| == |q|
  {
    if q == [] then [] else [Record(q[0])] + Records(q[1..])
  }

  /** `rpc_hash_xid`, with the multiplication carried out on `uint32_t`. */
  function Hash(xid: uint32, n: nat): (h: nat)
    requires n > 0
    ensures h < n
  {
    Wrap32(xid * 7919) % n
  }

  /** A PDU ready to be sent from its first byte and to be answered into untouched buffers. */
  function Rewound(p: Pdu): (r: Pdu)
  {
    NumDone(p, 0).(inp := p.inp.(todo := p.inp.addrs))
  }

  function AfterHead(q: seq<Pdu>, p: Pdu): (r: seq<Pdu>)
  {
    if q == [] then [p] else [q[0], p] + q[1..]
  }

  /** `rpc_return_to_outqueue` for each PDU in turn. */
  function ReturnAll(q: seq<Pdu>, ps: seq<Pdu>): (r: seq<Pdu>)
    decreases |ps|
  {
    if ps == [] then q else ReturnAll(AfterHead(q, Rewound(ps[0])), ps[1..])
  }

  function IndexOf(q: seq<Pdu>, xid: uint32): (i: nat)
    ensures i <= |q| && (i < |q| ==> q[i].xid == xid)
    ensures forall k :: 0 <= k < i ==> q[k].xid != xid
  {
    if q == [] || q[0].xid == xid then 0 else 1 + IndexOf(q[1..], xid)
  }

  function RemoveAt<T>(q: seq<T>, i: nat): (r: seq<T>)
    requires i < |q|
    ensures |r| == |q| - 1
  {
    q[..i] + q[i + 1..]
  }

  predicate HalfSent(q: seq<Pdu>)
  {
    q != [] && q[0].out.numDone > 0
  }

  function EmptyTable(n: nat): (w: Table)
    requires n > 0
    ensures |w| == n && forall i :: 0 <= i < n ==> w[i] == []
  {
    seq(n, _ => [])
  }

  function Enqueue(w: Table, p: Pdu): (r: Table)
    ensures |r| == |w|
  {
    var h := Hash(p.xid, |w|);
    w[h := w[h] + [p]]
  }

  function EnqueueAll(w: Table, ps: seq<Pdu>): (r: Table)
    ensures |r| == |w|
    decreases |ps|
  {
    if ps == [] then w else EnqueueAll(Enqueue(w, ps[0]), ps[1..])
  }

  // ---------------------------------------------------------------- queueing and sending

  /** `pdu_set_timeout`; `slack` is 1000 where `clock_gettime` is missing and 0 elsewhere. */
  function SetTimeout(cfg: Config, t: Timer, now: nat): (r: Timer)
  {
    if cfg.timeout <= 0 then t.(timeout := 0)
    else
      var minor := now + cfg.timeout + cfg.slack;
      var t1 := if t.timeout == 0 then t.(timeout := minor) else t;
      if t1.majorTimeout == 0 then
        var major := now + cfg.timeout * cfg.retrans + cfg.slack;
        Timer(t.doNotRetry, minor, if major < minor then minor else major, now, 0)
      else t1
  }

  /** `rpc_queue_pdu` on a TCP client: a fresh PDU goes to the tail. */
  function NewPdu(s: State, p: Pdu, now: nat): (r: Pdu)
  {
    Rewound(p).(id := s.nextId, inp := Rewound(p).inp.(freePdu := false),
                timer := SetTimeout(s.cfg, Timer(p.timer.doNotRetry, 0, 0, 0, 0), now))
  }

  function Queue(s: State, p: Pdu, now: nat): (r: State)
  {
    s.(q := s.q.(out := s.q.out + [NewPdu(s, p, now)]), nextId := s.nextId + 1)
  }

  /** How many PDUs one `writev` may cover. */
  function Room(cfg: Config, q: Queues): (n: nat)
    ensures n <= |q.out|
  {
    if cfg.maxWaitpduLen == 0 then |q.out|
    else if cfg.maxWaitpduLen <= q.waitLen then 0
    else Min(cfg.maxWaitpduLen - q.waitLen, |q.out|)
  }

  /** The accounting loop after a `writev` that accepted `n` bytes: what stays queued and which
      PDUs are now completely sent. */
  function Account(q: seq<Pdu>, n: nat): (r: (seq<Pdu>, seq<Pdu>))
    decreases |q|
  {
    if n == 0 || q == [] then (q, [])
    else
      var remaining := |Record(q[0])| - q[0].out.numDone;
      if remaining <= n then
        var (rest, done) := Account(q[1..], if remaining > 0 then n - remaining else n);
        (rest, [NumDone(q[0], |Record(q[0])|)] + done)
      else ([NumDone(q[0], q[0].out.numDone + n)] + q[1..], [])
  }

  /** One `writev` that accepts `n` bytes. */
  function Send(q: Queues, n: nat): (r: Queues)
  {
    var (rest, done) := Account(q.out, n);
    Queues(rest, EnqueueAll(q.wait, done), q.waitLen + |done|,
           q.wire.(bytes := q.wire.bytes + Take(Pending(q.out), n), records := q.wire.records + Records(done)))
  }

  // ---------------------------------------------------------------- receiving

  /** `rpc_find_pdu` as the reader calls it, with `rm_xid[1] == xid`: the PDU leaves its queue. */
  function Find(q: Queues, xid: uint32): (r: (Queues, Option<Pdu>))
  {
    var i := IndexOf(q.out, xid);
    if i < |q.out| then
      var torn := q.wire.torn || (i == 0 && HalfSent(q.out));
      (q.(out := RemoveAt(q.out, i), wire := q.wire.(torn := torn)), Some(q.out[i]))
    else
      var h := Hash(xid, |q.wait|);
      var j := IndexOf(q.wait[h], xid);
      if j < |q.wait[h]|
      then (q.(wait := q.wait[h := RemoveAt(q.wait[h], j)], waitLen := q.waitLen - 1), Some(q.wait[h][j]))
      else (q, None)
  }

  /** What `zdr_replymsg` makes of the reply header: where decoding stopped. After `Astray` the bytes of the
      reply do not determine what happens: the position lies in front of the buffer, or the message is a
      CALL, whose fields are then read as those of a reply. */
  datatype Header = Undecodable | Astray | Refused(pos: nat) | Accepted(pos: nat)

  function ReplyHeader(b: seq<byte>): (h: Header)
  {
    if |b| < 12 || Word(b, 4) > 1 then Undecodable
    else if Word(b, 4) == 0 then Astray
    else if Word(b, 8) == 0 then AcceptedReply(b)
    else if Word(b, 8) == 1 then RejectedReply(b)
    else Undecodable
  }

  /** The position behind the verifier, whose length is added as a C `int`: from 2^31 on it is negative,
      passes the test for the end of the buffer and moves the position back. */
  function AfterVerifier(b: seq<byte>): (at: int)
  {
    RoundUp4(20 + AsInt32(Word(b, 16)))
  }

  function AcceptedReply(b: seq<byte>): (h: Header)
  {
    if |b| < 20 || 20 + AsInt32(Word(b, 16)) > |b| then Undecodable
    else
      var at := AfterVerifier(b);
      if at < 0 then Astray
      else if at + 4 > |b| then Undecodable
      else if Word(b, at) == 0 then Accepted(at + 4)
      else if Word(b, at) == 2 then (if at + 12 > |b| then Undecodable else Refused(at + 12))
      else Refused(at + 4)
  }

  function RejectedReply(b: seq<byte>): (h: Header)
  {
    if |b| < 16 then Undecodable
    else if Word(b, 12) == 0 then (if |b| < 24 then Undecodable else Refused(24))
    else if Word(b, 12) == 1 then (if |b| < 20 then Undecodable else Refused(20))
    else Refused(16)
  }

  /** `zdr_READ3res_zero_copy`: everything up to the length word of the data. */
  datatype Read3 = BadResult | FailedRead | ReadOk(pos: nat)

  function ReadResult(b: seq<byte>, at: nat): (r: Read3)
  {
    if at + 8 > |b| || Word(b, at + 4) > 1 then BadResult
    else
      var attrs := at + 8 + Word(b, at + 4) * FATTR3_SIZE;
      if attrs > |b| then BadResult
      else if Word(b, at) != 0 then FailedRead
      else if attrs + 8 > |b| then BadResult
      else ReadOk(attrs + 8)
  }

  /** A reader that will read no more on this connection. */
  function Stopped(phase: Phase, pdu: Option<Pdu>): (r: Reader)
  {
    Reader(phase, [], 0, 0, 0, [], pdu)
  }

  function Fail(s: State): (r: State)
  {
    s.(rd := Stopped(Failed, s.rd.pdu))
  }

  function Report(s: State, p: Pdu, status: Status, reply: seq<byte>, buffer: Option<seq<byte>>): (r: State)
  {
    s.(log := s.log + [Completion(p.id, p.xid, status, reply, buffer)])
  }

  /** `rpc_finished_pdu`: the callback of a zero-copy READ runs here. */
  function FinishPdu(s: State, p: Pdu, got: seq<byte>): (r: State)
  {
    var s1 := if p.inp.freePdu then Report(s, p, SUCCESS, got, Some(Gather(s.mem, Take(p.inp.addrs, |got|)))) else s;
    s1.(rd := BOUNDARY)
  }

  function PayloadSpan(p: Pdu, size: nat): (n: nat)
  {
    if p.inp.zeroCopy && size > ZCRP then ZCRP else size
  }

  /** The record marker and the xid are complete. */
  function FinishMarker(s: State): (r: State)
  {
    var size := Word(s.rd.buf, 0) - 0x8000_0000;
    if size < 8 || size > MAX_FRAGMENT_SIZE then Fail(s)
    else
      var (q, found) := Find(s.q, Word(s.rd.buf, 4));
      StartRecord(s.(q := q), found, Drop(s.rd.buf, 4), size)
  }

  /** `xid` is the first word of the payload, already read with the marker. */
  function StartRecord(s: State, found: Option<Pdu>, xid: seq<byte>, size: nat): (r: State)
    requires size >= 8
  {
    if found.None? then
      if size > INBUF_LIMIT then Fail(s) else s.(rd := Reader(Unknown, [], size - 4, size, size, [], None))
    else if !found.value.inp.zeroCopy && size > INBUF_LIMIT then
      Fail(s.(q := s.q.(out := AfterHead(s.q.out, Rewound(found.value)))))
    else s.(rd := InPayload(found.value, xid, size))
  }

  /** The reader with `buf` of a reply for `p` buffered. */
  function InPayload(p: Pdu, buf: seq<byte>, size: nat): (r: Reader)
  {
    var span := PayloadSpan(p, size);
    Reader(Payload, buf, if |buf| <= span then span - |buf| else 0, span, size, [], Some(p))
  }

  function WithTodo(p: Pdu, todo: seq<nat>): (r: Pdu)
  {
    p.(inp := p.inp.(todo := todo))
  }

  function Owed(p: Pdu): (r: Pdu)
  {
    p.(inp := p.inp.(freePdu := true))
  }

  /** Handles the data of a READ reply; `at` is the position of the data length word. The count is
      cut down to what was requested, the cursor is shrunk to the count, and what came with the
      preamble is copied. */
  function StartData(s: State, p: Pdu, at: nat): (r: State)
  {
    var b := s.rd.buf;
    if at + 4 > |b| then Fail(s.(rd := s.rd.(pdu := Some(p))))
    else
      var count := Min(Word(b, at), |p.inp.addrs|);
      var n := Min(Min(|b| - (at + 4), count), |p.inp.todo|);
      CopyData(s, p, b[at + 4..at + 4 + n], count, Wrap32(s.rd.left - (at + 4 + n)))
  }

  /** The first `data` of `count` bytes go to the user's buffers; if there are more, the reader goes
      on straight into the buffers, with `left` bytes of the record to come. */
  function CopyData(s: State, p: Pdu, data: seq<byte>, count: nat, left: uint32): (r: State)
  {
    var todo, n := Take(p.inp.todo, count), |data|;
    var s1 := s.(mem := Scatter(s.mem, Take(todo, n), data));
    if n >= |todo| then FinishPdu(s1, WithTodo(p, []), data)
    else s1.(rd := Reader(Iovecs, [], count - n, count - n, left, data, Some(WithTodo(p, Drop(todo, n)))))
  }

  /** The buffered part of a reply is complete: `rpc_process_pdu` and what follows it. */
  function FinishPayload(s: State, p: Pdu, now: nat): (r: State)
  {
    var h := ReplyHeader(s.rd.buf);
    if h.Astray? then s.(poisoned := true, rd := Stopped(Crashed, s.rd.pdu))
    else if p.inp.zeroCopy then
      FinishReadReply(s, p, h, if h.Accepted? then ReadResult(s.rd.buf, h.pos) else BadResult, now)
    else
      var ok := Decodes(s.cfg, p, s.rd.buf);
      Report(s, p, if ok then SUCCESS else ERROR, s.rd.buf, None)
      .(rd := BOUNDARY, lastOk := if ok then now else s.lastOk)
  }

  /** The reply to an ordinary PDU is accepted and its results decode. */
  predicate Decodes(cfg: Config, p: Pdu, b: seq<byte>)
  {
    var h := ReplyHeader(b);
    h.Accepted? && cfg.decodes(p.id, b, h.pos)
  }

  /** Reading the data finishes with the preamble: nothing is left to be put into user buffers. */
  predicate EndsAtOnce(b: seq<byte>, p: Pdu, at: nat)
  {
    at + 4 <= |b| && Min(Min(Word(b, at), |p.inp.addrs|), |p.inp.todo|) <= |b| - (at + 4)
  }

  /** A refused reply to a zero-copy READ that, by luck, is finished with in the same step. */
  predicate RefusedButDone(b: seq<byte>, p: Pdu)
  {
    var h := ReplyHeader(b);
    h.Refused? && EndsAtOnce(b, p, h.pos) && !p.inp.freePdu
  }

  /** The error callback of a refused READ; it is the last one only if the PDU is dropped at once. */
  function ReportRefused(s: State, p: Pdu): (r: State)
  {
    Report(s, p, ERROR, s.rd.buf, None).(poisoned := s.poisoned || !RefusedButDone(s.rd.buf, p))
  }

  /** The reply to a zero-copy READ. A refused reply runs the error callback but, since the result
      structure is still zeroed, is then taken for a successful READ without an owed callback. */
  function FinishReadReply(s: State, p: Pdu, h: Header, result: Read3, now: nat): (r: State)
  {
    if h.Refused? then StartData(ReportRefused(s, p), p, h.pos)
    else if result.BadResult? then Crash(s, p)
    else if result.FailedRead? then FinishPdu(s.(lastOk := now), Owed(p), [])
    else StartData(s.(lastOk := now), Owed(p), result.pos)
  }

  function Crash(s: State, p: Pdu): (r: State)
  {
    Report(s, p, ERROR, s.rd.buf, None).(poisoned := true, rd := Stopped(Crashed, s.rd.pdu))
  }

  function FinishIovecs(s: State, p: Pdu): (r: State)
  {
    var left := Wrap32(s.rd.left - s.rd.span);
    if left == 0 then FinishPdu(s, p, s.rd.got)
    else s.(rd := s.rd.(phase := Padding, need := left, span := left, left := left))
  }

  /** The switch that runs when `inpos` reaches `pdu_size`. */
  function Finish(s: State, now: nat): (r: State)
  {
    match (s.rd.phase, s.rd.pdu)
    case (Marker, _) => FinishMarker(s)
    case (Payload, Some(p)) => FinishPayload(s, p, now)
    case (Unknown, _) => s.(rd := BOUNDARY)
    case (Iovecs, Some(p)) => FinishIovecs(s, p)
    case (Padding, Some(p)) => FinishPdu(s, p, s.rd.got)
    case _ => s
  }

  /** Bytes delivered by one `recv`, before the check for completion. */
  function Buffered(rd: Reader, c: seq<byte>): (r: Reader)
    requires |c| <= rd.need
  {
    if rd.phase.Marker? || rd.phase.Payload? then rd.(buf := rd.buf + c, need := rd.need - |c|)
    else rd.(need := rd.need - |c|)
  }

  /** Bytes delivered by one `readv` into the buffers of `p`. */
  function Scattered(s: State, p: Pdu, c: seq<byte>): (r: State)
    requires |c| <= s.rd.need
  {
    s.(mem := Scatter(s.mem, Take(p.inp.todo, |c|), c),
       rd := s.rd.(need := s.rd.need - |c|, got := s.rd.got + c, pdu := Some(WithTodo(p, Drop(p.inp.todo, |c|)))))
  }

  function Absorb(s: State, c: seq<byte>): (r: State)
    requires |c| <= s.rd.need
    ensures r.rd.need == s.rd.need - |c|
  {
    if s.rd.phase.Iovecs? && s.rd.pdu.Some? then Scattered(s, s.rd.pdu.value, c)
    else s.(rd := Buffered(s.rd, c))
  }

  /** One successful `recv` or `readv`. */
  function Recv(s: State, c: seq<byte>, now: nat): (r: State)
    requires |c| <= s.rd.need
  {
    var s1 := Absorb(s, c);
    if s1.rd.need == 0 then Finish(s1, now) else s1
  }

  // ---------------------------------------------------------------- timeouts

  predicate Retryable(cfg: Config, p: Pdu)
  {
    !p.timer.doNotRetry && cfg.retrans > 0
  }

  predicate ExpiredQueued(p: Pdu, t: nat)
  {
    p.timer.timeout != 0 && p.timer.timeout <= t
  }

  predicate ExpiredSent(p: Pdu, t: nat)
  {
    p.timer.timeout != 0 && (p.timer.timeout <= t || p.timer.majorTimeout <= t)
  }

  function TimedOut(p: Pdu): (c: Completion)
  {
    Completion(p.id, p.xid, TIMEOUT, [], None)
  }

  /** A PDU that timed out before it was sent starts over with both deadlines. */
  function Deferred(cfg: Config, p: Pdu, t: nat): (r: Pdu)
  {
    p.(timer := SetTimeout(cfg, p.timer.(timeout := 0, majorTimeout := 0), t))
  }

  /** The first loop of `rpc_timeout_scan`: the new queue and the callbacks it makes. */
  function ScanQueued(cfg: Config, q: seq<Pdu>, t: nat): (r: (seq<Pdu>, seq<Completion>))
  {
    if q == [] then ([], [])
    else
      var (rest, log) := ScanQueued(cfg, q[..|q| - 1], t);
      var p := q[|q| - 1];
      if !ExpiredQueued(p, t) then (rest + [p], log)
      else if Retryable(cfg, p) then (rest + [Deferred(cfg, p, t)], log)
      else (rest, log + [TimedOut(p)])
  }

  /** A sent PDU that timed out and may be retried, with its deadlines advanced. */
  function Retry(cfg: Config, p: Pdu, t: nat): (r: Pdu)
  {
    var major := if p.timer.majorTimeout <= t then 0 else p.timer.majorTimeout;
    p.(timer := SetTimeout(cfg, p.timer.(timeout := 0, majorTimeout := major, resent := p.timer.resent + 1), t))
  }

  /** The second loop over one bucket: PDUs that stay, PDUs to retransmit and callbacks. */
  datatype Sweep = Sweep(kept: seq<Pdu>, again: seq<Pdu>, log: seq<Completion>)

  function ScanSent(cfg: Config, q: seq<Pdu>, t: nat): (r: Sweep)
  {
    if q == [] then Sweep([], [], [])
    else
      var w := ScanSent(cfg, q[..|q| - 1], t);
      var p := q[|q| - 1];
      if !ExpiredSent(p, t) then w.(kept := w.kept + [p])
      else if Retryable(cfg, p) then w.(again := w.again + [Retry(cfg, p, t)])
      else w.(log := w.log + [TimedOut(p)])
  }

  datatype TableSweep = TableSweep(kept: seq<seq<Pdu>>, again: seq<Pdu>, log: seq<Completion>)

  function ScanTable(cfg: Config, w: seq<seq<Pdu>>, t: nat): (r: TableSweep)
    ensures |r.kept| == |w|
  {
    if w == [] then TableSweep([], [], [])
    else
      var r := ScanTable(cfg, w[..|w| - 1], t);
      var b := ScanSent(cfg, w[|w| - 1], t);
      TableSweep(r.kept + [b.kept], r.again + b.again, r.log + b.log)
  }

  /** A retryable PDU has reached its major deadline. */
  predicate MajorTimeout(cfg: Config, q: seq<Pdu>, t: nat)
  {
    exists i :: 0 <= i < |q| && ExpiredSent(q[i], t) && Retryable(cfg, q[i]) && q[i].timer.majorTimeout <= t
  }

  function SilentFor(s: State, t: nat): (msecs: int)
  {
    if s.lastOk == 0 then -1 else AsInt32((t - s.lastOk) % 0x1_0000_0000_0000_0000)
  }

  predicate NeedReconnect(s: State, t: nat)
  {
    MajorTimeout(s.cfg, Concat(s.q.wait), t) && SilentFor(s, t) > s.cfg.timeout
  }

  /** The queues after an effective scan. */
  function SweptQueues(cfg: Config, q: Queues, t: nat): (r: Queues)
  {
    var w := ScanTable(cfg, q.wait, t);
    Queues(ReturnAll(ScanQueued(cfg, q.out, t).0, w.again), w.kept, q.waitLen - |w.again| - |w.log|,
           q.wire.(torn := q.wire.torn || (HalfSent(q.out) && ExpiredQueued(q.out[0], t) && !Retryable(cfg, q.out[0]))))
  }

  /** An effective scan, without the reconnect it may ask for. */
  function Swept(s: State, t: nat): (r: State)
  {
    s.(q := SweptQueues(s.cfg, s.q, t), lastScan := t,
       log := s.log + ScanQueued(s.cfg, s.q.out, t).1 + ScanTable(s.cfg, s.q.wait, t).log)
  }

  predicate TooSoon(s: State, t: nat)
  {
    t <= s.lastScan + 1000
  }

  function Scan(s: State, t: nat, connectOk: bool): (r: State)
  {
    if TooSoon(s, t) then s
    else if NeedReconnect(s, t) then Reconnect(Swept(s, t), connectOk)
    else Swept(s, t)
  }

  // ---------------------------------------------------------------- reconnecting

  function Errors(q: seq<Pdu>): (r: seq<Completion>)
    ensures |r| == |q|
  {
    if q == [] then [] else [Completion(q[0].id, q[0].xid, ERROR, [], None)] + Errors(q[1..])
  }

  /** `rpc_error_all_pdus`: `waitpdu_len` and the half-read PDU are left as they are. */
  function Purge(s: State): (r: State)
  {
    s.(q := Queues([], EmptyTable(|s.q.wait|), s.q.waitLen, s.q.wire.(torn := s.q.wire.torn || HalfSent(s.q.out))),
       log := s.log + Errors(s.q.out) + Errors(Concat(s.q.wait)))
  }

  function HalfRead(rd: Reader): (r: seq<Pdu>)
  {
    if rd.pdu.Some? then [rd.pdu.value] else []
  }

  function Restarted(q: seq<Pdu>): (r: seq<Pdu>)
    ensures |r| == |q|
  {
    if q == [] then [] else [NumDone(q[0], 0)] + q[1..]
  }

  /** Everything in flight goes back to the out queue of a new connection. */
  function Requeued(q: Queues, rd: Reader): (r: Queues)
  {
    Queues(ReturnAll(Restarted(q.out), Concat(q.wait) + HalfRead(rd)), EmptyTable(|q.wait|), 0, NEW_WIRE)
  }

  /** The link just before the decision to try again. */
  function Dropped(cfg: Config, k: Link): (r: Link)
  {
    if k.connected then Link(false, cfg.autoReconnect, 0, k.closed) else k
  }

  function Requeue(s: State): (r: State)
  {
    s.(q := Requeued(s.q, s.rd), rd := BOUNDARY, link := Dropped(s.cfg, s.link))
  }

  /** `rpc_reconnect_requeue`; `connectOk` is the result of `rpc_connect_sockaddr_async`. */
  function Reconnect(s: State, connectOk: bool): (r: State)
  {
    if s.cfg.autoReconnect == 0 then Purge(s).(link := s.link.(closed := true))
    else Attempt(Requeue(s), connectOk)
  }

  /** Another attempt to connect, or the end if there have been too many. */
  function Attempt(s: State, connectOk: bool): (r: State)
  {
    if s.cfg.autoReconnect < 0 || s.link.numRetries > 0 then
      var s1 := s.(link := s.link.(numRetries := s.link.numRetries - 1, attempts := s.link.attempts + 1));
      if connectOk then s1 else Purge(s1)
    else Purge(s)
  }

  // ---------------------------------------------------------------- runs

  datatype Event =
    | Queued(p: Pdu, now: nat)
    | Wrote(n: nat)
    | WriteFailed(connectOk: bool)
    | Read(c: seq<byte>, now: nat, connectOk: bool)
    | ReadFailed(connectOk: bool)
    | Tick(t: nat, connectOk: bool)
    | Connected
    | ConnectFailed(connectOk: bool)

  /** A zero-copy READ brings pairwise distinct addresses inside user memory. */
  ghost predicate GoodBuffers(p: Pdu, mem: seq<byte>)
  {
    p.inp.zeroCopy ==> NoDuplicates(p.inp.addrs) && InMemory(mem, p.inp.addrs)
  }

  /** What the environment can do next: any short write or read, but never more than was offered. */
  ghost predicate Enabled(s: State, e: Event)
  {
    match e
    case Queued(p, _) => Record(p) != [] && GoodBuffers(p, s.mem)
    case Wrote(n) => 1 <= n <= |Pending(s.q.out[..Room(s.cfg, s.q)])|
    case Read(c, _, _) => s.link.connected && 1 <= |c| <= s.rd.need
    case Connected => !s.link.connected
    case ConnectFailed(_) => !s.link.connected
    case _ => true
  }

  ghost function Step(s: State, e: Event): (r: State)
    requires Enabled(s, e)
  {
    match e
    case Queued(p, now) => Queue(s, p, now)
    case Wrote(n) => s.(q := Send(s.q, n))
    case WriteFailed(ok) => Reconnect(s, ok)
    case Read(c, now, ok) => AfterRead(Recv(s, c, now), ok)
    case ReadFailed(ok) => Reconnect(s, ok)
    case Tick(t, ok) => Scan(s, t, ok)
    case Connected => s.(link := s.link.(connected := true))
    case ConnectFailed(ok) => Reconnect(s, ok)
  }

  /** `rpc_service` reconnects when the reader returns an error. */
  function AfterRead(s: State, connectOk: bool): (r: State)
  {
    if s.rd.phase.Failed? then Reconnect(s, connectOk) else s
  }

  ghost predicate IsRun(s: State, es: seq<Event>)
    decreases |es|, 0
  {
    es == [] || (IsRun(s, es[..|es| - 1]) && Enabled(Run(s, es[..|es| - 1]), es[|es| - 1]))
  }

  /** The state after a run. */
  ghost function Run(s: State, es: seq<Event>): (r: State)
    requires IsRun(s, es)
    decreases |es|, 1
  {
    if es == [] then s else Step(Run(s, es[..|es| - 1]), es[|es| - 1])
  }

  ghost predicate Initial(s: State)
  {
    && s.q.out == [] && (forall i :: 0 <= i < |s.q.wait| ==> s.q.wait[i] == []) && s.q.waitLen == 0
    && s.q.wire == NEW_WIRE && s.rd == BOUNDARY && s.log == []
    && s.link.connected && s.link.attempts == 0 && !s.link.closed && !s.poisoned
  }
}
