/** `struct rpc_context` and the functions that update it in place. Every method is tied to the
    transition of the same name in `Transport`, so the theorems of `Runs` and `RecordReader` are
    about these methods. */
module Context {
  import opened Bytes
  import opened Iovec
  import opened Transport
  import opened Conservation
  import opened QueueInvariants
  import opened Gathering
  import opened Runs
  import opened ScanOutcome
  import RecordReader

  /** The last two stand for a return value of -1 and for a null dereference. */
  datatype InputState = READ_RM | READ_PAYLOAD | READ_UNKNOWN | READ_IOVEC | READ_PADDING | STOPPED | CRASHED

  /** The outcome of one `writev`: it would block, it failed, or it accepted some bytes. */
  datatype WriteResult = Again | Broken | Bytes(n: Positive)

  type Positive = n: nat | n > 0 witness 1

  /** A `writev` in state `q` is offered `n` bytes: a non-empty prefix of what is pending of as many PDUs as
      the in-flight limit leaves room for, and all of it if there are vectors enough. */
  ghost predicate Offers(cfg: Config, cap: nat, q: Transport.Queues, n: nat)
  {
    var room := if cfg.maxWaitpduLen == 0 then |q.out| else Min(cfg.maxWaitpduLen - q.waitLen, |q.out|);
    && 0 < room
    && 1 <= n <= |Pending(q.out[..room])|
    && (BufferCount(q.out[..room]) < cap ==> n == |Pending(q.out[..room])|)
  }

  function StoreAt(buf: seq<byte>, at: nat, data: seq<byte>): (r: seq<byte>)
    requires at + |data| <= |buf|
    ensures |r| == |buf| && Take(r, at + |data|) == Take(buf, at) + data
  {
    buf[..at] + data + buf[at + |data|..]
  }

  function Less(a: nat, b: nat): (r: nat)
  {
    if b <= a then a - b else 0
  }

  lemma BeOfWord(b: seq<byte>, at: nat)
    requires at + 4 <= |b|
    ensures Be32(Word(b, at)) == b[at..at + 4]
  {
    Digits(b[at], b[at + 1], b[at + 2], b[at + 3]);
  }

  lemma Digits(w: byte, x: byte, y: byte, z: byte)
    ensures Be32((w as int) * 0x100_0000 + (x as int) * 0x1_0000 + (y as int) * 0x100 + z) == [w, x, y, z]
  {
    var n := (w as int) * 0x100_0000 + (x as int) * 0x1_0000 + (y as int) * 0x100 + z;
    assert n % 0x100 == z && n / 0x100 == (w as int) * 0x1_0000 + (x as int) * 0x100 + y;
    assert n / 0x1_0000 == (w as int) * 0x100 + x;
    assert n / 0x100_0000 == w;
  }

  class RpcContext {
    const cfg: Config
    /** User memory, into which zero-copy READs are received. */
    const mem: array<byte>

    var outqueue: seq<Pdu>
    var waitpdu: Table
    var waitpduLen: int

    var state: InputState
    var inpos: nat
    var pduSize: nat
    var rm: seq<byte>
    var rmLen: uint32
    var inbuf: seq<byte>
    var pdu: Option<Pdu>
    var readCount: nat
    /** The data of the current zero-copy READ received so far, for the callback log. */
    var got: seq<byte>

    var isConnected: bool
    var numRetries: int
    var lastTimeoutScan: nat
    var lastSuccess: nat
    var nextId: nat
    var log: seq<Completion>

    ghost var wire: Wire
    ghost var attempts: nat
    ghost var poisoned: bool
    ghost var closed: bool

    // -------------------------------------------------------------- abstraction

    ghost function Queues(): (q: Transport.Queues)
      reads this`outqueue, this`waitpdu, this`waitpduLen, this`wire
    {
      Transport.Queues(outqueue, waitpdu, waitpduLen, wire)
    }

    /** With `inpos == 0` the next turn of the read loop still has to set up the new state. */
    ghost function Reader(): (rd: Transport.Reader)
      reads this`state, this`inpos, this`pduSize, this`rm, this`rmLen, this`inbuf, this`pdu, this`readCount, this`got
    {
      match state
      case READ_RM => Transport.Reader(Marker, Take(rm, inpos), Less(8, inpos), 8, 0, [], None)
      case READ_PAYLOAD =>
        if inpos == 0 && pdu.Some? then InPayload(pdu.value, Take(inbuf, 4), rmLen)
        else Transport.Reader(Payload, Take(inbuf, inpos), Less(pduSize, inpos), pduSize, rmLen, [], pdu)
      case READ_UNKNOWN =>
        if inpos == 0 then Transport.Reader(Unknown, [], Less(rmLen, 4), rmLen, rmLen, [], None)
        else Transport.Reader(Unknown, [], Less(pduSize, inpos), pduSize, rmLen, [], None)
      case READ_IOVEC =>
        var span := if inpos == 0 then readCount else pduSize;
        Transport.Reader(Iovecs, [], Less(span, inpos), span, rmLen, got, pdu)
      case READ_PADDING =>
        var span := if inpos == 0 then rmLen else pduSize;
        Transport.Reader(Padding, [], Less(span, inpos), span, rmLen, got, pdu)
      case STOPPED => Stopped(Failed, pdu)
      case CRASHED => Stopped(Crashed, pdu)
    }

    ghost function View(): (s: State)
      reads this, mem
    {
      State(cfg, Queues(), Reader(), mem[..], log, Link(isConnected, numRetries, attempts, closed),
            lastTimeoutScan, lastSuccess, nextId, poisoned)
    }

    /** The part of the state that processing a reply may change agrees with `r`. */
    ghost predicate Agrees(r: State)
      reads this, mem
    {
      Reader() == r.rd && mem[..] == r.mem && log == r.log && lastSuccess == r.lastOk && poisoned == r.poisoned
    }

    /** The part of the state that the start of a record may change agrees with `r`. */
    ghost predicate Started(r: State)
      reads this
    {
      Queues() == r.q && Reader() == r.rd
    }

    /** Sizes of the reader's own buffers. */
    ghost predicate Buffers()
      reads this`state, this`inpos, this`pduSize, this`rm, this`rmLen, this`inbuf, this`pdu
    {
      && |rm| == 8 && |inbuf| <= INBUF_LIMIT
      && (state.READ_RM? || state.READ_UNKNOWN? ==> pdu.None?)
      && (inpos > 0 && (state.READ_RM? || state.READ_PAYLOAD? || state.READ_UNKNOWN?) ==> inpos <= pduSize)
      && (state.READ_RM? ==> inpos > 0 ==> pduSize == 8)
      && (state.READ_PAYLOAD? ==> pdu.Some? && rmLen >= 8 && PayloadSpan(pdu.value, rmLen) <= |inbuf|
                                  && (inpos > 0 ==> 4 <= inpos && pduSize == PayloadSpan(pdu.value, rmLen)))
      && (state.READ_UNKNOWN? ==> rmLen >= 8 && rmLen <= |inbuf| && (inpos > 0 ==> pduSize == rmLen))
      && (state.READ_IOVEC? || state.READ_PADDING? ==> |inbuf| > 0 && (inpos > 0 ==> inpos <= pduSize))
    }

    ghost predicate Valid()
      reads this, mem
    {
      Buffers() && Healthy(View())
    }

    constructor (cfg: Config, mem: array<byte>, hashes: nat)
      requires hashes > 0
      ensures this.mem == mem && this.cfg == cfg && |waitpdu| == hashes
      ensures Initial(View()) && Valid()
    {
      this.cfg, this.mem := cfg, mem;
      outqueue, waitpdu, waitpduLen := [], EmptyTable(hashes), 0;
      state, inpos, pduSize, rm, rmLen, inbuf, pdu, readCount, got := READ_RM, 0, 0, seq(8, _ => 0), 0, [], None, 0, [];
      isConnected, numRetries, lastTimeoutScan, lastSuccess, nextId, log := true, 0, 0, 0, 0, [];
      wire, attempts, poisoned, closed := NEW_WIRE, 0, false, false;
      new;
      InitialInv(View());
    }

    // -------------------------------------------------------------- lib/pdu.c

    /** `rpc_return_to_outqueue`. */
    method ReturnToOutqueue(p: Pdu)
      modifies this`outqueue
      ensures outqueue == AfterHead(old(outqueue), Rewound(p))
      ensures var r := p.(out := Outgoing(p.out.bufs, 0), inp := p.inp.(todo := p.inp.addrs));
              outqueue == if old(outqueue) == [] then [r] else [old(outqueue)[0], r] + old(outqueue)[1..]
    {
      var r := p.(out := p.out.(numDone := 0), inp := p.inp.(todo := p.inp.addrs));
      if |outqueue| <= 1 {
        outqueue := outqueue + [r];
      } else {
        outqueue := [outqueue[0], r] + outqueue[1..];
      }
    }

    /** `rpc_find_pdu`, which takes the PDU off its queue. */
    method FindPdu(xid: uint32) returns (found: Option<Pdu>)
      modifies this`outqueue, this`waitpdu, this`waitpduLen, this`wire
      ensures Queues() == Find(old(Queues()), xid).0 && found == Find(old(Queues()), xid).1
    {
      var i := IndexIn(outqueue, xid);
      if i < |outqueue| {
        found := Some(outqueue[i]);
        wire := wire.(torn := wire.torn || (i == 0 && HalfSent(outqueue)));
        outqueue := outqueue[..i] + outqueue[i + 1..];
        return;
      }
      var h := Hash(xid, |waitpdu|);
      var j := IndexIn(waitpdu[h], xid);
      if j == |waitpdu[h]| { return None; }
      found := Some(waitpdu[h][j]);
      waitpdu := waitpdu[h := waitpdu[h][..j] + waitpdu[h][j + 1..]];
      waitpduLen := waitpduLen - 1;
    }

    /** Follows a chain until the xid matches. */
    static method IndexIn(q: seq<Pdu>, xid: uint32) returns (i: nat)
      ensures i == IndexOf(q, xid)
    {
      i := 0;
      while i < |q| && q[i].xid != xid
        invariant 0 <= i <= |q| && IndexOf(q, xid) == i + IndexOf(q[i..], xid)
      {
        assert q[i..][1..] == q[i + 1..];
        i := i + 1;
      }
    }

    /** `rpc_queue_pdu`, up to the attempt to send. */
    method QueuePdu(p: Pdu, now: nat)
      requires Valid() && Record(p) != [] && GoodBuffers(p, mem[..])
      modifies this
      ensures Valid() && View() == Step(old(View()), Queued(p, now))
      ensures |outqueue| == |old(outqueue)| + 1 && outqueue[..|old(outqueue)|] == old(outqueue)
      ensures var r := outqueue[|old(outqueue)|];
              && r.id == old(nextId) && r.xid == p.xid && r.out == Outgoing(p.out.bufs, 0)
              && r.inp == Incoming(p.inp.zeroCopy, p.inp.addrs, p.inp.addrs, false)
              && r.timer.doNotRetry == p.timer.doNotRetry && DueFrom(cfg, r.timer, now)
      ensures waitpdu == old(waitpdu) && log == old(log) && mem[..] == old(mem[..])
    {
      hide Healthy, SetTimeout;
      ghost var s := View();
      QueueOk(s, p, now);
      NewPduIs(s, p, now);
      var timer := SetTimeout(cfg, Timer(p.timer.doNotRetry, 0, 0, 0, 0), now);
      outqueue := outqueue + [Pdu(nextId, p.xid, p.out.(numDone := 0),
                                  Incoming(p.inp.zeroCopy, p.inp.addrs, p.inp.addrs, false), timer)];
      nextId := nextId + 1;
      assert View() == Queue(s, p, now);
    }

    // -------------------------------------------------------------- rpc_write_to_socket

    /** The accounting loop after `writev` accepted `n` bytes. */
    method AccountFor(n: nat)
      modifies this`outqueue, this`waitpdu, this`waitpduLen, this`wire
      ensures Queues() == Send(old(Queues()), n)
    {
      ghost var out0, w0 := outqueue, waitpdu;
      ghost var moved: seq<Pdu> := [];
      var count := n;
      assert [] + Account(out0, n).1 == Account(out0, n).1;
      while count > 0 && outqueue != []
        invariant 0 <= count && wire == old(wire)
        invariant waitpdu == EnqueueAll(w0, moved) && waitpduLen == old(waitpduLen) + |moved|
        invariant Account(out0, n).0 == Account(outqueue, count).0
        invariant Account(out0, n).1 == moved + Account(outqueue, count).1
        decreases |outqueue|, count
      {
        AccountStep(outqueue, count, moved);
        var p := outqueue[0];
        var remaining := |Record(p)| - p.out.numDone;
        if remaining <= count {
          count := if remaining > 0 then count - remaining else count;
          p := p.(out := p.out.(numDone := |Record(p)|));
          outqueue := outqueue[1..];
          EnqueueAllSnoc(w0, moved, p);
          Wait(p);
          moved := moved + [p];
        } else {
          outqueue := [p.(out := p.out.(numDone := p.out.numDone + count))] + outqueue[1..];
          count := 0;
        }
      }
      assert Account(outqueue, count) == (outqueue, []);
      assert moved + [] == moved;
      wire := wire.(bytes := wire.bytes + Take(Pending(out0), n), records := wire.records + Records(moved));
    }

    /** A completely sent PDU goes to the tail of its bucket. */
    method Wait(p: Pdu)
      modifies this`waitpdu, this`waitpduLen
      ensures waitpdu == Enqueue(old(waitpdu), p) && waitpduLen == old(waitpduLen) + 1
    {
      var h := Hash(p.xid, |waitpdu|);
      waitpdu := waitpdu[h := waitpdu[h] + [p]];
      waitpduLen := waitpduLen + 1;
    }

    static lemma AccountStep(q: seq<Pdu>, count: nat, moved: seq<Pdu>)
      requires count > 0 && q != []
      ensures var remaining := |Record(q[0])| - q[0].out.numDone;
              if remaining <= count then
                var rest := Account(q[1..], if remaining > 0 then count - remaining else count);
                Account(q, count).0 == rest.0
                    && moved + Account(q, count).1 == moved + [NumDone(q[0], |Record(q[0])|)] + rest.1
              else
                var r := [NumDone(q[0], q[0].out.numDone + count)] + q[1..];
                Account(q, count) == (r, []) && Account(r, 0) == (r, [])
    {
    }

    static lemma {:induction false} EnqueueAllSnoc(w: Table, ps: seq<Pdu>, p: Pdu)
      ensures EnqueueAll(w, ps + [p]) == Enqueue(EnqueueAll(w, ps), p)
      decreases |ps|
    {
      if ps == [] {
        assert [] + [p] == [p] && [p][1..] == [];
      } else {
        assert (ps + [p])[1..] == ps[1..] + [p];
        EnqueueAllSnoc(Enqueue(w, ps[0]), ps[1..], p);
      }
    }

    /** `rpc_write_to_socket`. `io` is what successive calls of `writev` are ready to accept; `offered` is
        what each is offered and `sent` what it accepts, and exactly that is accounted for. */
    method WriteToSocket(io: seq<WriteResult>, cap: nat)
      returns (ok: bool, ghost sent: seq<nat>, ghost offered: seq<nat>)
      requires QueuesOk(cfg, mem.Length, Queues()) && 0 < cap <= RPC_MAX_VECTORS
      modifies this`outqueue, this`waitpdu, this`waitpduLen, this`wire
      ensures QueuesOk(cfg, mem.Length, Queues())
      ensures CanSendAll(cfg, old(Queues()), sent) && Queues() == SendAll(old(Queues()), sent)
      ensures |sent| == |offered| <= |io|
      ensures forall i :: 0 <= i < |sent| ==> io[i].Bytes? && sent[i] == Min(io[i].n, offered[i])
      ensures forall i :: 0 <= i < |sent| ==> Offers(cfg, cap, SendAll(old(Queues()), sent[..i]), offered[i])
      ensures (outqueue != [] && (cfg.maxWaitpduLen == 0 || cfg.maxWaitpduLen > waitpduLen) && |sent| < |io|
              ==> !io[|sent|].Bytes?)
      ensures !ok <==> |sent| < |io| && io[|sent|].Broken? && outqueue != []
                       && (cfg.maxWaitpduLen == 0 || cfg.maxWaitpduLen > waitpduLen)
    {
      hide QueuesOk, CanSendAll, SendAll, Offers;
      sent, offered, ok := [], [], true;
      NoneSentYet(cfg, Queues());
      var i := 0;
      while i < |io| && outqueue != [] && (cfg.maxWaitpduLen == 0 || cfg.maxWaitpduLen > waitpduLen)
        invariant 0 <= i == |sent| == |offered| <= |io| && QueuesOk(cfg, mem.Length, Queues()) && ok
        invariant CanSendAll(cfg, old(Queues()), sent) && Queues() == SendAll(old(Queues()), sent)
        invariant forall k :: 0 <= k < i ==> io[k].Bytes? && sent[k] == Min(io[k].n, offered[k])
        invariant forall k :: 0 <= k < i ==> Offers(cfg, cap, SendAll(old(Queues()), sent[..k]), offered[k])
      {
        if io[i].Again? { return; }
        if io[i].Broken? { return false, sent, offered; }
        SendOnceKeeps(cfg, mem.Length, Queues());
        ghost var q, before := Queues(), sent;
        var n, o := SendOnce(io[i].n, cap);
        SendOk(cfg, mem.Length, q, n);
        SendAllSnoc(cfg, old(Queues()), sent, n);
        sent, offered := sent + [n], offered + [o];
        assert forall k | 0 <= k <= i :: sent[..k] == before[..k];
        assert before[..i] == before;
        i := i + 1;
      }
    }

    static lemma NoneSentYet(cfg: Config, q: Transport.Queues)
      ensures CanSendAll(cfg, q, []) && SendAll(q, []) == q
    {
    }

    static lemma SendOnceKeeps(cfg: Config, n: nat, q: Transport.Queues)
      requires QueuesOk(cfg, n, q)
      ensures HeadOnly(q.out) && AllReady(cfg, n, q.out)
    {
    }

    /** One turn of the outer loop: gather, `writev`, account. Returns how much was accepted, and offered. */
    method SendOnce(ready: Positive, cap: nat) returns (n: nat, offered: nat)
      requires HeadOnly(outqueue) && AllReady(cfg, mem.Length, outqueue)
      requires 0 < cap && outqueue != [] && (cfg.maxWaitpduLen == 0 || cfg.maxWaitpduLen > waitpduLen)
      modifies this`outqueue, this`waitpdu, this`waitpduLen, this`wire
      ensures Offers(cfg, cap, old(Queues()), offered) && n == Min(ready, offered)
      ensures 1 <= n <= |Pending(old(outqueue)[..Room(cfg, old(Queues()))])| && Queues() == Send(old(Queues()), n)
    {
      var room := if cfg.maxWaitpduLen == 0 then |outqueue| else Min(cfg.maxWaitpduLen - waitpduLen, |outqueue|);
      n, offered := Writev(ready, room, cap);
      AccountFor(n);
    }

    /** Gathers the vectors; the socket accepts of them what it is ready for. */
    method Writev(ready: Positive, room: nat, cap: nat) returns (n: nat, offered: nat)
      requires HeadOnly(outqueue) && AllReady(cfg, mem.Length, outqueue)
      requires 0 < room <= |outqueue| && 0 < cap
      ensures n == Min(ready, offered) && 1 <= offered <= |Pending(outqueue[..room])|
      ensures BufferCount(outqueue[..room]) < cap ==> offered == |Pending(outqueue[..room])|
    {
      NothingSentYet(cfg, mem.Length, outqueue);
      var iov, num := GatherVectors(outqueue, room, cap, []);
      PendingPrefix(outqueue[..room], num);
      assert outqueue[..room][..num] == outqueue[..num];
      offered := |Flatten(iov)|;
      n := Min(ready, offered);
    }

    static lemma NothingSentYet(cfg: Config, n: nat, q: seq<Pdu>)
      requires HeadOnly(q) && AllReady(cfg, n, q)
      ensures forall i :: 0 <= i < |q| ==> q[i].out.numDone < |Record(q[i])|
    {
      forall i | 0 <= i < |q| ensures q[i].out.numDone < |Record(q[i])| {
        assert Ready(cfg, n, q[i]);
      }
    }

    // -------------------------------------------------------------- rpc_read_from_socket

    /** The reader waits for bytes. */
    ghost predicate Ready4Input()
      reads this
    {
      !state.STOPPED? && !state.CRASHED?
    }

    /** The switch at the top of the read loop, which runs when `inpos` is zero. */
    method Setup()
      requires Buffers() && Ready4Input() && ReaderOk(cfg, mem[..], Reader())
      modifies this`inpos, this`pduSize
      ensures Buffers() && Reader() == old(Reader()) && inpos < pduSize && pduSize - inpos == Reader().need
      ensures state == old(state) && (state.READ_PAYLOAD? || state.READ_UNKNOWN? ==> inpos > 0)
    {
      if inpos == 0 {
        match state
        case READ_RM => pduSize := 8;
        case READ_PAYLOAD =>
          inpos := 4;
          pduSize := if pdu.value.inp.zeroCopy && rmLen > ZCRP then ZCRP else rmLen;
        case READ_UNKNOWN => inpos, pduSize := 4, rmLen;
        case READ_IOVEC => pduSize := readCount;
        case READ_PADDING => pduSize := rmLen;
      }
    }

    /** Where `recv` or `readv` puts the bytes. */
    method Store(data: seq<byte>)
      requires Buffers() && Ready4Input() && Waiting(data)
      requires (state.READ_PAYLOAD? || state.READ_IOVEC? ==> pdu.Some?) && (state.READ_PADDING? ==> |data| <= |inbuf|)
      modifies this`inpos, this`rm, this`inbuf, this`pdu, this`got, mem
      ensures Buffers() && View() == Absorb(old(View()), data) && state == old(state) && inpos > 0
    {
      match state
      case READ_RM => StoreMarker(data);
      case READ_PAYLOAD => StorePayload(data);
      case READ_UNKNOWN => StoreGarbage(inpos, data);
      case READ_IOVEC => StoreVectors(data);
      case READ_PADDING => StoreGarbage(0, data);
    }

    /** The set-up has run and `data` is no longer than what is missing. */
    ghost predicate Waiting(data: seq<byte>)
      reads this
    {
      && inpos < pduSize && pduSize - inpos == Reader().need && 0 < |data| <= Reader().need
      && (state.READ_PAYLOAD? || state.READ_UNKNOWN? ==> inpos > 0)
    }

    method StoreMarker(data: seq<byte>)
      requires Buffers() && state.READ_RM? && Waiting(data)
      modifies this`inpos, this`rm
      ensures Buffers() && Reader() == Buffered(old(Reader()), data) && inpos == old(inpos) + |data|
    {
      rm := StoreAt(rm, inpos, data);
      inpos := inpos + |data|;
    }

    method StorePayload(data: seq<byte>)
      requires Buffers() && state.READ_PAYLOAD? && Waiting(data)
      modifies this`inpos, this`inbuf
      ensures Buffers() && Reader() == Buffered(old(Reader()), data) && inpos == old(inpos) + |data|
    {
      inbuf := StoreAt(inbuf, inpos, data);
      inpos := inpos + |data|;
    }

    /** Bytes of an unknown reply or padding are stored and never looked at. */
    method StoreGarbage(at: nat, data: seq<byte>)
      requires Buffers() && (state.READ_UNKNOWN? || state.READ_PADDING?) && Waiting(data) && at + |data| <= |inbuf|
      modifies this`inpos, this`inbuf
      ensures Buffers() && Reader() == Buffered(old(Reader()), data) && inpos == old(inpos) + |data|
    {
      inbuf := StoreAt(inbuf, at, data);
      inpos := inpos + |data|;
    }

    /** `readv` into the user's buffers, then `rpc_advance_cursor`. */
    method StoreVectors(data: seq<byte>)
      requires Buffers() && state.READ_IOVEC? && pdu.Some? && Waiting(data)
      modifies this`inpos, this`pdu, this`got, mem
      ensures Buffers() && View() == Scattered(old(View()), old(pdu).value, data) && inpos == old(inpos) + |data|
    {
      hide Scatter;
      var p := pdu.value;
      ScatterInto(Take(p.inp.todo, |data|), data);
      pdu := Some(p.(inp := p.inp.(todo := Drop(p.inp.todo, |data|))));
      got := got + data;
      inpos := inpos + |data|;
    }

    /** Stores bytes at the given addresses of user memory. */
    method ScatterInto(at: seq<nat>, data: seq<byte>)
      modifies mem
      ensures mem[..] == Scatter(old(mem[..]), at, data)
    {
      var i := 0;
      assert at[0..] == at && data[0..] == data;
      while i < |at| && i < |data|
        invariant 0 <= i <= |at| && i <= |data|
        invariant Scatter(old(mem[..]), at, data) == Scatter(mem[..], at[i..], data[i..])
      {
        ghost var before := mem[..];
        if at[i] < mem.Length {
          mem[at[i]] := data[i];
          assert mem[..] == before[at[i] := data[i]];
        }
        assert at[i..][1..] == at[i + 1..] && data[i..][1..] == data[i + 1..];
        i := i + 1;
      }
    }

    /** The reader gives up: the caller of `rpc_read_from_socket` will reconnect. */
    method Stop()
      modifies this`state
      ensures state == STOPPED
    {
      state := STOPPED;
    }

    /** A record marker and an xid have been read. */
    method OnMarker()
      requires Buffers() && state.READ_RM? && inpos == 8
      modifies this`outqueue, this`waitpdu, this`waitpduLen, this`wire, this`state, this`inbuf, this`inpos,
               this`pdu, this`rmLen
      ensures Buffers()
      ensures var s, size, (q, found) := old(View()), Word(rm, 0) - 0x8000_0000, Find(old(Queues()), Word(rm, 4));
              if size < 8 || size > MAX_FRAGMENT_SIZE then Started(s.(rd := Stopped(Failed, None)))
              else Started(StartRecord(s.(q := q), found, Drop(rm, 4), size))
    {
      hide Find, StartRecord, Word;
      ghost var s := View();
      pdu := None;
      var marker := Word(rm, 0);
      if marker < 0x8000_0000 || marker - 0x8000_0000 < 8 || marker - 0x8000_0000 > MAX_FRAGMENT_SIZE {
        Stop();
      } else {
        rmLen := marker - 0x8000_0000;
        assert View() == s;
        OnRecord(Word(rm, 4));
      }
    }

    static lemma MarkerCases(s: State)
      ensures var size, xid := Word(s.rd.buf, 0) - 0x8000_0000, Word(s.rd.buf, 4);
              if size < 8 || size > MAX_FRAGMENT_SIZE then FinishMarker(s) == Fail(s)
              else FinishMarker(s) == StartRecord(s.(q := Find(s.q, xid).0), Find(s.q, xid).1, Drop(s.rd.buf, 4), size)
    {
    }

    /** The size of the record is acceptable. */
    method OnRecord(xid: uint32)
      requires Buffers() && state.READ_RM? && inpos == 8 && pdu.None? && rmLen >= 8 && xid == Word(rm, 4)
      modifies this`outqueue, this`waitpdu, this`waitpduLen, this`wire, this`state, this`inbuf, this`inpos, this`pdu
      ensures Buffers()
      ensures var (q, found) := Find(old(Queues()), xid);
              Started(StartRecord(old(View()).(q := q), found, Drop(rm, 4), rmLen))
    {
      hide Find, StartRecord;
      ghost var s := View();
      var found := FindPdu(xid);
      assert View() == s.(q := Find(s.q, xid).0);
      Admit(found);
    }

    /** Makes room for the reply, or puts the PDU back if that is impossible. */
    method Admit(found: Option<Pdu>)
      requires Buffers() && state.READ_RM? && inpos == 8 && pdu.None? && rmLen >= 8
      modifies this`outqueue, this`state, this`inbuf, this`inpos, this`pdu
      ensures Buffers() && Started(StartRecord(old(View()), found, Drop(rm, 4), rmLen))
    {
      var want := if found.Some? && found.value.inp.zeroCopy then ZCRP else rmLen;
      var grown := AdjustInbuf(want);
      if grown {
        BeginRecord(found, Word(rm, 4));
      } else {
        if found.Some? {
          ReturnToOutqueue(found.value);
        }
        Stop();
      }
    }

    /** The record of a reply for `found`, or for nobody, begins. */
    method BeginRecord(found: Option<Pdu>, xid: uint32)
      requires |rm| == 8 && |inbuf| <= INBUF_LIMIT && rmLen >= 8 && xid == Word(rm, 4)
      requires if found.Some? then PayloadSpan(found.value, rmLen) <= |inbuf| else rmLen <= |inbuf|
      modifies this`state, this`inbuf, this`inpos, this`pdu
      ensures Buffers()
      ensures Reader() == if found.None? then Transport.Reader(Unknown, [], rmLen - 4, rmLen, rmLen, [], None)
                                       else InPayload(found.value, Drop(rm, 4), rmLen)
    {
      BeOfWord(rm, 4);
      inbuf := StoreAt(inbuf, 0, Be32(xid));
      assert Take(inbuf, 4) == [] + rm[4..8] == Drop(rm, 4);
      inpos, pdu := 0, found;
      state := if found.None? then READ_UNKNOWN else READ_PAYLOAD;
    }

    /** `adjust_inbuf`. */
    method AdjustInbuf(size: nat) returns (ok: bool)
      requires |inbuf| <= INBUF_LIMIT
      modifies this`inbuf
      ensures ok <==> size <= INBUF_LIMIT
      ensures |inbuf| <= INBUF_LIMIT && (ok ==> size <= |inbuf|)
    {
      if |inbuf| < size {
        if size > INBUF_LIMIT { return false; }
        inbuf := inbuf + seq(size - |inbuf|, _ => 0);
      }
      return true;
    }

    /** Invokes a user callback. */
    method Callback(p: Pdu, status: Status, reply: seq<byte>, buffer: Option<seq<byte>>)
      modifies this`log
      ensures log == old(log) + [Completion(p.id, p.xid, status, reply, buffer)]
    {
      log := log + [Completion(p.id, p.xid, status, reply, buffer)];
    }

    /** Reads back what the user's buffers hold. */
    method ReadBack(at: seq<nat>) returns (b: seq<byte>)
      ensures b == Gather(mem[..], at)
    {
      b := [];
      for i := 0 to |at|
        invariant |b| == i && forall k :: 0 <= k < i ==> b[k] == (if at[k] < mem.Length then mem[at[k]] else 0)
      {
        b := b + [if at[i] < mem.Length then mem[at[i]] else 0];
      }
    }

    /** `rpc_finished_pdu`; `received` are the data bytes of a zero-copy READ. */
    method FinishedPdu(p: Pdu, received: seq<byte>)
      requires |rm| == 8 && |inbuf| <= INBUF_LIMIT
      modifies this`log, this`state, this`inpos, this`pdu
      ensures Buffers() && Agrees(FinishPdu(old(View()), p, received))
    {
      if p.inp.freePdu {
        var b := ReadBack(Take(p.inp.addrs, |received|));
        Callback(p, SUCCESS, received, Some(b));
      }
      state, inpos, pdu := READ_RM, 0, None;
    }

    /** The buffered part of a reply is complete: `rpc_process_pdu` and what follows it. */
    method OnPayload(now: nat)
      requires Buffers() && state.READ_PAYLOAD? && pdu.Some? && inpos == pduSize > 0
               && pdu.value.inp.todo == pdu.value.inp.addrs
      modifies this`log, this`state, this`inpos, this`pdu, this`readCount, this`got, this`rmLen, this`lastSuccess,
               this`poisoned, mem
      ensures Buffers() && Agrees(FinishPayload(old(View()), old(pdu).value, now))
    {
      var p, b := pdu.value, Take(inbuf, inpos);
      var h := ReplyHeader(b);
      if h.Astray? {
        poisoned := true;
        state := CRASHED;
      } else if p.inp.zeroCopy {
        OnReadReply(p, h, if h.Accepted? then ReadResult(b, h.pos) else BadResult, now);
      } else {
        var ok := h.Accepted? && cfg.decodes(p.id, b, h.pos);
        Callback(p, if ok then SUCCESS else ERROR, b, None);
        lastSuccess := if ok then now else lastSuccess;
        state, inpos, pdu := READ_RM, 0, None;
      }
    }

    /** The preamble of a reply to a zero-copy READ has been decoded. */
    method OnReadReply(p: Pdu, h: Header, r: Read3, now: nat)
      requires Buffers() && state.READ_PAYLOAD? && pdu == Some(p) && inpos == pduSize > 0 && p.inp.todo == p.inp.addrs
      modifies this`log, this`state, this`inpos, this`pdu, this`readCount, this`got, this`rmLen, this`lastSuccess,
               this`poisoned, mem
      ensures Buffers() && Agrees(FinishReadReply(old(View()), p, h, r, now))
    {
      ghost var s := View();
      if h.Refused? || r.BadResult? {
        Callback(p, ERROR, Take(inbuf, inpos), None);
        poisoned := !h.Refused? || poisoned || !RefusedButDone(Take(inbuf, inpos), p);
        assert h.Refused? ==> View() == ReportRefused(s, p);
        assert h.Refused? || View() == Report(s, p, ERROR, s.rd.buf, None).(poisoned := true);
        if h.Refused? {
          BeginData(p, h.pos);
        } else {
          state := CRASHED;
        }
      } else {
        lastSuccess := now;
        assert View() == s.(lastOk := now);
        OnRead(Owed(p), r);
      }
    }

    /** A decoded READ3 result. */
    method OnRead(p: Pdu, r: Read3)
      requires Buffers() && state.READ_PAYLOAD? && inpos == pduSize > 0 && !r.BadResult?
      requires p.inp.todo == p.inp.addrs
      modifies this`log, this`state, this`inpos, this`pdu, this`readCount, this`got, this`rmLen, mem
      ensures Buffers()
      ensures Agrees(if r.FailedRead? then FinishPdu(old(View()), p, []) else StartData(old(View()), p, r.pos))
    {
      if r.FailedRead? {
        FinishedPdu(p, []);
      } else {
        BeginData(p, r.pos);
      }
    }

    /** Copies the data of the preamble into the user's buffers and switches to `readv` for the rest.
        `at` is the position of the data length word. */
    method BeginData(p: Pdu, at: nat)
      requires Buffers() && state.READ_PAYLOAD? && inpos == pduSize > 0
      requires p.inp.todo == p.inp.addrs
      modifies this`log, this`state, this`inpos, this`pdu, this`readCount, this`got, this`rmLen, mem
      ensures Buffers() && Agrees(StartData(old(View()), p, at))
    {
      hide Word, Transport.CopyData;
      var b := Take(inbuf, inpos);
      ghost var s := View();
      assert s.rd == Transport.Reader(Payload, b, 0, pduSize, rmLen, [], pdu);
      if at + 4 > |b| {
        pdu := Some(p);
        Stop();
      } else {
        var count, n := Clamp(b, |p.inp.addrs|, at);
        CopyData(p, b[at + 4..at + 4 + n], count, Wrap32(rmLen - (at + 4 + n)));
      }
    }

    /** How much data there is and how much of it came with the preamble `b`. */
    static method Clamp(b: seq<byte>, requested: nat, at: nat) returns (count: nat, n: nat)
      requires at + 4 <= |b|
      ensures count == Min(Word(b, at), requested) && n == Min(|b| - (at + 4), count)
    {
      count := Word(b, at);
      if count > requested {
        count := requested;
      }
      n := |b| - (at + 4);
      if n > count {
        n := count;
      }
    }

    /** The first `data` of `count` bytes go to the user's buffers; `left` bytes of the record remain. */
    method CopyData(p: Pdu, data: seq<byte>, count: nat, left: uint32)
      requires |rm| == 8 && 0 < |inbuf| <= INBUF_LIMIT && |data| <= count <= |p.inp.todo|
      modifies this`log, this`state, this`inpos, this`pdu, this`readCount, this`got, this`rmLen, mem
      ensures Buffers() && Agrees(Transport.CopyData(old(View()), p, data, count, left))
    {
      hide Scatter, FinishPdu, Reader;
      var todo, n := Take(p.inp.todo, count), |data|;
      ScatterInto(Take(todo, n), data);
      if n == count {
        FinishedPdu(p.(inp := p.inp.(todo := [])), data);
      } else {
        AwaitData(p.(inp := p.inp.(todo := Drop(todo, n))), data, count - n, left);
      }
    }

    /** The rest of the data goes straight into the user's buffers. */
    method AwaitData(p: Pdu, data: seq<byte>, missing: nat, left: uint32)
      requires |rm| == 8 && 0 < |inbuf| <= INBUF_LIMIT
      modifies this`state, this`inpos, this`pdu, this`readCount, this`got, this`rmLen
      ensures Buffers() && Reader() == Transport.Reader(Iovecs, [], missing, missing, left, data, Some(p))
    {
      pdu := Some(p);
      readCount, got, rmLen := missing, data, left;
      state, inpos := READ_IOVEC, 0;
    }

    /** All of the data has been read into the user's buffers. */
    method OnIovec()
      requires Buffers() && state.READ_IOVEC? && pdu.Some? && inpos == pduSize > 0
      modifies this`log, this`state, this`inpos, this`pdu, this`rmLen
      ensures Buffers() && Agrees(FinishIovecs(old(View()), old(pdu).value))
    {
      hide Gather;
      rmLen := Wrap32(rmLen - pduSize);
      if rmLen == 0 {
        FinishedPdu(pdu.value, got);
      } else {
        state, inpos := READ_PADDING, 0;
      }
    }

    /** The switch at the bottom of the read loop. */
    method OnComplete(now: nat)
      requires Buffers() && Ready4Input() && Partial(cfg, mem[..], Reader()) && Owing(View()) && inpos > 0
               && Reader().need == 0
      modifies this, mem
      ensures Buffers() && View() == Finish(old(View()), now)
    {
      if state.READ_RM? {
        CompleteMarker(now);
      } else {
        CompleteOther(now);
      }
    }

    method CompleteMarker(now: nat)
      requires Buffers() && state.READ_RM? && inpos == 8
      modifies this`outqueue, this`waitpdu, this`waitpduLen, this`wire, this`state, this`inbuf, this`inpos,
               this`pdu, this`rmLen
      ensures Buffers() && View() == Finish(old(View()), now)
    {
      hide Find, StartRecord, Word, FinishMarker;
      ghost var s := View();
      assert s.rd.buf == rm by { assert Take(rm, 8) == rm; }
      MarkerCases(s);
      FinishMarkerFrame(s);
      OnMarker();
      assert View() == FinishMarker(s);
    }

    method CompleteOther(now: nat)
      requires Buffers() && Ready4Input() && !state.READ_RM? && Partial(cfg, mem[..], Reader()) && Owing(View())
      requires inpos > 0 && Reader().need == 0
      modifies this`log, this`state, this`inpos, this`pdu, this`readCount, this`got, this`rmLen, this`lastSuccess,
               this`poisoned, mem
      ensures Buffers() && View() == Finish(old(View()), now)
    {
      hide FinishPayload, FinishIovecs, FinishPdu, FinishMarker;
      ghost var s := View();
      FinishFrame(s, now);
      OnOther(now);
      assert View() == Finish(s, now);
    }

    method OnOther(now: nat)
      requires Buffers() && Ready4Input() && !state.READ_RM? && Partial(cfg, mem[..], Reader()) && inpos > 0
               && Reader().need == 0
      modifies this`log, this`state, this`inpos, this`pdu, this`readCount, this`got, this`rmLen, this`lastSuccess,
               this`poisoned, mem
      ensures Buffers() && Agrees(Finish(old(View()), now))
    {
      match state
      case READ_PAYLOAD => OnPayload(now);
      case READ_UNKNOWN => state, inpos := READ_RM, 0;
      case READ_IOVEC => OnIovec();
      case READ_PADDING => FinishedPdu(pdu.value, got);
    }

    /** `rpc_read_from_socket`. `stream` is what the socket has; `cuts` says how many bytes successive
        calls of `recv` and `readv` return, at least one and no more than they are offered. After the
        last of them, or when the stream is used up, the next call would block. */
    method ReadFromSocket(stream: seq<byte>, cuts: seq<nat>, now: nat) returns (ok: bool, consumed: nat)
      requires Valid()
      modifies this, mem
      ensures Valid() && consumed <= |stream|
      ensures View() == RecordReader.Feed(old(View()), stream[..consumed], now)
      ensures ok <==> !View().rd.phase.Failed?
      ensures !state.STOPPED? && !state.CRASHED? ==> consumed == |stream| || consumed >= |cuts|
    {
      hide RecordReader.Feed;
      hide Recv;
      ghost var s0 := View();
      assert stream[..0] == [] && RecordReader.Feed(s0, [], now) == s0 by { RecordReader.FeedNothing(s0, now); }
      consumed := 0;
      var i := 0;
      while i < |cuts| && consumed < |stream| && !state.STOPPED? && !state.CRASHED?
        invariant 0 <= i <= |cuts| && i <= consumed <= |stream| && Valid()
        invariant View() == RecordReader.Feed(s0, stream[..consumed], now)
      {
        var rest := stream[consumed..];
        var n := Receive(rest, cuts[i], now);
        RecordReader.FeedMore(s0, stream[..consumed], rest[..n], now);
        Slices(stream, consumed, n);
        consumed := consumed + n;
        i := i + 1;
      }
      ok := !state.STOPPED?;
    }

    static lemma Slices(s: seq<byte>, i: nat, n: nat)
      requires i + n <= |s|
      ensures s[..i] + s[i..][..n] == s[..i + n]
    {
    }

    /** One turn of the read loop: set up, read some bytes, and act if that completes something. */
    method Receive(stream: seq<byte>, cut: nat, now: nat) returns (n: nat)
      requires Valid() && Ready4Input() && stream != []
      modifies this, mem
      ensures Valid() && 1 <= n <= |stream| && n <= old(View()).rd.need
      ensures View() == Recv(old(View()), stream[..n], now)
    {
      ghost var s := View();
      Setup();
      n := Offered(cut, |stream|);
      RecvOk(s, stream[..n], now);
      assert View() == s;
      TakeIn(stream[..n], now);
    }

    /** How many bytes the next call is allowed to return; padding is read into `inbuf` piecemeal. */
    method Offered(cut: nat, available: nat) returns (n: nat)
      requires Buffers() && inpos < pduSize && available > 0
      ensures 1 <= n <= available && n <= pduSize - inpos && (state.READ_PADDING? ==> n <= |inbuf|)
    {
      var count := pduSize - inpos;
      if state.READ_PADDING? && count > |inbuf| {
        count := |inbuf|;
      }
      n := Min(if cut == 0 then 1 else cut, Min(count, available));
    }

    method TakeIn(data: seq<byte>, now: nat)
      requires Buffers() && Ready4Input() && Waiting(data) && (state.READ_PADDING? ==> |data| <= |inbuf|)
      requires Sane(View()) && ReaderOk(cfg, mem[..], Reader()) && Owing(View())
      modifies this, mem
      ensures Buffers() && View() == Recv(old(View()), data, now)
    {
      hide QueuesOk, LogOk, Filling, Sound, Finish;
      AbsorbOk(View(), data);
      Store(data);
      if inpos == pduSize {
        OnComplete(now);
      }
    }

    // -------------------------------------------------------------- rpc_timeout_scan

    /** `rpc_timeout_scan`; `need` is a return value of -1. */
    method TimeoutScan(t: nat) returns (need: bool)
      modifies this`outqueue, this`waitpdu, this`waitpduLen, this`wire, this`log, this`lastTimeoutScan
      ensures if TooSoon(old(View()), t) then View() == old(View()) && !need
              else View() == Swept(old(View()), t) && need == NeedReconnect(old(View()), t)
      ensures lastTimeoutScan == if t > old(lastTimeoutScan) + 1000 then t else old(lastTimeoutScan)
      ensures 0 < old(lastSuccess) <= t && t - old(lastSuccess) < 0x8000_0000 ==>
                (need <==> t > old(lastTimeoutScan) + 1000 && t - old(lastSuccess) > cfg.timeout
                           && exists h, i :: 0 <= h < |old(waitpdu)| && 0 <= i < |old(waitpdu)[h]|
                                             && Unanswered(cfg, old(waitpdu)[h][i], t))
      ensures old(lastSuccess) == 0 ==>
                (need <==> t > old(lastTimeoutScan) + 1000 && -1 > cfg.timeout
                           && exists h, i :: 0 <= h < |old(waitpdu)| && 0 <= i < |old(waitpdu)[h]|
                                             && Unanswered(cfg, old(waitpdu)[h][i], t))
    {
      ReconnectAskedIff(View(), t);
      hide SweptQueues, ScanQueued, ScanTable, NeedReconnect, Reader;
      ghost var s := View();
      if t <= lastTimeoutScan + 1000 {
        need := false;
      } else {
        need := EffectiveScan(t);
        assert View() == Swept(s, t);
      }
    }

    method EffectiveScan(t: nat) returns (need: bool)
      modifies this`outqueue, this`waitpdu, this`waitpduLen, this`wire, this`log, this`lastTimeoutScan
      ensures Queues() == SweptQueues(cfg, old(Queues()), t) && lastTimeoutScan == t
      ensures log == old(log) + ScanQueued(cfg, old(outqueue), t).1 + ScanTable(cfg, old(waitpdu), t).log
      ensures need == NeedReconnect(old(View()), t)
    {
      hide ScanQueued, ScanTable, ReturnAll, MajorTimeout, Reader, HalfSent, ExpiredQueued, Retryable, AsInt32, Concat;
      var silent := if lastSuccess == 0 then -1 else AsInt32((t - lastSuccess) % 0x1_0000_0000_0000_0000);
      lastTimeoutScan := t;
      ScanOutqueue(t);
      var major := ScanWaiting(t);
      need := major && silent > cfg.timeout;
    }

    /** The loop over PDUs that have not been sent. */
    method ScanOutqueue(t: nat)
      modifies this`outqueue, this`wire, this`log
      ensures outqueue == ScanQueued(cfg, old(outqueue), t).0 && log == old(log) + ScanQueued(cfg, old(outqueue), t).1
      ensures wire == old(wire).(torn := old(wire).torn
              || (HalfSent(old(outqueue)) && ExpiredQueued(old(outqueue)[0], t)
                                                            && !Retryable(cfg, old(outqueue)[0])))
    {
      hide ScanQueued, SetTimeout;
      ghost var q := outqueue;
      var i := 0;
      ghost var j := 0;
      ScanQueuedNone(cfg, q, log, t);
      while i < |outqueue|
        invariant 0 <= i <= |outqueue| && j + |outqueue| - i == |q| && 0 <= j <= |q|
        invariant outqueue[..i] == ScanQueued(cfg, q[..j], t).0 && outqueue[i..] == q[j..]
        invariant log == old(log) + ScanQueued(cfg, q[..j], t).1 && wire == old(wire)
        decreases |outqueue| - i
      {
        ScanQueuedStep(cfg, q, j, t);
        var p := outqueue[i];
        assert p == q[j] && outqueue[i + 1..] == q[j + 1..];
        ghost var done := outqueue[..i];
        if !ExpiredQueued(p, t) {
          i := i + 1;
          assert outqueue[..i] == done + [p];
        } else if Retryable(cfg, p) {
          var timer := SetTimeout(cfg, p.timer.(timeout := 0, majorTimeout := 0), t);
          outqueue := outqueue[i := p.(timer := timer)];
          i := i + 1;
          assert outqueue[..i] == done + [Deferred(cfg, p, t)];
        } else {
          outqueue := outqueue[..i] + outqueue[i + 1..];
          assert outqueue[..i] == done;
          ghost var before := ScanQueued(cfg, q[..j], t).1;
          assert old(log) + before + [TimedOut(p)] == old(log) + (before + [TimedOut(p)]);
          Callback(p, TIMEOUT, [], None);
        }
        j := j + 1;
      }
      assert outqueue[..i] == outqueue && q[..j] == q;
      wire := wire.(torn := wire.torn || (HalfSent(q) && ExpiredQueued(q[0], t) && !Retryable(cfg, q[0])));
    }

    static lemma ScanQueuedNone(cfg: Config, q: seq<Pdu>, log: seq<Completion>, t: nat)
      ensures q[..0] == [] && ScanQueued(cfg, [], t) == ([], []) && log + [] == log && q[0..] == q
    {
    }

    static lemma ScanQueuedStep(cfg: Config, q: seq<Pdu>, j: nat, t: nat)
      requires j < |q|
      ensures var (r, log), p := ScanQueued(cfg, q[..j], t), q[j];
              ScanQueued(cfg, q[..j + 1], t) == if !ExpiredQueued(p, t) then (r + [p], log)
                                                else if Retryable(cfg, p) then (r + [Deferred(cfg, p, t)], log)
                                                else (r, log + [TimedOut(p)])
    {
      assert q[..j + 1][..j] == q[..j];
    }

    /** The loop over the wait table. */
    method ScanWaiting(t: nat) returns (major: bool)
      modifies this`outqueue, this`waitpdu, this`waitpduLen, this`log
      ensures var w := ScanTable(cfg, old(waitpdu), t);
              && waitpdu == w.kept && outqueue == ReturnAll(old(outqueue), w.again) && log == old(log) + w.log
              && waitpduLen == old(waitpduLen) - |w.again| - |w.log|
      ensures major == MajorTimeout(cfg, Concat(old(waitpdu)), t)
    {
      hide ScanSent, ScanTable, MajorTimeout, ReturnAll, Concat;
      ghost var w, q, before, len := waitpdu, outqueue, log, waitpduLen;
      major := false;
      var h := 0;
      assert w[..0] == [] && w[0..] == w;
      TableStart(cfg, outqueue, log, t);
      while h < |waitpdu|
        invariant 0 <= h <= |waitpdu| == |w|
        invariant ScannedTo(w, q, before, len, h, t) && major == MajorTimeout(cfg, Concat(w[..h]), t)
      {
        var m := ScanNext(h, t, w, q, before, len, major);
        major := major || m;
        h := h + 1;
      }
      TableEnd(cfg, w, t);
    }

    /** The first `h` buckets have been scanned. */
    ghost predicate ScannedTo(w: seq<seq<Pdu>>, q: seq<Pdu>, before: seq<Completion>, len: int, h: nat, t: nat)
      requires h <= |w|
      reads this`waitpdu, this`outqueue, this`log, this`waitpduLen
    {
      var r := ScanTable(cfg, w[..h], t);
      && waitpdu == r.kept + w[h..] && outqueue == ReturnAll(q, r.again)
      && log == before + r.log && waitpduLen == len - |r.again| - |r.log|
    }

    method ScanNext(h: nat, t: nat, ghost w: seq<seq<Pdu>>, ghost q: seq<Pdu>, ghost before: seq<Completion>,
                    ghost len: int, ghost major: bool)
      returns (m: bool)
      requires h < |w| == |waitpdu| && ScannedTo(w, q, before, len, h, t)
      requires major == MajorTimeout(cfg, Concat(w[..h]), t)
      modifies this`outqueue, this`waitpdu, this`waitpduLen, this`log
      ensures |waitpdu| == |w| && ScannedTo(w, q, before, len, h + 1, t)
      ensures (major || m) == MajorTimeout(cfg, Concat(w[..h + 1]), t)
    {
      hide ScanSent, ScanTable, MajorTimeout, ReturnAll, Concat;
      TableStep(cfg, w, h, t, q, before);
      m := ScanBucket(h, t);
    }

    static lemma TableEnd(cfg: Config, w: seq<seq<Pdu>>, t: nat)
      ensures w[..|w|] == w && ScanTable(cfg, w, t).kept + w[|w|..] == ScanTable(cfg, w, t).kept
    {
      assert w[|w|..] == [];
    }

    static lemma TableStart(cfg: Config, q: seq<Pdu>, log: seq<Completion>, t: nat)
      ensures ScanTable(cfg, [], t) == TableSweep([], [], []) && ReturnAll(q, []) == q && log + [] == log
      ensures Concat<Pdu>([]) == [] && !MajorTimeout(cfg, [], t)
    {
    }

    static lemma TableStep(cfg: Config, w: seq<seq<Pdu>>, h: nat, t: nat, q: seq<Pdu>, log: seq<Completion>)
      requires h < |w|
      ensures var r, r', b := ScanTable(cfg, w[..h], t), ScanTable(cfg, w[..h + 1], t), ScanSent(cfg, w[h], t);
              && r' == TableSweep(r.kept + [b.kept], r.again + b.again, r.log + b.log)
              && |r.kept| == h && (r.kept + w[h..])[h] == w[h]
              && (r.kept + w[h..])[h := b.kept] == r'.kept + w[h + 1..]
              && ReturnAll(ReturnAll(q, r.again), b.again) == ReturnAll(q, r'.again)
              && log + r.log + b.log == log + r'.log
              && MajorTimeout(cfg, Concat(w[..h + 1]), t)
                 == (MajorTimeout(cfg, Concat(w[..h]), t) || MajorTimeout(cfg, w[h], t))
    {
      hide MajorTimeout, ReturnAll, ScanSent, Concat;
      assert w[..h + 1][..h] == w[..h] && w[..h + 1] == w[..h] + [w[h]];
      ConcatSnoc(w[..h], w[h]);
      MajorAppend(cfg, Concat(w[..h]), w[h], t);
      ReturnAllAppend(q, ScanTable(cfg, w[..h], t).again, ScanSent(cfg, w[h], t).again);
    }

    static lemma MajorAppend(cfg: Config, a: seq<Pdu>, b: seq<Pdu>, t: nat)
      ensures MajorTimeout(cfg, a + b, t) == (MajorTimeout(cfg, a, t) || MajorTimeout(cfg, b, t))
    {
      var c := a + b;
      if i :| 0 <= i < |a| && ExpiredSent(a[i], t) && Retryable(cfg, a[i]) && a[i].timer.majorTimeout <= t {
        assert c[i] == a[i];
      }
      if i :| 0 <= i < |b| && ExpiredSent(b[i], t) && Retryable(cfg, b[i]) && b[i].timer.majorTimeout <= t {
        assert c[|a| + i] == b[i];
      }
    }

    static lemma {:induction false} ReturnAllAppend(q: seq<Pdu>, a: seq<Pdu>, b: seq<Pdu>)
      ensures ReturnAll(ReturnAll(q, a), b) == ReturnAll(q, a + b)
      decreases |a|
    {
      if a == [] {
        assert a + b == b;
      } else {
        assert (a + b)[1..] == a[1..] + b;
        ReturnAllAppend(AfterHead(q, Rewound(a[0])), a[1..], b);
      }
    }

    /** The loop over one bucket; tells whether a retryable PDU reached its major deadline. */
    method ScanBucket(h: nat, t: nat) returns (major: bool)
      requires h < |waitpdu|
      modifies this`outqueue, this`waitpdu, this`waitpduLen, this`log
      ensures var w := ScanSent(cfg, old(waitpdu[h]), t);
              && waitpdu == old(waitpdu)[h := w.kept] && outqueue == ReturnAll(old(outqueue), w.again)
              && log == old(log) + w.log && waitpduLen == old(waitpduLen) - |w.again| - |w.log|
      ensures major == MajorTimeout(cfg, old(waitpdu[h]), t)
    {
      hide ReturnAll, MajorTimeout, ScanSent;
      ghost var q := waitpdu[h];
      major := false;
      var i := 0;
      ghost var j := 0;
      assert q[..0] == [];
      BucketStart(cfg, outqueue, log, t);
      ghost var r := ScanSent(cfg, q[..0], t);
      while i < |waitpdu[h]|
        invariant 0 <= j <= |q| && h < |waitpdu| && 0 <= i <= |waitpdu[h]|
        invariant waitpdu == old(waitpdu)[h := waitpdu[h]]
        invariant r == ScanSent(cfg, q[..j], t) && waitpdu[h] == r.kept + q[j..] && i == |r.kept|
        invariant outqueue == ReturnAll(old(outqueue), r.again) && log == old(log) + r.log
        invariant waitpduLen == old(waitpduLen) - |r.again| - |r.log|
        invariant major == MajorTimeout(cfg, q[..j], t)
        decreases |q| - j
      {
        BucketStep(cfg, q, j, t, old(outqueue), old(log));
        var p := waitpdu[h][i];
        assert p == q[j];
        if !ExpiredSent(p, t) {
          i := i + 1;
        } else {
          waitpdu := waitpdu[h := waitpdu[h][..i] + waitpdu[h][i + 1..]];
          waitpduLen := waitpduLen - 1;
          if Retryable(cfg, p) {
            major := major || p.timer.majorTimeout <= t;
            ReturnToOutqueue(Retry(cfg, p, t));
          } else {
            Callback(p, TIMEOUT, [], None);
          }
        }
        r := ScanSent(cfg, q[..j + 1], t);
        j := j + 1;
      }
      assert q[..j] == q && q[j..] == [];
      ghost var kept := ScanSent(cfg, q, t).kept;
      assert kept + [] == kept;
    }

    static lemma BucketStart(cfg: Config, q: seq<Pdu>, log: seq<Completion>, t: nat)
      ensures ScanSent(cfg, [], t) == Sweep([], [], []) && ReturnAll(q, []) == q && log + [] == log
              && !MajorTimeout(cfg, [], t)
    {
    }

    static lemma BucketStep(cfg: Config, q: seq<Pdu>, j: nat, t: nat, out: seq<Pdu>, log: seq<Completion>)
      requires j < |q|
      ensures var w, w', p := ScanSent(cfg, q[..j], t), ScanSent(cfg, q[..j + 1], t), q[j];
              && (w.kept + q[j..])[|w.kept|] == p
              && (if !ExpiredSent(p, t) then w' == w.(kept := w.kept + [p]) && w'.kept + q[j + 1..] == w.kept + q[j..]
                  else
                    && (w.kept + q[j..])[..|w.kept|] + (w.kept + q[j..])[|w.kept| + 1..] == w.kept + q[j + 1..]
                    && (if Retryable(cfg, p)
                        then w' == w.(again := w.again + [Retry(cfg, p, t)])
                             && AfterHead(ReturnAll(out, w.again), Rewound(Retry(cfg, p, t)))
                                == ReturnAll(out, w'.again)
                        else w' == w.(log := w.log + [TimedOut(p)]) && log + w.log + [TimedOut(p)] == log + w'.log))
              && MajorTimeout(cfg, q[..j + 1], t)
                 == (MajorTimeout(cfg, q[..j], t)
                     || (ExpiredSent(p, t) && Retryable(cfg, p) && p.timer.majorTimeout <= t))
    {
      hide MajorTimeout, ReturnAll, Retry, ExpiredSent, Retryable;
      assert q[..j + 1][..j] == q[..j] && q[..j + 1] == q[..j] + [q[j]];
      MajorAppend(cfg, q[..j], [q[j]], t);
      MajorOne(cfg, q[j], t);
      var w := ScanSent(cfg, q[..j], t);
      ReturnAllAppend(out, w.again, [Retry(cfg, q[j], t)]);
      ReturnOne(ReturnAll(out, w.again), Retry(cfg, q[j], t));
    }

    static lemma MajorOne(cfg: Config, p: Pdu, t: nat)
      ensures MajorTimeout(cfg, [p], t) == (ExpiredSent(p, t) && Retryable(cfg, p) && p.timer.majorTimeout <= t)
    {
      assert [p][0] == p;
    }

    static lemma ReturnOne(q: seq<Pdu>, p: Pdu)
      ensures ReturnAll(q, [p]) == AfterHead(q, Rewound(p))
    {
      assert [p][1..] == [];
    }

    // -------------------------------------------------------------- rpc_error_all_pdus, rpc_reconnect_requeue

    /** `rpc_error_all_pdus`. */
    method ErrorAllPdus()
      modifies this`outqueue, this`waitpdu, this`wire, this`log
      ensures View() == Purge(old(View()))
      ensures var q := old(outqueue) + Concat(old(waitpdu));
              && old(log) <= log && |log| == |old(log)| + |q|
              && forall i :: 0 <= i < |q| ==> log[|old(log)| + i] == Completion(q[i].id, q[i].xid, ERROR, [], None)
    {
      hide Reader, Errors, Concat, HalfSent;
      ghost var s := View();
      PurgeInOrder(s);
      ghost var half := HalfSent(outqueue);
      var q := outqueue;
      outqueue := [];
      FailAll(q);
      PurgeTable();
      wire := wire.(torn := wire.torn || half);
      assert View() == Purge(s);
    }

    /** Calls back every PDU of a queue, in order. */
    method FailAll(q: seq<Pdu>)
      modifies this`log
      ensures log == old(log) + Errors(q)
    {
      var rest := q;
      while rest != []
        invariant log + Errors(rest) == old(log) + Errors(q)
        decreases |rest|
      {
        ghost var c := Completion(rest[0].id, rest[0].xid, ERROR, [], None);
        assert log + Errors(rest) == log + [c] + Errors(rest[1..]);
        Callback(rest[0], ERROR, [], None);
        rest := rest[1..];
      }
    }

    method PurgeTable()
      modifies this`waitpdu, this`log
      ensures waitpdu == EmptyTable(|old(waitpdu)|) && log == old(log) + Errors(Concat(old(waitpdu)))
    {
      hide Errors, Concat;
      ghost var w := waitpdu;
      var i := 0;
      PurgeStart(log);
      assert w[..0] == [];
      while i < |waitpdu|
        invariant 0 <= i <= |waitpdu| == |w| && waitpdu[i..] == w[i..]
        invariant forall k :: 0 <= k < i ==> waitpdu[k] == []
        invariant log == old(log) + Errors(Concat(w[..i]))
      {
        PurgeStep(w, i, old(log));
        var q := waitpdu[i];
        waitpdu := waitpdu[i := []];
        FailAll(q);
        i := i + 1;
      }
      assert w[..i] == w;
    }

    static lemma PurgeStart(log: seq<Completion>)
      ensures log + Errors(Concat([])) == log
    {
    }

    static lemma PurgeStep(w: seq<seq<Pdu>>, i: nat, log: seq<Completion>)
      requires i < |w|
      ensures log + Errors(Concat(w[..i])) + Errors(w[i]) == log + Errors(Concat(w[..i + 1]))
    {
      assert w[..i + 1] == w[..i] + [w[i]];
      ConcatSnoc(w[..i], w[i]);
      ErrorsAppend(Concat(w[..i]), w[i]);
    }

    static lemma {:induction false} ErrorsAppend(a: seq<Pdu>, b: seq<Pdu>)
      ensures Errors(a + b) == Errors(a) + Errors(b)
    {
      if a == [] {
        assert a + b == b;
      } else {
        assert (a + b)[1..] == a[1..] + b;
        ErrorsAppend(a[1..], b);
      }
    }

    /** Moves everything in flight back to the out queue, bucket by bucket, then the half-read PDU. */
    method RequeueInFlight()
      modifies this`outqueue, this`waitpdu, this`waitpduLen, this`pdu, this`state, this`inpos, this`wire
      requires Buffers()
      ensures Queues() == Requeued(old(Queues()), old(Reader())) && Reader() == BOUNDARY && |waitpdu| == |old(waitpdu)|
      ensures pdu.None? && state.READ_RM? && inpos == 0 && Buffers()
    {
      hide Concat, ReturnAll;
      assert Reader().pdu == pdu;
      if outqueue != [] {
        outqueue := [outqueue[0].(out := outqueue[0].out.(numDone := 0))] + outqueue[1..];
      }
      assert outqueue == Restarted(old(outqueue));
      inpos, state := 0, READ_RM;
      ReturnTable();
      waitpduLen := 0;
      ReturnHalfRead(Restarted(old(outqueue)), Concat(old(waitpdu)));
      wire := NEW_WIRE;
    }

    /** The last step of the requeueing. */
    method ReturnHalfRead(ghost q: seq<Pdu>, ghost ps: seq<Pdu>)
      requires outqueue == ReturnAll(q, ps)
      modifies this`outqueue, this`pdu
      ensures pdu.None? && outqueue == ReturnAll(q, ps + (if old(pdu).Some? then [old(pdu).value] else []))
    {
      ghost var back := if pdu.Some? then [pdu.value] else [];
      ReturnAllAppend(q, ps, back);
      if pdu.Some? {
        ReturnToOutqueue(pdu.value);
        assert back[1..] == [];
        pdu := None;
      }
    }

    method ReturnTable()
      modifies this`outqueue, this`waitpdu
      ensures waitpdu == EmptyTable(|old(waitpdu)|) && outqueue == ReturnAll(old(outqueue), Concat(old(waitpdu)))
    {
      hide Concat, ReturnAll;
      ghost var w := waitpdu;
      var i := 0;
      ReturnStart(outqueue);
      assert w[..0] == [];
      while i < |waitpdu|
        invariant 0 <= i <= |waitpdu| == |w| && waitpdu[i..] == w[i..]
        invariant forall k :: 0 <= k < i ==> waitpdu[k] == []
        invariant outqueue == ReturnAll(old(outqueue), Concat(w[..i]))
      {
        ReturnStep(w, i, old(outqueue));
        ReturnBucket(waitpdu[i]);
        waitpdu := waitpdu[i := []];
        i := i + 1;
      }
      assert w[..i] == w;
    }

    method ReturnBucket(q: seq<Pdu>)
      modifies this`outqueue
      ensures outqueue == ReturnAll(old(outqueue), q)
    {
      var rest := q;
      while rest != []
        invariant ReturnAll(outqueue, rest) == ReturnAll(old(outqueue), q)
        decreases |rest|
      {
        ReturnToOutqueue(rest[0]);
        rest := rest[1..];
      }
    }

    static lemma ReturnStart(q: seq<Pdu>)
      ensures ReturnAll(q, Concat([])) == q
    {
    }

    static lemma ReturnStep(w: seq<seq<Pdu>>, i: nat, q: seq<Pdu>)
      requires i < |w|
      ensures ReturnAll(ReturnAll(q, Concat(w[..i])), w[i]) == ReturnAll(q, Concat(w[..i + 1]))
    {
      assert w[..i + 1] == w[..i] + [w[i]];
      ConcatSnoc(w[..i], w[i]);
      ReturnAllAppend(q, Concat(w[..i]), w[i]);
    }

    /** `rpc_reconnect_requeue`; `connectOk` is the result of `rpc_connect_sockaddr_async`. */
    method ReconnectRequeue(connectOk: bool) returns (ok: bool)
      requires Valid()
      modifies this
      ensures Valid() && View() == Reconnect(old(View()), connectOk)
      ensures ok <==> connectOk && (cfg.autoReconnect < 0
                                    || (cfg.autoReconnect > 0
                                        && (old(isConnected) || old(attempts) < cfg.autoReconnect)))
      ensures ok ==> log == old(log)
      ensures !ok ==> outqueue == [] && forall h :: 0 <= h < |waitpdu| ==> waitpdu[h] == []
      ensures cfg.autoReconnect != 0 ==>
                !isConnected && waitpduLen == 0 && forall h :: 0 <= h < |waitpdu| ==> waitpdu[h] == []
    {
      hide Purge, Requeued, Reader, Healthy, Attempt, Buffers, Reconnect;
      ghost var s := View();
      ReconnectOk(s, connectOk);
      HealthyLink(s);
      ok := Reconnecting(connectOk);
      ReconnectShows(s, connectOk, ok);
    }

    /** The body of `rpc_reconnect_requeue`. */
    method Reconnecting(connectOk: bool) returns (ok: bool)
      requires Buffers() && LinkOk(cfg, View().link)
      modifies this
      ensures Buffers() && View() == Reconnect(old(View()), connectOk)
      ensures ok <==> connectOk && (cfg.autoReconnect < 0
                                    || (cfg.autoReconnect > 0
                                        && (old(isConnected) || old(attempts) < cfg.autoReconnect)))
    {
      hide Purge, Requeued, Reader, Attempt, Buffers;
      ghost var s := View();
      if cfg.autoReconnect == 0 {
        ErrorAllPdus();
        PurgeFrame(s);
        closed := true;
        ok := false;
      } else {
        DropConnection();
        if cfg.autoReconnect > 0 {
          RetriesLeft(s);
        }
        ok := TryAgain(connectOk);
      }
    }

    method DropConnection()
      requires Buffers()
      modifies this`outqueue, this`waitpdu, this`waitpduLen, this`pdu, this`state, this`inpos, this`wire,
               this`isConnected, this`numRetries, this`attempts
      ensures Buffers() && View() == Requeue(old(View()))
    {
      hide Requeued, Reader, Buffers;
      if isConnected {
        numRetries, attempts := cfg.autoReconnect, 0;
      }
      isConnected := false;
      RequeueInFlight();
    }

    method TryAgain(connectOk: bool) returns (ok: bool)
      modifies this`outqueue, this`waitpdu, this`wire, this`log, this`numRetries, this`attempts
      ensures View() == Attempt(old(View()), connectOk)
      ensures ok <==> connectOk && (cfg.autoReconnect < 0 || old(numRetries) > 0)
    {
      hide Purge, Reader;
      ok := false;
      if cfg.autoReconnect < 0 || numRetries > 0 {
        numRetries, attempts := numRetries - 1, attempts + 1;
        ok := connectOk;
      }
      if !ok {
        ErrorAllPdus();
      }
    }

    static lemma PurgeFrame(s: State)
      ensures Purge(s).link == s.link && Purge(s).cfg == s.cfg
    {
    }

    /** `reconnect_cb`: a new connection is up, or has failed and is tried again. */
    method ReconnectCb(success: bool, connectOk: bool)
      requires Valid() && !isConnected
      modifies this
      ensures Valid()
      ensures View() == Step(old(View()), if success then Connected else ConnectFailed(connectOk))
      ensures success ==> isConnected && Queues() == old(Queues()) && Reader() == old(Reader()) && log == old(log)
    {
      hide Reader, Reconnect, Sane, ReaderOk;
      ghost var s := View();
      if success {
        StepHealthy(s, Connected);
        isConnected := true;
      } else {
        var ok := ReconnectRequeue(connectOk);
      }
    }

    // -------------------------------------------------------------- rpc_service

    /** The timer part of `rpc_service`. `need` tells whether the scan asked for a reconnect: then the
        connection is dropped, and only then. */
    method ServiceTimer(t: nat, connectOk: bool) returns (need: bool)
      requires Valid()
      modifies this
      ensures Valid() && View() == Step(old(View()), Tick(t, connectOk))
      ensures 0 < old(lastSuccess) <= t && t - old(lastSuccess) < 0x8000_0000 ==>
                (need <==> t > old(lastTimeoutScan) + 1000 && t - old(lastSuccess) > cfg.timeout
                           && exists h, i :: 0 <= h < |old(waitpdu)| && 0 <= i < |old(waitpdu)[h]|
                                             && Unanswered(cfg, old(waitpdu)[h][i], t))
      ensures need && cfg.autoReconnect != 0 ==> !isConnected && waitpduLen == 0
      ensures !need ==> isConnected == old(isConnected) && attempts == old(attempts)
    {
      hide Reader, Healthy, Swept, NeedReconnect, Reconnect, Transport.TooSoon;
      ghost var s := View();
      ScanHealthy(s, t);
      need := TimeoutScan(t);
      if need {
        var ok := ReconnectRequeue(connectOk);
      }
    }

    /** The POLLIN part of `rpc_service`: an error of the reader, and only that, leads to a reconnect. */
    method ServiceInput(stream: seq<byte>, cuts: seq<nat>, now: nat, connectOk: bool)
      returns (consumed: nat, failed: bool)
      requires Valid()
      modifies this, mem
      ensures Valid() && consumed <= |stream|
      ensures View() == AfterRead(RecordReader.Feed(old(View()), stream[..consumed], now), connectOk)
      ensures failed <==> RecordReader.Feed(old(View()), stream[..consumed], now).rd.phase.Failed?
      ensures failed && cfg.autoReconnect != 0 ==> !isConnected && waitpduLen == 0
      ensures !failed ==> View() == RecordReader.Feed(old(View()), stream[..consumed], now)
    {
      hide Reader, Healthy, RecordReader.Feed, Reconnect;
      var ok;
      ok, consumed := ReadFromSocket(stream, cuts, now);
      failed := !ok;
      if failed {
        ok := ReconnectRequeue(connectOk);
      }
    }

    /** The POLLOUT part of `rpc_service`: a broken socket, and only that, leads to a reconnect. */
    method ServiceOutput(io: seq<WriteResult>, cap: nat, connectOk: bool) returns (broken: bool, ghost sent: seq<nat>)
      requires Valid() && 0 < cap <= RPC_MAX_VECTORS
      modifies this
      ensures Valid() && CanSendAll(cfg, old(Queues()), sent)
      ensures var s := old(View()).(q := SendAll(old(Queues()), sent));
              View() == if broken then Reconnect(s, connectOk) else s
      ensures broken <==> |sent| < |io| && io[|sent|].Broken? && SendAll(old(Queues()), sent).out != []
                          && (cfg.maxWaitpduLen == 0 || cfg.maxWaitpduLen > SendAll(old(Queues()), sent).waitLen)
      ensures broken && cfg.autoReconnect != 0 ==> !isConnected && waitpduLen == 0
    {
      hide Reader, Healthy, Reconnect, CanSendAll, SendAll, QueuesOk, Run, IsRun, Offers;
      ghost var s, offered := View(), [];
      HealthyQueues(s);
      var ok;
      ok, sent, offered := WriteToSocket(io, cap);
      SendAllIsRun(s, sent);
      RunHealthy(s, Writes(sent));
      assert View() == s.(q := SendAll(s.q, sent));
      broken := !ok;
      if broken {
        ok := ReconnectRequeue(connectOk);
      }
    }

    static lemma HealthyQueues(s: State)
      requires Healthy(s)
      ensures QueuesOk(s.cfg, |s.mem|, s.q)
    {
    }
  }
}
