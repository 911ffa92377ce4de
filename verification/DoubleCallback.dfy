/** Where at-most-once completion fails. A reply that refuses a zero-copy READ makes
    `rpc_process_reply` run the error callback; the reader then looks for a data length word behind
    the header, finds none, fails, and the reconnect puts the PDU back into the out queue. */
module DoubleCallback {
  import opened Bytes
  import opened Iovec
  import opened Transport
  import opened Conservation
  import opened Runs

  /** The last piece of a reply that refuses a zero-copy READ and ends with its header. */
  predicate RefusesRead(s: State, c: seq<byte>)
  {
    && s.rd.phase.Payload? && s.rd.pdu.Some? && s.rd.pdu.value.inp.zeroCopy && 0 < |c| == s.rd.need
    && ReplyHeader(s.rd.buf + c).Refused? && ReplyHeader(s.rd.buf + c).pos + 4 > |s.rd.buf + c|
  }

  lemma RefusedStep(s: State, c: seq<byte>, now: nat)
    requires RefusesRead(s, c)
    ensures var p := s.rd.pdu.value;
            var r := Recv(s, c, now);
            r.rd.phase.Failed? && r.rd.pdu == Some(p) && r.q == s.q && r.cfg == s.cfg && r.link == s.link
            && r.log == s.log + [Completion(p.id, p.xid, ERROR, s.rd.buf + c, None)]
  {
    var p := s.rd.pdu.value;
    var a := Absorb(s, c);
    assert a.rd.buf == s.rd.buf + c;
    assert Finish(a, now) == FinishPayload(a, p, now);
    assert FinishPayload(a, p, now)
        == StartData(ReportRefused(a, p), p, ReplyHeader(a.rd.buf).pos);
  }

  /** If the reconnect attempt fails at once, the same PDU is called back a second time. */
  lemma CalledBackTwice(s: State, c: seq<byte>, now: nat)
    requires RefusesRead(s, c) && s.cfg.autoReconnect != 0
    requires Live(s, s.rd.pdu.value.id) == 1
    ensures var id := s.rd.pdu.value.id;
            Completed(AfterRead(Recv(s, c, now), false).log, id) == Completed(s.log, id) + 2
  {
    var p := s.rd.pdu.value;
    var id := p.id;
    RefusedStep(s, c, now);
    var f := Recv(s, c, now);
    CompletedAppend(s.log, [Completion(id, p.xid, ERROR, s.rd.buf + c, None)], id);
    CompletedOne(Completion(id, p.xid, ERROR, s.rd.buf + c, None), id);
    Holding(s.rd, id);
    Holding(f.rd, id);
    Holding(BOUNDARY, id);
    ReconnectConserves(f, false, id);
    RequeueConserves(f, id);
    var s1 := Requeue(f);
    PurgeConserves(s1, id);
    PurgeConserves(s1.(link := s1.link.(numRetries := s1.link.numRetries - 1, attempts := s1.link.attempts + 1)), id);
    assert Live(Reconnect(f, false), id) == 0;
  }

  // ---------------------------------------------------------------- a concrete run

  /** A zero-copy READ of one byte into address 0, with xid 7. */
  const READ: Pdu :=
    Pdu(0, 7, Outgoing([OutBuffer(0, [1])], 0), Incoming(true, [0], [0], false), Timer(false, 0, 0, 0, 0))

  const START: State :=
    State(Config(0, 0, 0, 1, 0, (id, b, at) => true), Queues([], [[]], 0, NEW_WIRE), BOUNDARY, [0], [],
          Link(true, 0, 0, false), 0, 0, 0, false)

  /** Record marker for 20 bytes and xid 7. */
  const HEAD: seq<byte> := [0x80, 0, 0, 20, 0, 0, 0, 7]

  /** REPLY, MSG_DENIED, AUTH_ERROR, AUTH_BADCRED. */
  const DENIED: seq<byte> := [0, 0, 0, 1, 0, 0, 0, 1, 0, 0, 0, 1, 0, 0, 0, 1]

  const SENT: Pdu := NumDone(READ, 1)

  /** The READ is queued and its only byte is written. */
  lemma ReadSent() returns (s1: State, s2: State)
    ensures Enabled(START, Queued(READ, 1)) && s1 == Step(START, Queued(READ, 1))
    ensures Enabled(s1, Wrote(1)) && s2 == Step(s1, Wrote(1))
    ensures s2.q.out == [] && s2.q.wait == [[SENT]]
    ensures s2 == START.(q := s2.q, nextId := 1)
  {
    s1 := Step(START, Queued(READ, 1));
    assert READ.out.bufs[1..] == [];
    assert Record(READ) == [1];
    assert s1.q.out == [READ];
    assert [READ][1..] == [] && Pending([]) == [];
    assert Pending([READ]) == [1];
    assert s1.q.out[..Room(s1.cfg, s1.q)] == [READ];
    s2 := Step(s1, Wrote(1));
    assert Account([], 0) == ([], []);
    assert Account([READ], 1).0 == [] && Account([READ], 1).1 == [SENT];
    assert Hash(7, 1) == 0;
    assert [SENT][1..] == [];
    var w: Table := [[]];
    assert SENT.xid == 7 && w[0] + [SENT] == [SENT] && w[0 := [SENT]] == [[SENT]];
    assert Enqueue(w, SENT) == [[SENT]];
    assert EnqueueAll(w, [SENT]) == EnqueueAll([[SENT]], []) == [[SENT]];
  }

  /** The reply has begun: the reader holds the PDU. */
  lemma ReplyBegun(s2: State) returns (s3: State)
    requires s2.q.out == [] && s2.q.wait == [[SENT]] && s2 == START.(q := s2.q, nextId := 1)
    ensures Enabled(s2, Read(HEAD, 2, false)) && s3 == Step(s2, Read(HEAD, 2, false))
    ensures s3.rd.phase.Payload? && s3.rd.pdu == Some(SENT) && s3.rd.need == 16 && s3.rd.buf == [0, 0, 0, 7]
    ensures s3.cfg == START.cfg && s3.link == START.link && s3.log == [] && s3.q.out == [] && s3.q.wait == [[]]
  {
    assert BOUNDARY.buf + HEAD == HEAD;
    assert Word(HEAD, 0) == 0x8000_0014 && Word(HEAD, 4) == 7;
    assert Hash(7, 1) == 0 && IndexOf([], 7) == 0 && IndexOf([SENT], 7) == 0;
    assert RemoveAt([SENT], 0) == [];
    assert Find(s2.q, 7).1 == Some(SENT);
    assert Drop(HEAD, 4) == [0, 0, 0, 7];
    s3 := Step(s2, Read(HEAD, 2, false));
  }

  /** The run exists: one READ is queued, sent and denied, and has two callbacks. */
  lemma OneReadTwoCallbacks() returns (s1: State, s2: State, s3: State, s4: State)
    ensures Initial(START)
    ensures Enabled(START, Queued(READ, 1)) && s1 == Step(START, Queued(READ, 1))
    ensures Enabled(s1, Wrote(1)) && s2 == Step(s1, Wrote(1))
    ensures Enabled(s2, Read(HEAD, 2, false)) && s3 == Step(s2, Read(HEAD, 2, false))
    ensures Enabled(s3, Read(DENIED, 3, false)) && s4 == Step(s3, Read(DENIED, 3, false))
    ensures Completed(s4.log, 0) == 2
  {
    s1, s2 := ReadSent();
    s3 := ReplyBegun(s2);
    s4 := DeniedTwice(s3);
  }

  lemma DeniedHeader()
    ensures ReplyHeader([0, 0, 0, 7] + DENIED) == Refused(20)
  {
    var b := [0, 0, 0, 7] + DENIED;
    assert b == [0, 0, 0, 7, 0, 0, 0, 1, 0, 0, 0, 1, 0, 0, 0, 1, 0, 0, 0, 1];
    assert Word(b, 4) == 1 && Word(b, 8) == 1 && Word(b, 12) == 1;
  }

  lemma DeniedTwice(s: State) returns (r: State)
    requires s.rd.phase.Payload? && s.rd.pdu == Some(SENT) && s.rd.need == 16 && s.rd.buf == [0, 0, 0, 7]
    requires s.cfg == START.cfg && s.link == START.link && s.log == [] && s.q.out == [] && s.q.wait == [[]]
    ensures Enabled(s, Read(DENIED, 3, false)) && r == Step(s, Read(DENIED, 3, false))
    ensures Completed(r.log, 0) == 2
  {
    hide ReplyHeader, Reconnect, Recv;
    DeniedHeader();
    Holding(s.rd, 0);
    assert s.q.wait[1..] == [] && Concat(s.q.wait) == [];
    CalledBackTwice(s, DENIED, 3);
    r := Step(s, Read(DENIED, 3, false));
  }
}
