/** Runs in which two guarantees are lost: a late reply that takes a half-sent retransmission off the
    out queue, and a purge that leaves the in-flight counter behind. */
module BrokenRuns {
  import opened Bytes
  import opened Transport
  import opened QueueInvariants
  import opened Runs

  lemma RunSnoc(s: State, es: seq<Event>, e: Event)
    requires IsRun(s, es) && Enabled(Run(s, es), e)
    ensures IsRun(s, es + [e]) && Run(s, es + [e]) == Step(Run(s, es), e)
  {
    hide Enabled, Step;
    assert (es + [e])[..|es|] == es;
  }

  /** One PDU of two bytes with xid 7, on a connection with one bucket. */
  const CALL: Pdu :=
    Pdu(0, 7, Outgoing([OutBuffer(0, [1, 2])], 0), Incoming(false, [], [], false), Timer(false, 2000, 4000, 0, 0))

  const WAITING: Pdu := NumDone(CALL, 2)

  const START: State :=
    State(Config(0, 2000, 2, 0, 0, (id, b, at) => true), Queues([], [[]], 0, NEW_WIRE), BOUNDARY, [], [],
          Link(true, 0, 0, false), 0, 0, 0, false)

  lemma CallRecord()
    ensures Record(CALL) == [1, 2] && (forall n: nat :: Record(NumDone(CALL, n)) == [1, 2])
  {
    assert CALL.out.bufs[1..] == [];
  }

  lemma Queueing()
    ensures Enabled(START, Queued(CALL, 0))
    ensures Step(START, Queued(CALL, 0)) == START.(q := START.q.(out := [CALL]), nextId := 1)
  {
    CallRecord();
  }

  /** `n` of the two bytes of the only queued PDU are written. */
  lemma Writing(s: State, p: Pdu, n: nat)
    requires s.cfg == START.cfg && s.link == START.link && s.q.out == [p] && s.q.wait == [[]]
    requires Record(p) == [1, 2] && p.out.numDone == 0 && p.xid == 7 && 1 <= n <= 2
    ensures Enabled(s, Wrote(n))
    ensures var r := Step(s, Wrote(n));
            && r == s.(q := r.q) && r.q.wire.bytes == s.q.wire.bytes + [1, 2][..n] && r.q.wire.torn == s.q.wire.torn
            && (n == 1 ==> r.q.out == [NumDone(p, 1)] && r.q.wait == [[]] && r.q.waitLen == s.q.waitLen)
            && (n == 2 ==> r.q.out == [] && r.q.wait == [[NumDone(p, 2)]] && r.q.waitLen == s.q.waitLen + 1)
            && r.q.wire.records == s.q.wire.records + if n == 2 then [[1, 2]] else []
  {
    assert [p][1..] == [] && Pending([]) == [];
    assert Pending([p]) == [1, 2] && Take([1, 2], n) == [1, 2][..n];
    assert s.q.out[..Room(s.cfg, s.q)] == [p];
    assert Account([], 0) == ([], []);
    if n == 1 {
      assert [NumDone(p, 1)] + [p][1..] == [NumDone(p, 1)];
      assert Account([p], 1).0 == [NumDone(p, 1)] && Account([p], 1).1 == [];
      assert Records([]) == [];
    } else {
      var w := NumDone(p, 2);
      assert [w] + [] == [w];
      assert Account([p], 2).0 == [] && Account([p], 2).1 == [w];
      assert [w][1..] == [] && Record(w) == [1, 2] && Records([w]) == [[1, 2]];
      assert Hash(7, 1) == 0 && s.q.wait[0] + [w] == [w];
      assert Enqueue(s.q.wait, w) == s.q.wait[0 := [w]] == [[w]];
      assert EnqueueAll(s.q.wait, [w]) == EnqueueAll([[w]], []) == [[w]];
    }
  }

  // ---------------------------------------------------------------- the counter

  /** The reader fails while a PDU waits and reconnecting is disabled: nothing waits any more, but one
      PDU is counted. */
  lemma CounterLeftBehind() returns (es: seq<Event>)
    ensures Initial(START) && IsRun(START, es)
    ensures var r := Run(START, es); Concat(r.q.wait) == [] && r.q.waitLen == 1 && !Counted(r.q)
  {
    es := CallSent();
    var s := Run(START, es);
    RunSnoc(START, es, ReadFailed(false));
    es := es + [ReadFailed(false)];
    PurgeCountedIff(s);
    assert Purge(s).q.wait == [[]] && Concat(Purge(s).q.wait[1..]) == [];
  }

  /** The PDU is queued and sent. */
  lemma CallSent() returns (es: seq<Event>)
    ensures IsRun(START, es)
    ensures var r := Run(START, es);
            && r == START.(q := r.q, nextId := 1) && r.q.out == [] && r.q.wait == [[WAITING]] && r.q.waitLen == 1
            && r.q.wire == Wire([1, 2], [[1, 2]], false)
  {
    CallRecord();
    Queueing();
    RunSnoc(START, [], Queued(CALL, 0));
    es := [] + [Queued(CALL, 0)];
    Writing(Run(START, es), CALL, 2);
    RunSnoc(START, es, Wrote(2));
    es := es + [Wrote(2)];
  }

  // ---------------------------------------------------------------- the stream of records

  /** The PDU after its minor deadline has passed at 3000. */
  const AGAIN: Pdu := CALL.(timer := Timer(false, 5000, 4000, 0, 1))

  /** A minor timeout puts the PDU back into the out queue. */
  lemma Expiring(s: State)
    requires s.cfg == START.cfg && s.lastScan == 0 && s.lastOk == 0
    requires s.q.out == [] && s.q.wait == [[WAITING]] && s.q.waitLen == 1
    ensures var r := Step(s, Tick(3000, false));
            r == s.(q := r.q, lastScan := 3000) && r.q == Queues([AGAIN], [[]], 0, s.q.wire)
  {
    assert ScanQueued(s.cfg, [], 3000) == ([], []);
    assert [WAITING][..0] == [];
    assert ScanSent(s.cfg, [], 3000) == Sweep([], [], []);
    assert Retry(s.cfg, WAITING, 3000).timer == AGAIN.timer;
    assert ScanSent(s.cfg, [WAITING], 3000) == Sweep([], [Retry(s.cfg, WAITING, 3000)], []);
    assert [[WAITING]][..0] == [];
    assert ScanTable(s.cfg, [], 3000) == TableSweep([], [], []);
    var again := [Retry(s.cfg, WAITING, 3000)];
    assert ScanTable(s.cfg, s.q.wait, 3000) == TableSweep([[]], again, []);
    assert Rewound(again[0]) == AGAIN && again[1..] == [];
    assert ReturnAll([AGAIN], []) == [AGAIN];
    assert ReturnAll([], again) == [AGAIN];
    assert SilentFor(s, 3000) == -1;
    assert s.log + [] + [] == s.log;
  }

  /** Record marker for 20 bytes and xid 7. */
  const HEAD: seq<byte> := [0x80, 0, 0, 20, 0, 0, 0, 7]

  /** The late reply to the first transmission takes the half-sent PDU off the out queue. */
  lemma Answering(s: State)
    requires s.cfg == START.cfg && s.link == START.link && s.rd == BOUNDARY
    requires s.q.out == [NumDone(AGAIN, 1)] && s.q.wait == [[]]
    ensures Enabled(s, Read(HEAD, 3001, false))
    ensures var r := Step(s, Read(HEAD, 3001, false)).q;
            r.out == [] && r.wire == s.q.wire.(torn := true)
  {
    assert BOUNDARY.buf + HEAD == HEAD;
    assert Word(HEAD, 0) == 0x8000_0014 && Word(HEAD, 4) == 7;
    assert IndexOf(s.q.out, 7) == 0 && RemoveAt(s.q.out, 0) == [];
    assert Find(s.q, 7).1 == Some(NumDone(AGAIN, 1));
  }

  /** The PDU is sent, times out, is half-sent again, and then the reply to its first transmission
      arrives: the socket has accepted a byte that belongs to no record. */
  lemma LateReplyBreaksStream() returns (es: seq<Event>)
    ensures Initial(START) && IsRun(START, es)
    ensures var r := Run(START, es);
            r.q.wire.bytes == [1, 2, 1] && r.q.wire.records == [[1, 2]] && r.q.out == [] && !Framed(r.q)
  {
    hide Step, Enabled;
    es := CallSent();
    Expiring(Run(START, es));
    TickEnabled(Run(START, es));
    RunSnoc(START, es, Tick(3000, false));
    es := es + [Tick(3000, false)];
    CallRecord();
    assert Record(AGAIN) == [1, 2];
    Writing(Run(START, es), AGAIN, 1);
    RunSnoc(START, es, Wrote(1));
    es := es + [Wrote(1)];
    Answering(Run(START, es));
    RunSnoc(START, es, Read(HEAD, 3001, false));
    es := es + [Read(HEAD, 3001, false)];
    var r := Run(START, es).q;
    assert [1, 2] + [1, 2][..1] == [1, 2, 1];
    assert r.wire.records[1..] == [] && Concat(r.wire.records) == [1, 2];
  }

  lemma TickEnabled(s: State)
    ensures Enabled(s, Tick(3000, false))
  {
  }
}
