/** What the read and write loops of `rpc_service` do in one go is a run of single events. */
module Service {
  import opened Bytes
  import opened Iovec
  import opened Transport
  import opened QueueInvariants
  import opened Runs
  import RecordReader
  import Streams

  lemma {:induction false} RunFrom(s: State, e: Event, es: seq<Event>)
    requires Enabled(s, e) && IsRun(Step(s, e), es)
    ensures IsRun(s, [e] + es) && Run(s, [e] + es) == Run(Step(s, e), es)
    decreases |es|
  {
    hide Step, Enabled;
    if es == [] {
      assert ([e] + es)[..0] == [];
    } else {
      var init := es[..|es| - 1];
      RunFrom(s, e, init);
      assert ([e] + es)[..|es|] == [e] + init;
    }
  }

  lemma RecvLink(s: State, c: seq<byte>, now: nat)
    requires Owing(s) && |c| <= s.rd.need
    ensures Recv(s, c, now).link == s.link
  {
    hide Finish;
    FinishFrame(Absorb(s, c), now);
  }

  /** Feeding a stream, with a reconnect at the end if the reader failed, is a run of read events. */
  lemma {:induction false} FeedIsRun(s: State, stream: seq<byte>, now: nat, ok: bool) returns (es: seq<Event>)
    requires Healthy(s) && s.link.connected && !s.rd.phase.Failed?
    ensures IsRun(s, es) && Run(s, es) == AfterRead(RecordReader.Feed(s, stream, now), ok)
    ensures forall i :: 0 <= i < |es| ==> es[i].Read?
    decreases |stream|
  {
    hide Reconnect, Recv, Sane, LinkOk;
    es := [];
    if stream != [] && s.rd.need > 0 {
      var k := Min(s.rd.need, |stream|);
      var c, rest := stream[..k], stream[k..];
      var e, s1 := Read(c, now, ok), Recv(s, c, now);
      RecvOk(s, c, now);
      RecvLink(s, c, now);
      assert RecordReader.Feed(s, stream, now) == RecordReader.Feed(s1, rest, now);
      if s1.rd.phase.Failed? {
        assert RecordReader.Feed(s1, rest, now) == s1;
        assert IsRun(Step(s, e), []);
      } else {
        es := FeedIsRun(s1, rest, now, ok);
      }
      RunFrom(s, e, es);
      es := [e] + es;
    }
  }

  /** `payload` is a READ reply, with data or with an error, to a zero-copy READ that waits for it. */
  predicate ReadAnswer(q: Queues, payload: seq<byte>)
  {
    var found := Find(q, Word(payload, 0)).1;
    && 8 <= |payload| <= MAX_FRAGMENT_SIZE && found.Some? && found.value.inp.zeroCopy
    && (RecordReader.IsReadError(payload) || RecordReader.IsReadReply(found.value, payload))
  }

  /** What such a reply should do: one callback, of the PDU with the reply's xid, that finds the reply's
      data - none for a READ error - in the user's buffers; no other byte of memory changes. */
  ghost predicate Answered(r: State, payload: seq<byte>, now: nat, f: State)
    requires ReadAnswer(r.q, payload)
  {
    var (q, found) := Find(r.q, Word(payload, 0));
    var p := found.value;
    var data := RecordReader.DataOf(p, payload);
    && p.xid == Word(payload, 0)
    && f.log == r.log + [Completion(p.id, p.xid, SUCCESS, data, Some(data))]
    && |f.mem| == |r.mem| && Gather(f.mem, p.inp.addrs[..|data|]) == data
    && (forall k :: 0 <= k < |r.mem| && k !in p.inp.addrs[..|data|] ==> f.mem[k] == r.mem[k])
    && f.rd == BOUNDARY && f.q == q && f.lastOk == now
  }

  lemma ReadAnswerWellFormed(r: State, payload: seq<byte>)
    requires QueuesOk(r.cfg, |r.mem|, r.q) && ReadAnswer(r.q, payload)
    ensures RecordReader.WellFormed(r, payload)
    ensures var p := Find(r.q, Word(payload, 0)).1.value; Ready(r.cfg, |r.mem|, p) && p.xid == Word(payload, 0)
  {
    hide Find, Word, RecordReader.IsReadError, RecordReader.IsReadReply;
    FindOk(r.cfg, |r.mem|, r.q, Word(payload, 0));
    FindAgreesWithFlatTable(r.q, Word(payload, 0));
  }

  lemma DeliverAnswers(r: State, payload: seq<byte>, now: nat)
    requires QueuesOk(r.cfg, |r.mem|, r.q) && ReadAnswer(r.q, payload) && RecordReader.WellFormed(r, payload)
    ensures Answered(r, payload, now, RecordReader.Deliver(r, payload, now))
  {
    hide Find, Word, RecordReader.Delivered, RecordReader.DataOf, RecordReader.IsReadError, RecordReader.IsReadReply;
    ReadAnswerWellFormed(r, payload);
    var (q, found) := Find(r.q, Word(payload, 0));
    var p := found.value;
    var g := r.(q := q, rd := BOUNDARY, lastOk := now);
    RecordReader.DeliveredBuffers(g, p, RecordReader.DataOf(p, payload));
    RecordReader.DeliveredQueues(g, p, RecordReader.DataOf(p, payload));
  }

  /** A whole record, however it is cut, has the effect of its payload. */
  lemma PiecesDeliver(r: State, payload: seq<byte>, pieces: seq<seq<byte>>, now: nat)
    requires r.rd == BOUNDARY && RecordReader.WellFormed(r, payload)
    requires Concat(pieces) == RecordReader.RecordOf(payload)
    ensures Streams.FeedPieces(RecordReader.Reading(now), r, pieces) == RecordReader.Deliver(r, payload, now)
  {
    hide RecordReader.Deliver, RecordReader.RecordOf, RecordReader.Feed;
    var rec := RecordReader.RecordOf(payload);
    RecordReader.SplitIndependence(r, pieces, pieces, now);
    RecordReader.RecordDelivery(r, payload, [], now);
    assert rec + [] == rec;
    RecordReader.FeedNothing(RecordReader.Deliver(r, payload, now), now);
  }

  /** Zero-copy READ, end to end: after every run that leaves the reader at a record boundary, the
      bytes of a READ reply on the wire, however they are cut, answer the READ that waits for them. */
  lemma ReadReplyDelivered(s: State, es: seq<Event>, payload: seq<byte>, pieces: seq<seq<byte>>, now: nat)
    requires Initial(s) && IsRun(s, es) && Run(s, es).rd == BOUNDARY && ReadAnswer(Run(s, es).q, payload)
    requires Concat(pieces) == RecordReader.RecordOf(payload)
    ensures Answered(Run(s, es), payload, now, Streams.FeedPieces(RecordReader.Reading(now), Run(s, es), pieces))
  {
    hide ReadAnswer, Answered, RecordReader.WellFormed, RecordReader.Deliver, Streams.FeedPieces, QueuesOk;
    var r := Run(s, es);
    InitialInv(s);
    RunInv(s, es, s.nextId);
    ReadAnswerWellFormed(r, payload);
    PiecesDeliver(r, payload, pieces, now);
    DeliverAnswers(r, payload, now);
  }
}
