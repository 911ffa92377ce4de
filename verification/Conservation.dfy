/** Conservation of PDUs: a PDU is in exactly one queue or half-read until it is completed, and it
    is completed once. The law counts, for every id, the places that hold the PDU and the callbacks
    made for it, so it covers losing a PDU, duplicating it and calling back twice all at once. */
module Conservation {
  import opened Bytes
  import opened Iovec
  import opened Transport

  function One(a: nat, id: nat): (n: nat)
  {
    if a == id then 1 else 0
  }

  /** How often PDU `id` is in a queue. */
  function Ids(q: seq<Pdu>, id: nat): (n: nat)
  {
    if q == [] then 0 else One(q[0].id, id) + Ids(q[1..], id)
  }

  /** How many callbacks were made for PDU `id`. */
  function Completed(log: seq<Completion>, id: nat): (n: nat)
  {
    if log == [] then 0 else One(log[0].id, id) + Completed(log[1..], id)
  }

  function InQueues(q: Queues, id: nat): (n: nat)
  {
    Ids(q.out, id) + Ids(Concat(q.wait), id)
  }

  /** In how many places PDU `id` is. */
  function Live(s: State, id: nat): (n: nat)
  {
    InQueues(s.q, id) + Ids(HalfRead(s.rd), id)
  }

  /** The conserved quantity. */
  function Total(s: State, id: nat): (n: nat)
  {
    Live(s, id) + Completed(s.log, id)
  }

  lemma {:induction false} IdsAppend(a: seq<Pdu>, b: seq<Pdu>, id: nat)
    ensures Ids(a + b, id) == Ids(a, id) + Ids(b, id)
  {
    if a == [] {
      assert a + b == b;
    } else {
      assert (a + b)[1..] == a[1..] + b;
      IdsAppend(a[1..], b, id);
    }
  }

  lemma IdsOne(p: Pdu, id: nat)
    ensures Ids([p], id) == One(p.id, id)
  {
    assert [p][1..] == [];
  }

  lemma {:induction false} CompletedAppend(a: seq<Completion>, b: seq<Completion>, id: nat)
    ensures Completed(a + b, id) == Completed(a, id) + Completed(b, id)
  {
    if a == [] {
      assert a + b == b;
    } else {
      assert (a + b)[1..] == a[1..] + b;
      CompletedAppend(a[1..], b, id);
    }
  }

  lemma CompletedOne(c: Completion, id: nat)
    ensures Completed([c], id) == One(c.id, id)
  {
    assert [c][1..] == [];
  }

  // ---------------------------------------------------------------- queue operations

  lemma IdsRemoveAt(q: seq<Pdu>, i: nat, id: nat)
    requires i < |q|
    ensures Ids(q, id) == Ids(RemoveAt(q, i), id) + One(q[i].id, id)
  {
    assert q == q[..i] + [q[i]] + q[i + 1..];
    IdsAppend(q[..i] + [q[i]], q[i + 1..], id);
    IdsAppend(q[..i], [q[i]], id);
    IdsAppend(q[..i], q[i + 1..], id);
    IdsOne(q[i], id);
  }

  lemma IdsAfterHead(q: seq<Pdu>, p: Pdu, id: nat)
    ensures Ids(AfterHead(q, p), id) == Ids(q, id) + One(p.id, id)
  {
    if q == [] {
      IdsOne(p, id);
    } else {
      var r := AfterHead(q, p);
      assert r[1..] == [p] + q[1..] && r[1..][1..] == q[1..];
    }
  }

  lemma {:induction false} IdsReturnAll(q: seq<Pdu>, ps: seq<Pdu>, id: nat)
    ensures Ids(ReturnAll(q, ps), id) == Ids(q, id) + Ids(ps, id)
    decreases |ps|
  {
    if ps != [] {
      IdsAfterHead(q, Rewound(ps[0]), id);
      IdsReturnAll(AfterHead(q, Rewound(ps[0])), ps[1..], id);
    }
  }

  /** Replacing one bucket changes the table by the difference of the two buckets. */
  lemma {:induction false} ConcatUpdate(w: seq<seq<Pdu>>, h: nat, q: seq<Pdu>, id: nat)
    requires h < |w|
    ensures Ids(Concat(w[h := q]), id) + Ids(w[h], id) == Ids(Concat(w), id) + Ids(q, id)
    ensures |Concat(w[h := q])| + |w[h]| == |Concat(w)| + |q|
  {
    var v := w[h := q];
    assert w == w[..h] + [w[h]] + w[h + 1..] && v == w[..h] + [q] + w[h + 1..];
    forall x: seq<Pdu>
      ensures Concat(w[..h] + [x] + w[h + 1..]) == Concat(w[..h]) + x + Concat(w[h + 1..])
    {
      ConcatAppend(w[..h] + [x], w[h + 1..]);
      ConcatSnoc(w[..h], x);
    }
    var a, b := Concat(w[..h]), Concat(w[h + 1..]);
    IdsAppend(a + w[h], b, id);
    IdsAppend(a, w[h], id);
    IdsAppend(a + q, b, id);
    IdsAppend(a, q, id);
  }

  lemma {:induction false} EmptyTableConcat(w: seq<seq<Pdu>>)
    requires forall i :: 0 <= i < |w| ==> w[i] == []
    ensures Concat(w) == []
  {
    if w != [] {
      EmptyTableConcat(w[1..]);
    }
  }

  lemma {:induction false} EnqueueAllIds(w: Table, ps: seq<Pdu>, id: nat)
    ensures Ids(Concat(EnqueueAll(w, ps)), id) == Ids(Concat(w), id) + Ids(ps, id)
    ensures |Concat(EnqueueAll(w, ps))| == |Concat(w)| + |ps|
    decreases |ps|
  {
    if ps != [] {
      var h := Hash(ps[0].xid, |w|);
      ConcatUpdate(w, h, w[h] + [ps[0]], id);
      IdsAppend(w[h], [ps[0]], id);
      IdsOne(ps[0], id);
      EnqueueAllIds(Enqueue(w, ps[0]), ps[1..], id);
    }
  }

  lemma {:induction false} AccountIds(q: seq<Pdu>, n: nat, id: nat)
    ensures Ids(Account(q, n).0, id) + Ids(Account(q, n).1, id) == Ids(q, id)
    decreases |q|
  {
    if n != 0 && q != [] {
      var remaining := |Record(q[0])| - q[0].out.numDone;
      if remaining <= n {
        AccountIds(q[1..], if remaining > 0 then n - remaining else n, id);
        var d := Account(q, n).1;
        assert d[1..] == Account(q[1..], if remaining > 0 then n - remaining else n).1;
      } else {
        var r := Account(q, n).0;
        assert r[1..] == q[1..];
      }
    }
  }

  lemma SendConserves(q: Queues, n: nat, id: nat)
    ensures InQueues(Send(q, n), id) == InQueues(q, id)
  {
    AccountIds(q.out, n, id);
    EnqueueAllIds(q.wait, Account(q.out, n).1, id);
  }

  lemma FindConserves(q: Queues, xid: uint32, id: nat)
    ensures var (r, found) := Find(q, xid);
            InQueues(q, id) == InQueues(r, id) + (if found.Some? then One(found.value.id, id) else 0)
  {
    var i := IndexOf(q.out, xid);
    if i < |q.out| {
      IdsRemoveAt(q.out, i, id);
    } else {
      var h := Hash(xid, |q.wait|);
      var j := IndexOf(q.wait[h], xid);
      if j < |q.wait[h]| {
        IdsRemoveAt(q.wait[h], j, id);
        ConcatUpdate(q.wait, h, RemoveAt(q.wait[h], j), id);
      }
    }
  }

  lemma {:induction false} ScanQueuedConserves(cfg: Config, q: seq<Pdu>, t: nat, id: nat)
    ensures var (r, log) := ScanQueued(cfg, q, t);
            Ids(r, id) + Completed(log, id) == Ids(q, id)
  {
    if q != [] {
      var init, p := q[..|q| - 1], q[|q| - 1];
      var (r, log) := ScanQueued(cfg, init, t);
      ScanQueuedConserves(cfg, init, t, id);
      assert q == init + [p];
      IdsAppend(init, [p], id);
      IdsOne(p, id);
      IdsAppend(r, [p], id);
      IdsAppend(r, [Deferred(cfg, p, t)], id);
      IdsOne(Deferred(cfg, p, t), id);
      CompletedAppend(log, [TimedOut(p)], id);
      CompletedOne(TimedOut(p), id);
    }
  }

  lemma {:induction false} ScanSentConserves(cfg: Config, q: seq<Pdu>, t: nat, id: nat)
    ensures var w := ScanSent(cfg, q, t);
            && Ids(w.kept, id) + Ids(w.again, id) + Completed(w.log, id) == Ids(q, id)
            && |w.kept| + |w.again| + |w.log| == |q|
  {
    if q != [] {
      var init, p := q[..|q| - 1], q[|q| - 1];
      var w := ScanSent(cfg, init, t);
      ScanSentConserves(cfg, init, t, id);
      assert q == init + [p];
      IdsAppend(init, [p], id);
      IdsOne(p, id);
      if !ExpiredSent(p, t) {
        IdsAppend(w.kept, [p], id);
      } else if Retryable(cfg, p) {
        IdsAppend(w.again, [Retry(cfg, p, t)], id);
        IdsOne(Retry(cfg, p, t), id);
      } else {
        CompletedAppend(w.log, [TimedOut(p)], id);
        CompletedOne(TimedOut(p), id);
      }
    }
  }

  lemma {:induction false} ScanTableConserves(cfg: Config, w: seq<seq<Pdu>>, t: nat, id: nat)
    ensures var r := ScanTable(cfg, w, t);
            && Ids(Concat(r.kept), id) + Ids(r.again, id) + Completed(r.log, id) == Ids(Concat(w), id)
            && |Concat(r.kept)| + |r.again| + |r.log| == |Concat(w)|
  {
    if w != [] {
      var init, q := w[..|w| - 1], w[|w| - 1];
      var r, b := ScanTable(cfg, init, t), ScanSent(cfg, q, t);
      ScanTableConserves(cfg, init, t, id);
      ScanSentConserves(cfg, q, t, id);
      assert w == init + [q];
      ConcatSnoc(init, q);
      ConcatSnoc(r.kept, b.kept);
      IdsAppend(Concat(init), q, id);
      IdsAppend(Concat(r.kept), b.kept, id);
      IdsAppend(r.again, b.again, id);
      CompletedAppend(r.log, b.log, id);
    }
  }

  lemma {:induction false} ErrorsComplete(q: seq<Pdu>, id: nat)
    ensures Completed(Errors(q), id) == Ids(q, id)
  {
    if q != [] {
      assert Errors(q)[1..] == Errors(q[1..]);
      ErrorsComplete(q[1..], id);
    }
  }

  // ---------------------------------------------------------------- transitions

  lemma QueueAdds(s: State, p: Pdu, now: nat, id: nat)
    ensures Total(Queue(s, p, now), id) == Total(s, id) + One(s.nextId, id)
  {
    IdsAppend(s.q.out, [NewPdu(s, p, now)], id);
    IdsOne(NewPdu(s, p, now), id);
  }

  lemma SweepConserves(s: State, t: nat, id: nat)
    ensures Total(Swept(s, t), id) == Total(s, id)
  {
    var (q, log) := ScanQueued(s.cfg, s.q.out, t);
    var w := ScanTable(s.cfg, s.q.wait, t);
    ScanQueuedConserves(s.cfg, s.q.out, t, id);
    ScanTableConserves(s.cfg, s.q.wait, t, id);
    IdsReturnAll(q, w.again, id);
    CompletedAppend(s.log + log, w.log, id);
    CompletedAppend(s.log, log, id);
  }

  lemma PurgeConserves(s: State, id: nat)
    ensures Total(Purge(s), id) == Total(s, id)
    ensures InQueues(Purge(s).q, id) == 0
  {
    ErrorsComplete(s.q.out, id);
    ErrorsComplete(Concat(s.q.wait), id);
    CompletedAppend(s.log + Errors(s.q.out), Errors(Concat(s.q.wait)), id);
    CompletedAppend(s.log, Errors(s.q.out), id);
    EmptyTableConcat(EmptyTable(|s.q.wait|));
  }

  lemma RequeueConserves(s: State, id: nat)
    ensures Total(Requeue(s), id) == Total(s, id)
    ensures Ids(Requeue(s).q.out, id) == Live(s, id) && HalfRead(Requeue(s).rd) == []
  {
    var back := Concat(s.q.wait) + HalfRead(s.rd);
    IdsReturnAll(Restarted(s.q.out), back, id);
    IdsAppend(Concat(s.q.wait), HalfRead(s.rd), id);
    assert Ids(Restarted(s.q.out), id) == Ids(s.q.out, id) by {
      if s.q.out != [] {
        assert Restarted(s.q.out)[1..] == s.q.out[1..];
      }
    }
    EmptyTableConcat(EmptyTable(|s.q.wait|));
  }

  /** Every reconnect conserves, whether it succeeds, fails or is disabled. */
  lemma ReconnectConserves(s: State, ok: bool, id: nat)
    ensures Total(Reconnect(s, ok), id) == Total(s, id)
  {
    if s.cfg.autoReconnect == 0 {
      PurgeConserves(s, id);
    } else {
      RequeueConserves(s, id);
      var s1 := Requeue(s);
      if s.cfg.autoReconnect < 0 || s1.link.numRetries > 0 {
        var link := s1.link.(numRetries := s1.link.numRetries - 1, attempts := s1.link.attempts + 1);
        PurgeConserves(s1.(link := link), id);
      } else {
        PurgeConserves(s1, id);
      }
    }
  }

  // ---------------------------------------------------------------- the reader

  lemma ReportAdds(s: State, p: Pdu, status: Status, reply: seq<byte>, buffer: Option<seq<byte>>, id: nat)
    ensures Completed(Report(s, p, status, reply, buffer).log, id) == Completed(s.log, id) + One(p.id, id)
  {
    var c := Completion(p.id, p.xid, status, reply, buffer);
    CompletedAppend(s.log, [c], id);
    CompletedOne(c, id);
  }

  /** The PDU the reader holds, if any, counts once. */
  lemma Holding(rd: Reader, id: nat)
    ensures Ids(HalfRead(rd), id) == if rd.pdu.Some? then One(rd.pdu.value.id, id) else 0
  {
    if rd.pdu.Some? {
      IdsOne(rd.pdu.value, id);
    }
  }

  lemma FinishPduTotal(s: State, p: Pdu, got: seq<byte>, id: nat)
    ensures Total(FinishPdu(s, p, got), id) == InQueues(s.q, id) + Completed(s.log, id)
                                           + (if p.inp.freePdu then One(p.id, id) else 0)
  {
    Holding(BOUNDARY, id);
    ReportAdds(s, p, SUCCESS, got, Some(Gather(s.mem, Take(p.inp.addrs, |got|))), id);
  }

  lemma FinishMarkerConserves(s: State, id: nat)
    requires s.rd.pdu.None?
    ensures Total(FinishMarker(s), id) == Total(s, id)
  {
    hide Word, Find, AfterHead;
    var xid := Word(s.rd.buf, 4);
    FindConserves(s.q, xid, id);
    var (q, found) := Find(s.q, xid);
    Holding(s.rd, id);
    Holding(FinishMarker(s).rd, id);
    if found.Some? {
      IdsAfterHead(q.out, Rewound(found.value), id);
    }
  }

  lemma StartDataTotal(s: State, p: Pdu, at: nat, id: nat)
    ensures Total(StartData(s, p, at), id)
         == InQueues(s.q, id) + Completed(s.log, id)
            + (if EndsAtOnce(s.rd.buf, p, at) && !p.inp.freePdu then 0 else One(p.id, id))
  {
    hide Word, Scatter, Gather;
    var r := StartData(s, p, at);
    Holding(r.rd, id);
    var b := s.rd.buf;
    if at + 4 <= |b| {
      var count := Min(Word(b, at), |p.inp.addrs|);
      var todo := Take(p.inp.todo, count);
      var n := Min(Min(|b| - (at + 4), count), |todo|);
      var data := b[at + 4..at + 4 + n];
      FinishPduTotal(s.(mem := Scatter(s.mem, Take(todo, n), data)), WithTodo(p, []), data, id);
    }
  }

  /** The reply to a zero-copy READ is accepted and decodes as a READ3 result. */
  predicate GoodRead(b: seq<byte>)
  {
    var h := ReplyHeader(b);
    h.Accepted? && !ReadResult(b, h.pos).BadResult?
  }

  /** Unless its header goes astray, processing a reply conserves exactly when the PDU
      is not a zero-copy READ, or the reply is a good READ reply, or it is refused and dropped at once.
      In every other case the error callback has run while the PDU is still held, and a reconnect will
      send it again. */
  lemma FinishPayloadConservesIff(s: State, p: Pdu, now: nat, id: nat)
    requires s.rd.pdu == Some(p)
    ensures !ReplyHeader(s.rd.buf).Astray? ==>
              (Total(FinishPayload(s, p, now), id) == Total(s, id)
               <==> (id != p.id || !p.inp.zeroCopy || GoodRead(s.rd.buf) || RefusedButDone(s.rd.buf, p)))
  {
    hide Decodes, EndsAtOnce;
    var b := s.rd.buf;
    var h := ReplyHeader(b);
    Holding(s.rd, id);
    Holding(BOUNDARY, id);
    ReportAdds(s, p, ERROR, b, None, id);
    if h.Astray? {
    } else if !p.inp.zeroCopy {
      ReportAdds(s, p, if Decodes(s.cfg, p, b) then SUCCESS else ERROR, b, None, id);
    } else if h.Refused? {
      StartDataTotal(ReportRefused(s, p), p, h.pos, id);
    } else if !GoodRead(b) {
      CrashTotal(s, p, id);
    } else {
      var r := ReadResult(b, h.pos);
      if r.FailedRead? {
        FinishPduTotal(s.(lastOk := now), Owed(p), [], id);
      } else {
        StartDataTotal(s.(lastOk := now), Owed(p), r.pos, id);
      }
    }
  }

  lemma CrashTotal(s: State, p: Pdu, id: nat)
    requires s.rd.pdu == Some(p)
    ensures Total(Crash(s, p), id) == Total(s, id) + One(p.id, id)
  {
    ReportAdds(s, p, ERROR, s.rd.buf, None, id);
    assert HalfRead(Crash(s, p).rd) == HalfRead(s.rd);
  }
}
