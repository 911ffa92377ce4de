/** The timeout scan: no PDU is lost, every deadline that is left lies in the future, exactly the
    expired PDUs that must not be retried are completed with TIMEOUT, and a PDU is retransmitted by
    scans at most `retrans` times between two settings of its major deadline. */
module Timeouts {
  import opened Bytes
  import opened Iovec
  import opened Transport
  import opened Conservation
  import opened QueueInvariants

  predicate Later(p: Pdu, t: nat)
  {
    p.timer.timeout == 0 || p.timer.timeout > t
  }

  predicate BothLater(p: Pdu, t: nat)
  {
    p.timer.timeout == 0 || (p.timer.timeout > t && p.timer.majorTimeout > t)
  }

  predicate Dies(cfg: Config, p: Pdu)
  {
    !Retryable(cfg, p)
  }

  ghost predicate TailUnsent(q: seq<Pdu>)
  {
    forall i :: 0 < i < |q| ==> q[i].out.numDone == 0
  }

  ghost predicate NoneSent(q: seq<Pdu>)
  {
    forall i :: 0 <= i < |q| ==> q[i].out.numDone == 0
  }

  predicate HeadDies(cfg: Config, q: seq<Pdu>, t: nat)
  {
    q != [] && ExpiredQueued(q[0], t) && Dies(cfg, q[0])
  }

  lemma DeferredReady(cfg: Config, n: nat, p: Pdu, t: nat)
    requires Ready(cfg, n, p)
    ensures Ready(cfg, n, Deferred(cfg, p, t)) && Later(Deferred(cfg, p, t), t)
  {
    NewTimerPaced(cfg, p.timer.(timeout := 0, majorTimeout := 0), t);
  }

  lemma {:induction false} ScanQueuedKeeps(cfg: Config, n: nat, q: seq<Pdu>, t: nat)
    requires AllReady(cfg, n, q) && TailUnsent(q)
    ensures var r := ScanQueued(cfg, q, t).0;
            && AllReady(cfg, n, r) && TailUnsent(r)
            && (forall i :: 0 <= i < |r| ==> Later(r[i], t))
            && (if q == [] then r == []
                else if HeadDies(cfg, q, t) then NoneSent(r)
                else r != [] && r[0].out == q[0].out)
  {
    if q != [] {
      var init, p := q[..|q| - 1], q[|q| - 1];
      assert Ready(cfg, n, p);
      DeferredReady(cfg, n, p, t);
      ScanQueuedKeeps(cfg, n, init, t);
    }
  }

  /** `p`, not yet sent, is past its minor deadline and must not be retried; `c` is its callback. */
  predicate EndsQueued(cfg: Config, p: Pdu, t: nat, c: Completion)
  {
    && p.timer.timeout != 0 && p.timer.timeout <= t && (p.timer.doNotRetry || cfg.retrans <= 0)
    && c == Completion(p.id, p.xid, TIMEOUT, [], None)
  }

  /** `p`, waiting for a reply, is past one of its deadlines and must not be retried; `c` is its callback. */
  predicate EndsSent(cfg: Config, p: Pdu, t: nat, c: Completion)
  {
    && p.timer.timeout != 0 && (p.timer.timeout <= t || p.timer.majorTimeout <= t)
    && (p.timer.doNotRetry || cfg.retrans <= 0)
    && c == Completion(p.id, p.xid, TIMEOUT, [], None)
  }

  ghost predicate KilledQueued(cfg: Config, q: seq<Pdu>, t: nat, c: Completion)
  {
    exists i :: 0 <= i < |q| && EndsQueued(cfg, q[i], t, c)
  }

  ghost predicate KilledSent(cfg: Config, q: seq<Pdu>, t: nat, c: Completion)
  {
    exists i :: 0 <= i < |q| && EndsSent(cfg, q[i], t, c)
  }

  /** The callbacks of the first loop are exactly those of the expired PDUs that must not be retried. */
  lemma {:induction false} ScanQueuedLog(cfg: Config, q: seq<Pdu>, t: nat, c: Completion)
    ensures c in ScanQueued(cfg, q, t).1 <==> KilledQueued(cfg, q, t, c)
  {
    if q != [] {
      var init, p := q[..|q| - 1], q[|q| - 1];
      ScanQueuedLog(cfg, init, t, c);
      if KilledQueued(cfg, init, t, c) {
        var i :| 0 <= i < |init| && EndsQueued(cfg, init[i], t, c);
        assert q[i] == init[i];
      }
      if i :| 0 <= i < |q| && EndsQueued(cfg, q[i], t, c) {
        assert i < |init| ==> init[i] == q[i];
      }
    }
  }

  // ---------------------------------------------------------------- sent PDUs

  lemma RetrySound(cfg: Config, n: nat, p: Pdu, t: nat)
    requires Sound(cfg, n, p) && ExpiredSent(p, t) && Retryable(cfg, p)
    ensures Sound(cfg, n, Retry(cfg, p, t)) && Later(Retry(cfg, p, t), t)
  {
    RetryPaced(cfg, p, t);
  }

  ghost predicate AgainOk(cfg: Config, n: nat, q: seq<Pdu>, t: nat)
  {
    forall i :: 0 <= i < |q| ==> Sound(cfg, n, q[i]) && Later(q[i], t)
  }

  lemma {:induction false} ScanSentKeeps(cfg: Config, n: nat, q: seq<Pdu>, t: nat)
    requires AllReady(cfg, n, q)
    ensures var w := ScanSent(cfg, q, t);
            && AllReady(cfg, n, w.kept) && AgainOk(cfg, n, w.again, t)
            && (forall i :: 0 <= i < |w.kept| ==> w.kept[i] in q && BothLater(w.kept[i], t))
  {
    if q != [] {
      var init, p := q[..|q| - 1], q[|q| - 1];
      assert Ready(cfg, n, p);
      ScanSentKeeps(cfg, n, init, t);
      if ExpiredSent(p, t) && Retryable(cfg, p) {
        RetrySound(cfg, n, p, t);
      }
    }
  }

  lemma {:induction false} ScanSentLog(cfg: Config, q: seq<Pdu>, t: nat, c: Completion)
    ensures c in ScanSent(cfg, q, t).log <==> KilledSent(cfg, q, t, c)
  {
    if q != [] {
      var init, p := q[..|q| - 1], q[|q| - 1];
      ScanSentLog(cfg, init, t, c);
      if KilledSent(cfg, init, t, c) {
        var i :| 0 <= i < |init| && EndsSent(cfg, init[i], t, c);
        assert q[i] == init[i];
      }
      if i :| 0 <= i < |q| && EndsSent(cfg, q[i], t, c) {
        assert i < |init| ==> init[i] == q[i];
      }
    }
  }

  ghost predicate TableLater(w: seq<seq<Pdu>>, t: nat)
  {
    forall i, j :: 0 <= i < |w| && 0 <= j < |w[i]| ==> BothLater(w[i][j], t)
  }

  /** `Hashed` for the first buckets of a table of `size` buckets. */
  ghost predicate HashedIn(w: seq<seq<Pdu>>, size: nat)
    requires size > 0
  {
    forall i, j :: 0 <= i < |w| && 0 <= j < |w[i]| ==> Hash(w[i][j].xid, size) == i
  }

  lemma {:induction false} ScanTableKeeps(cfg: Config, n: nat, w: seq<seq<Pdu>>, t: nat, size: nat)
    requires size > 0 && TableReady(cfg, n, w) && HashedIn(w, size)
    ensures var r := ScanTable(cfg, w, t);
            && TableReady(cfg, n, r.kept) && HashedIn(r.kept, size) && TableLater(r.kept, t)
            && AgainOk(cfg, n, r.again, t)
  {
    if w != [] {
      var init, q := w[..|w| - 1], w[|w| - 1];
      ScanTableKeeps(cfg, n, init, t, size);
      assert AllReady(cfg, n, q);
      ScanSentKeeps(cfg, n, q, t);
      var r0, b, r := ScanTable(cfg, init, t), ScanSent(cfg, q, t), ScanTable(cfg, w, t);
      assert forall i | 0 <= i < |init| :: r.kept[i] == r0.kept[i];
      forall j | 0 <= j < |b.kept| ensures Hash(b.kept[j].xid, size) == |w| - 1 {
        var k :| 0 <= k < |q| && q[k] == b.kept[j];
        assert w[|w| - 1][k] == q[k];
      }
    }
  }

  lemma {:induction false} ScanTableLog(cfg: Config, w: seq<seq<Pdu>>, t: nat, c: Completion)
    ensures c in ScanTable(cfg, w, t).log
       <==> exists i :: 0 <= i < |w| && KilledSent(cfg, w[i], t, c)
  {
    if w != [] {
      var init, last := w[..|w| - 1], |w| - 1;
      ScanTableLog(cfg, init, t, c);
      ScanSentLog(cfg, w[last], t, c);
      if c in ScanTable(cfg, init, t).log {
        var i :| 0 <= i < |init| && KilledSent(cfg, init[i], t, c);
        assert w[i] == init[i];
      }
      if i :| 0 <= i < |w| && KilledSent(cfg, w[i], t, c) && i < last {
        assert init[i] == w[i];
      }
    }
  }

  lemma {:induction false} ReturnAllFrame(q: seq<Pdu>, ps: seq<Pdu>, t: nat)
    requires TailUnsent(q)
    ensures var r := ReturnAll(q, ps);
            && TailUnsent(r)
            && (if q == [] then NoneSent(r) else r != [] && r[0] == q[0])
    ensures (forall i :: 0 <= i < |q| ==> Later(q[i], t)) && (forall i :: 0 <= i < |ps| ==> Later(ps[i], t))
        ==> forall i :: 0 <= i < |ReturnAll(q, ps)| ==> Later(ReturnAll(q, ps)[i], t)
    decreases |ps|
  {
    if ps != [] {
      ReturnAllFrame(AfterHead(q, Rewound(ps[0])), ps[1..], t);
    }
  }

  // ---------------------------------------------------------------- the scan

  lemma SweptOk(cfg: Config, n: nat, q: Queues, t: nat)
    requires QueuesOk(cfg, n, q)
    ensures QueuesOk(cfg, n, SweptQueues(cfg, q, t)) && (Counted(q) ==> Counted(SweptQueues(cfg, q, t)))
  {
    var w := ScanTable(cfg, q.wait, t);
    var s := ScanQueued(cfg, q.out, t).0;
    ScanQueuedKeeps(cfg, n, q.out, t);
    ScanTableKeeps(cfg, n, q.wait, t, |q.wait|);
    ScanTableConserves(cfg, q.wait, t, 0);
    ReturnAllFrame(s, w.again, t);
    ReturnAllReady(cfg, n, s, w.again);
    SweptFramed(cfg, n, q, s, ReturnAll(s, w.again), t);
    WireKept(q, ReturnAll(s, w.again), HalfSent(q.out) && HeadDies(cfg, q.out, t));
  }

  lemma SweptFramed(cfg: Config, n: nat, q: Queues, s: seq<Pdu>, r: seq<Pdu>, t: nat)
    requires AllReady(cfg, n, r) && HeadOnly(q.out) && TailUnsent(r)
    requires if q.out == [] then s == []
             else if HeadDies(cfg, q.out, t) then NoneSent(s)
             else s != [] && s[0].out == q.out[0].out
    requires if s == [] then NoneSent(r) else r != [] && r[0] == s[0]
    ensures HeadOnly(r)
    ensures Half(r) == if HalfSent(q.out) && HeadDies(cfg, q.out, t) then [] else Half(q.out)
  {
    if r != [] {
      assert Ready(cfg, n, r[0]);
    }
    if q.out == [] || HeadDies(cfg, q.out, t) {
      assert r == [] || r[0].out.numDone == 0;
      assert Half(r) == [];
    }
  }

  /** One effective scan at time `t`: no PDU is lost, duplicated or completed without leaving its
      queue, and every deadline that is left lies after `t`. */
  lemma ScanPartition(s: State, t: nat, id: nat)
    requires QueuesOk(s.cfg, |s.mem|, s.q)
    ensures var r := Swept(s, t);
            && Total(r, id) == Total(s, id)
            && (forall i :: 0 <= i < |r.q.out| ==> Later(r.q.out[i], t))
            && TableLater(r.q.wait, t)
  {
    SweepConserves(s, t, id);
    ScanQueuedKeeps(s.cfg, |s.mem|, s.q.out, t);
    ScanTableKeeps(s.cfg, |s.mem|, s.q.wait, t, |s.q.wait|);
    ReturnAllFrame(ScanQueued(s.cfg, s.q.out, t).0, ScanTable(s.cfg, s.q.wait, t).again, t);
  }

  /** The callbacks a scan makes are exactly those of the expired PDUs that must not be retried, with
      status TIMEOUT. */
  lemma ScanCallbacks(s: State, t: nat, c: Completion)
    ensures s.log <= Swept(s, t).log
    ensures c in Swept(s, t).log[|s.log|..]
       <==> KilledQueued(s.cfg, s.q.out, t, c)
            || exists i :: 0 <= i < |s.q.wait| && KilledSent(s.cfg, s.q.wait[i], t, c)
  {
    var log, w := ScanQueued(s.cfg, s.q.out, t).1, ScanTable(s.cfg, s.q.wait, t).log;
    assert Swept(s, t).log == s.log + (log + w);
    assert (s.log + (log + w))[|s.log|..] == log + w;
    ScanQueuedLog(s.cfg, s.q.out, t, c);
    ScanTableLog(s.cfg, s.q.wait, t, c);
  }

  /** A scan asks for a reconnect only if a retryable PDU reached its major deadline and the last
      successful reply is older than the timeout. */
  lemma ReconnectOnlyIfSilent(s: State, t: nat)
    requires NeedReconnect(s, t) && s.lastOk <= t < 0x1_0000_0000_0000_0000
    ensures s.lastOk != 0 ==> t - s.lastOk > s.cfg.timeout
    ensures exists i :: 0 <= i < |s.q.wait| && MajorTimeout(s.cfg, s.q.wait[i], t)
  {
    var flat := Concat(s.q.wait);
    var k :| 0 <= k < |flat| && ExpiredSent(flat[k], t) && Retryable(s.cfg, flat[k]) && flat[k].timer.majorTimeout <= t;
    InChain(s.q.wait, flat[k]);
    var i :| 0 <= i < |s.q.wait| && flat[k] in s.q.wait[i];
    var j :| 0 <= j < |s.q.wait[i]| && s.q.wait[i][j] == flat[k];
    assert MajorTimeout(s.cfg, s.q.wait[i], t);
  }

  /** The bound on retransmissions: whenever a scan puts a sent PDU back, this is at most the
      `retrans`-th time since its major deadline was set, and it is the last time before a new
      major deadline is set exactly when the old one has passed. */
  lemma RetransmissionBound(cfg: Config, n: nat, p: Pdu, t: nat)
    requires cfg.timeout > 0 && Sound(cfg, n, p) && ExpiredSent(p, t) && Retryable(cfg, p)
    ensures p.timer.resent + 1 <= cfg.retrans
    ensures var r := Retry(cfg, p, t).timer;
            if p.timer.majorTimeout <= t then r.resent == 0 && r.epoch == t
            else r.resent == p.timer.resent + 1 < cfg.retrans && r.epoch == p.timer.epoch
                 && r.majorTimeout == p.timer.majorTimeout
  {
    if p.timer.majorTimeout > t {
      MinorExpiryRoom(cfg, p.timer, t);
    }
  }
}
