/** What a timeout scan does to each PDU, and when it asks for a reconnect, in terms of deadlines. */
module ScanOutcome {
  import opened Bytes
  import opened Transport
  import opened QueueInvariants
  import opened Timeouts

  // ---------------------------------------------------------------- deadlines

  /** The deadlines that are set at time `now`. */
  predicate DueFrom(cfg: Config, t: Timer, now: nat)
  {
    if cfg.timeout <= 0 then t.timeout == 0
    else
      && t.timeout == now + cfg.timeout + cfg.slack
      && t.majorTimeout == if cfg.retrans >= 1 then now + cfg.timeout * cfg.retrans + cfg.slack else t.timeout
  }

  lemma Multiples(a: int, b: int)
    requires a > 0
    ensures b >= 1 ==> a * b >= a
    ensures b <= 0 ==> a * b <= 0
  {
  }

  /** A new PDU keeps what the caller gave it, is unsent, and has both deadlines from now on. */
  lemma NewPduIs(s: State, p: Pdu, now: nat)
    ensures var r := NewPdu(s, p, now);
            && r.id == s.nextId && r.xid == p.xid && r.out == Outgoing(p.out.bufs, 0)
            && r.inp == Incoming(p.inp.zeroCopy, p.inp.addrs, p.inp.addrs, false)
            && r.timer.doNotRetry == p.timer.doNotRetry && DueFrom(s.cfg, r.timer, now)
  {
    if s.cfg.timeout > 0 {
      Multiples(s.cfg.timeout, s.cfg.retrans);
    }
  }

  /** A PDU that timed out before it was sent gets both deadlines anew, and nothing else changes. */
  lemma DeferredIs(cfg: Config, p: Pdu, t: nat)
    ensures var r := Deferred(cfg, p, t);
            && r == p.(timer := r.timer) && r.timer.doNotRetry == p.timer.doNotRetry && DueFrom(cfg, r.timer, t)
  {
    if cfg.timeout > 0 {
      Multiples(cfg.timeout, cfg.retrans);
    }
  }

  /** A PDU that is put back gets a new minor deadline, a new major one only if the old one has passed,
      and is to be sent from its first byte into untouched buffers. */
  lemma RetriedIs(cfg: Config, p: Pdu, t: nat)
    ensures var r := Rewound(Retry(cfg, p, t));
            && r.id == p.id && r.xid == p.xid && r.out == Outgoing(p.out.bufs, 0)
            && r.inp == p.inp.(todo := p.inp.addrs) && r.timer.doNotRetry == p.timer.doNotRetry
            && if cfg.timeout <= 0 then r.timer.timeout == 0
               else if p.timer.majorTimeout <= t then DueFrom(cfg, r.timer, t)
               else r.timer.timeout == t + cfg.timeout + cfg.slack && r.timer.majorTimeout == p.timer.majorTimeout
  {
    if cfg.timeout > 0 {
      Multiples(cfg.timeout, cfg.retrans);
    }
  }

  // ---------------------------------------------------------------- where the PDUs are afterwards

  lemma {:induction false} KeptIff(cfg: Config, q: seq<Pdu>, t: nat, p: Pdu)
    ensures p in ScanSent(cfg, q, t).kept
       <==> p in q && (p.timer.timeout == 0 || (p.timer.timeout > t && p.timer.majorTimeout > t))
  {
    if q != [] {
      KeptIff(cfg, q[..|q| - 1], t, p);
      assert p in q <==> p in q[..|q| - 1] || p == q[|q| - 1];
    }
  }

  lemma {:induction false} KeptBucket(cfg: Config, w: seq<seq<Pdu>>, t: nat, h: nat)
    requires h < |w|
    ensures ScanTable(cfg, w, t).kept[h] == ScanSent(cfg, w[h], t).kept
  {
    if h < |w| - 1 {
      KeptBucket(cfg, w[..|w| - 1], t, h);
    }
  }

  /** After a scan a bucket holds exactly those of its PDUs that have no deadline or none that has passed. */
  lemma BucketAfterScan(s: State, t: nat, h: nat, p: Pdu)
    requires h < |s.q.wait|
    ensures |Swept(s, t).q.wait| == |s.q.wait|
    ensures p in Swept(s, t).q.wait[h]
       <==> p in s.q.wait[h] && (p.timer.timeout == 0 || (p.timer.timeout > t && p.timer.majorTimeout > t))
  {
    KeptBucket(s.cfg, s.q.wait, t, h);
    KeptIff(s.cfg, s.q.wait[h], t, p);
  }

  /** `p` waits for a reply, a deadline of it has passed, and it may be retried. */
  predicate Resent(cfg: Config, p: Pdu, t: nat)
  {
    && p.timer.timeout != 0 && (p.timer.timeout <= t || p.timer.majorTimeout <= t)
    && !p.timer.doNotRetry && cfg.retrans > 0
  }

  lemma {:induction false} AgainIff(cfg: Config, q: seq<Pdu>, t: nat, p: Pdu)
    ensures p in ScanSent(cfg, q, t).again
       <==> exists i :: 0 <= i < |q| && Resent(cfg, q[i], t) && p == Retry(cfg, q[i], t)
  {
    if q != [] {
      var init, last := q[..|q| - 1], q[|q| - 1];
      AgainIff(cfg, init, t, p);
      if i :| 0 <= i < |init| && Resent(cfg, init[i], t) && p == Retry(cfg, init[i], t) {
        assert q[i] == init[i];
      }
      if i :| 0 <= i < |q| && Resent(cfg, q[i], t) && p == Retry(cfg, q[i], t) {
        assert i < |init| ==> init[i] == q[i];
      }
    }
  }

  lemma {:induction false} AgainTable(cfg: Config, w: seq<seq<Pdu>>, t: nat, p: Pdu)
    ensures p in ScanTable(cfg, w, t).again
       <==> exists h, i :: 0 <= h < |w| && 0 <= i < |w[h]| && Resent(cfg, w[h][i], t) && p == Retry(cfg, w[h][i], t)
  {
    hide ScanSent, Resent, Retry;
    if w != [] {
      var init, last := w[..|w| - 1], w[|w| - 1];
      AgainTable(cfg, init, t, p);
      AgainIff(cfg, last, t, p);
      if h, i :| 0 <= h < |init| && 0 <= i < |init[h]| && Resent(cfg, init[h][i], t) && p == Retry(cfg, init[h][i], t) {
        assert w[h][i] == init[h][i];
      }
      if i :| 0 <= i < |last| && Resent(cfg, last[i], t) && p == Retry(cfg, last[i], t) {
        assert w[|w| - 1][i] == last[i];
      }
      if h, i :| 0 <= h < |w| && 0 <= i < |w[h]| && Resent(cfg, w[h][i], t) && p == Retry(cfg, w[h][i], t) {
        assert h < |init| ==> init[h][i] == w[h][i];
      }
    }
  }

  lemma {:induction false} QueuedIff(cfg: Config, q: seq<Pdu>, t: nat, p: Pdu)
    ensures p in ScanQueued(cfg, q, t).0
       <==> || (p in q && (p.timer.timeout == 0 || p.timer.timeout > t))
            || exists i :: 0 <= i < |q| && DeferredFrom(cfg, q[i], t, p)
  {
    if q != [] {
      var init, last := q[..|q| - 1], q[|q| - 1];
      QueuedIff(cfg, init, t, p);
      assert p in q <==> p in init || p == last;
      if i :| 0 <= i < |init| && DeferredFrom(cfg, init[i], t, p) {
        assert q[i] == init[i];
      }
      if i :| 0 <= i < |q| && DeferredFrom(cfg, q[i], t, p) {
        assert i < |init| ==> init[i] == q[i];
      }
    }
  }

  /** `q` was not sent before its minor deadline and may be retried; `p` is what it becomes. */
  predicate DeferredFrom(cfg: Config, q: Pdu, t: nat, p: Pdu)
  {
    && q.timer.timeout != 0 && q.timer.timeout <= t && !q.timer.doNotRetry && cfg.retrans > 0
    && p == Deferred(cfg, q, t)
  }

  lemma {:induction false} ReturnedIff(q: seq<Pdu>, ps: seq<Pdu>, p: Pdu)
    ensures p in ReturnAll(q, ps) <==> p in q || exists i :: 0 <= i < |ps| && p == Rewound(ps[i])
    decreases |ps|
  {
    hide Rewound;
    if ps != [] {
      var q1 := AfterHead(q, Rewound(ps[0]));
      ReturnedIff(q1, ps[1..], p);
      assert p in q1 <==> p in q || p == Rewound(ps[0]) by {
        assert q != [] ==> q == [q[0]] + q[1..];
      }
      if i :| 0 <= i < |ps| && p == Rewound(ps[i]) {
        assert i > 0 ==> ps[1..][i - 1] == ps[i];
      }
      if i :| 0 <= i < |ps[1..]| && p == Rewound(ps[1..][i]) {
        assert ps[i + 1] == ps[1..][i];
      }
    }
  }

  /** After a scan the out queue holds exactly the queued PDUs whose minor deadline has not passed, the
      deferred ones, and the waiting ones that are put back. */
  lemma OutQueueAfterScan(s: State, t: nat, p: Pdu)
    ensures p in Swept(s, t).q.out
       <==> || (p in s.q.out && (p.timer.timeout == 0 || p.timer.timeout > t))
            || (exists i :: 0 <= i < |s.q.out| && DeferredFrom(s.cfg, s.q.out[i], t, p))
            || (exists h, i :: 0 <= h < |s.q.wait| && 0 <= i < |s.q.wait[h]|
                               && Resent(s.cfg, s.q.wait[h][i], t) && p == Rewound(Retry(s.cfg, s.q.wait[h][i], t)))
  {
    hide ReturnAll, ScanQueued, ScanTable, Resent, DeferredFrom, Retry, Rewound;
    var q, again := ScanQueued(s.cfg, s.q.out, t).0, ScanTable(s.cfg, s.q.wait, t).again;
    QueuedIff(s.cfg, s.q.out, t, p);
    ReturnedIff(q, again, p);
    if i :| 0 <= i < |again| && p == Rewound(again[i]) {
      AgainTable(s.cfg, s.q.wait, t, again[i]);
    }
    if h, i :| 0 <= h < |s.q.wait| && 0 <= i < |s.q.wait[h]|
               && Resent(s.cfg, s.q.wait[h][i], t) && p == Rewound(Retry(s.cfg, s.q.wait[h][i], t)) {
      var r := Retry(s.cfg, s.q.wait[h][i], t);
      AgainTable(s.cfg, s.q.wait, t, r);
      var k :| 0 <= k < |again| && again[k] == r;
    }
  }

  // ---------------------------------------------------------------- reconnecting

  /** `p` may be retried, has deadlines, and its major one has passed. */
  predicate Unanswered(cfg: Config, p: Pdu, t: nat)
  {
    !p.timer.doNotRetry && cfg.retrans > 0 && p.timer.timeout != 0 && p.timer.majorTimeout <= t
  }

  /** A scan asks for a reconnect exactly when some waiting PDU that may be retried is past its major
      deadline and the last success is older than the timeout. */
  lemma ReconnectAskedIff(s: State, t: nat)
    ensures 0 < s.lastOk <= t && t - s.lastOk < 0x8000_0000 ==>
              (NeedReconnect(s, t)
               <==> t - s.lastOk > s.cfg.timeout
                    && exists h, i :: 0 <= h < |s.q.wait| && 0 <= i < |s.q.wait[h]|
                                      && Unanswered(s.cfg, s.q.wait[h][i], t))
    ensures s.lastOk == 0 ==>
              (NeedReconnect(s, t)
               <==> -1 > s.cfg.timeout
                    && exists h, i :: 0 <= h < |s.q.wait| && 0 <= i < |s.q.wait[h]|
                                      && Unanswered(s.cfg, s.q.wait[h][i], t))
  {
    MajorIff(s.cfg, s.q.wait, t);
    assert 0 < s.lastOk <= t && t - s.lastOk < 0x8000_0000 ==> SilentFor(s, t) == t - s.lastOk;
  }

  lemma MajorIff(cfg: Config, w: seq<seq<Pdu>>, t: nat)
    ensures MajorTimeout(cfg, Concat(w), t)
       <==> exists h, i :: 0 <= h < |w| && 0 <= i < |w[h]| && Unanswered(cfg, w[h][i], t)
  {
    var flat := Concat(w);
    if k :| 0 <= k < |flat| && ExpiredSent(flat[k], t) && Retryable(cfg, flat[k]) && flat[k].timer.majorTimeout <= t {
      InChain(w, flat[k]);
      var h :| 0 <= h < |w| && flat[k] in w[h];
      var i :| 0 <= i < |w[h]| && w[h][i] == flat[k];
      assert Unanswered(cfg, w[h][i], t);
    }
    if h, i :| 0 <= h < |w| && 0 <= i < |w[h]| && Unanswered(cfg, w[h][i], t) {
      InChain(w, w[h][i]);
      var k :| 0 <= k < |flat| && flat[k] == w[h][i];
      assert ExpiredSent(flat[k], t) && Retryable(cfg, flat[k]);
    }
  }

  /** From 2^31 milliseconds of silence on the difference is negative as a C `int`: up to 2^32 no scan asks
      for a reconnect, whatever the timeout. */
  lemma LongSilence(s: State, t: nat)
    requires 0 < s.lastOk <= t && 0x8000_0000 <= t - s.lastOk < TWO_32 && s.cfg.timeout >= 0
    ensures !NeedReconnect(s, t)
  {
  }
}
