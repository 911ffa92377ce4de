/** What every operation on the queues keeps: only the head of the out queue is half-sent and the
    wire carries whole records, every waiting PDU is in its hash bucket, the in-flight count is
    right and within its limit, and every queued PDU is ready to be sent and answered afresh. */
module QueueInvariants {
  import opened Bytes
  import opened Iovec
  import opened Transport
  import opened Conservation

  // ---------------------------------------------------------------- one PDU

  /** Deadlines of a PDU whose major deadline was set at `epoch`: after `resent` retransmissions its
      minor deadline lies beyond as many timeouts, so fewer than `retrans` of them fit. */
  ghost predicate Paced(cfg: Config, t: Timer)
  {
    cfg.timeout > 0 && cfg.retrans > 0 ==>
      && t.majorTimeout == t.epoch + cfg.timeout * cfg.retrans + cfg.slack
      && t.timeout >= t.epoch + (t.resent + 1) * (cfg.timeout + cfg.slack)
      && t.resent < cfg.retrans
  }

  /** `n` is the size of user memory. */
  ghost predicate Sound(cfg: Config, n: nat, p: Pdu)
  {
    && Record(p) != []
    && (p.inp.zeroCopy ==> NoDuplicates(p.inp.addrs) && forall i :: 0 <= i < |p.inp.addrs| ==> p.inp.addrs[i] < n)
    && (p.inp.freePdu ==> p.inp.zeroCopy)
    && Paced(cfg, p.timer)
  }

  /** A queued PDU also has its input cursor at the start of the user's buffers. */
  ghost predicate Ready(cfg: Config, n: nat, p: Pdu)
  {
    Sound(cfg, n, p) && p.inp.todo == p.inp.addrs
  }

  lemma HasRecord(cfg: Config, n: nat, p: Pdu)
    requires Ready(cfg, n, p)
    ensures Record(p) != []
  {
  }

  ghost predicate AllReady(cfg: Config, n: nat, q: seq<Pdu>)
  {
    forall i :: 0 <= i < |q| ==> Ready(cfg, n, q[i])
  }

  ghost predicate TableReady(cfg: Config, n: nat, w: seq<seq<Pdu>>)
  {
    forall i :: 0 <= i < |w| ==> AllReady(cfg, n, w[i])
  }

  lemma {:induction false} ChainReady(cfg: Config, n: nat, w: seq<seq<Pdu>>)
    requires TableReady(cfg, n, w)
    ensures AllReady(cfg, n, Concat(w))
  {
    if w != [] {
      ChainReady(cfg, n, w[1..]);
      assert AllReady(cfg, n, w[0]);
    }
  }

  lemma {:induction false} ReturnAllReady(cfg: Config, n: nat, q: seq<Pdu>, ps: seq<Pdu>)
    requires AllReady(cfg, n, q) && forall i :: 0 <= i < |ps| ==> Sound(cfg, n, ps[i])
    ensures AllReady(cfg, n, ReturnAll(q, ps))
    decreases |ps|
  {
    if ps != [] {
      ReturnAllReady(cfg, n, AfterHead(q, Rewound(ps[0])), ps[1..]);
    }
  }

  // ---------------------------------------------------------------- deadlines

  lemma Distribute(k: nat, a: int, b: int)
    ensures (k + 1) * a + a == (k + 2) * a
    ensures (k + 1) * (a + b) == (k + 1) * a + (k + 1) * b
  {
  }

  lemma MulMonotone(a: int, b: int, c: int)
    requires 0 < c && a * c < b * c
    ensures a < b
  {
    assert (b - a) * c == b * c - a * c;
  }

  lemma NewTimerPaced(cfg: Config, t: Timer, now: nat)
    requires t.majorTimeout == 0
    ensures Paced(cfg, SetTimeout(cfg, t, now))
  {
    if cfg.timeout > 0 && cfg.retrans > 0 {
      assert cfg.timeout * cfg.retrans >= cfg.timeout;
    }
  }

  /** A minor expiry before the major deadline leaves room for it: `resent + 1 < retrans`. */
  lemma MinorExpiryRoom(cfg: Config, t: Timer, now: nat)
    requires cfg.timeout > 0 && cfg.retrans > 0 && Paced(cfg, t) && t.timeout <= now < t.majorTimeout
    ensures t.resent + 1 < cfg.retrans
  {
    var k := t.resent;
    Distribute(k, cfg.timeout, cfg.slack);
    assert (k + 1) * cfg.slack >= cfg.slack by {
      assert k * cfg.slack >= 0;
      Distribute(k, cfg.slack, 0);
    }
    assert (k + 1) * cfg.timeout < cfg.retrans * cfg.timeout;
    MulMonotone(k + 1, cfg.retrans, cfg.timeout);
  }

  lemma RetryPaced(cfg: Config, p: Pdu, now: nat)
    requires Paced(cfg, p.timer) && ExpiredSent(p, now)
    ensures Paced(cfg, Retry(cfg, p, now).timer)
  {
    if cfg.timeout > 0 && cfg.retrans > 0 {
      if p.timer.majorTimeout <= now {
        NewTimerPaced(cfg, p.timer.(timeout := 0, majorTimeout := 0, resent := p.timer.resent + 1), now);
      } else {
        MinorExpiryRoom(cfg, p.timer, now);
        Distribute(p.timer.resent, cfg.timeout + cfg.slack, 0);
      }
    }
  }

  // ---------------------------------------------------------------- the wait table

  ghost predicate Hashed(w: seq<seq<Pdu>>)
  {
    forall i, j :: 0 <= i < |w| && 0 <= j < |w[i]| ==> Hash(w[i][j].xid, |w|) == i
  }

  lemma {:induction false} EnqueueAllKeeps(cfg: Config, n: nat, w: Table, ps: seq<Pdu>)
    requires Hashed(w) && TableReady(cfg, n, w) && AllReady(cfg, n, ps)
    ensures Hashed(EnqueueAll(w, ps)) && TableReady(cfg, n, EnqueueAll(w, ps))
    decreases |ps|
  {
    if ps != [] {
      var h := Hash(ps[0].xid, |w|);
      assert AllReady(cfg, n, w[h]);
      EnqueueAllKeeps(cfg, n, Enqueue(w, ps[0]), ps[1..]);
    }
  }

  lemma {:induction false} InChain(w: seq<seq<Pdu>>, p: Pdu)
    ensures p in Concat(w) <==> exists i :: 0 <= i < |w| && p in w[i]
  {
    if w != [] {
      InChain(w[1..], p);
      if p in Concat(w) && p !in w[0] {
        var i :| 0 <= i < |w[1..]| && p in w[1..][i];
        assert p in w[i + 1];
      }
      if i :| 0 <= i < |w| && p in w[i] && i > 0 {
        assert p in w[1..][i - 1];
      }
    }
  }

  ghost predicate Waiting(q: seq<Pdu>, xid: uint32)
  {
    exists i :: 0 <= i < |q| && q[i].xid == xid
  }

  /** The hashed table agrees with a flat one: the reader finds an xid exactly when a PDU with that
      xid is queued or waiting anywhere. */
  lemma FindAgreesWithFlatTable(q: Queues, xid: uint32)
    requires Hashed(q.wait)
    ensures Find(q, xid).1.Some? <==> Waiting(q.out, xid) || Waiting(Concat(q.wait), xid)
    ensures Find(q, xid).1.Some? ==> Find(q, xid).1.value.xid == xid
  {
    var h := Hash(xid, |q.wait|);
    var flat := Concat(q.wait);
    if k :| 0 <= k < |flat| && flat[k].xid == xid {
      InChain(q.wait, flat[k]);
      var i :| 0 <= i < |q.wait| && flat[k] in q.wait[i];
      var j :| 0 <= j < |q.wait[i]| && q.wait[i][j] == flat[k];
      assert i == h;
    }
    var j := IndexOf(q.wait[h], xid);
    if j < |q.wait[h]| {
      InChain(q.wait, q.wait[h][j]);
    }
  }

  // ---------------------------------------------------------------- the wire

  /** Only the head may be half-sent, and it is not completely sent. */
  ghost predicate HeadOnly(q: seq<Pdu>)
  {
    && (forall i :: 0 < i < |q| ==> q[i].out.numDone == 0)
    && (q != [] ==> q[0].out.numDone < |Record(q[0])|)
  }

  /** The part of the head's record that the socket has. */
  ghost function Half(q: seq<Pdu>): (r: seq<byte>)
  {
    if q == [] then [] else Take(Record(q[0]), q[0].out.numDone)
  }

  /** The socket accepted whole records and then a prefix of the head's record. */
  ghost predicate Framed(q: Queues)
  {
    q.wire.bytes == Concat(q.wire.records) + Half(q.out)
  }

  /** The socket accepted bytes that belong neither to a whole record nor to the head. */
  ghost predicate Surplus(q: Queues)
  {
    |q.wire.bytes| > |Concat(q.wire.records)| + |Half(q.out)|
  }

  ghost predicate WireOk(q: Queues)
  {
    if q.wire.torn then Surplus(q) else Framed(q)
  }

  lemma TornIff(q: Queues)
    requires WireOk(q)
    ensures q.wire.torn <==> !Framed(q)
  {
  }

  /** A change of the out queue that keeps the half-sent part, or drops one. */
  lemma WireKept(q: Queues, out: seq<Pdu>, tear: bool)
    requires WireOk(q) && HeadOnly(q.out)
    requires if tear then HalfSent(q.out) && Half(out) == [] else Half(out) == Half(q.out)
    ensures WireOk(q.(out := out, wire := q.wire.(torn := q.wire.torn || tear)))
  {
    hide Record, Concat;
    assert tear ==> |Half(q.out)| == q.out[0].out.numDone > 0;
  }

  lemma PendingZero(q: seq<Pdu>)
    requires q != [] && forall i :: 0 < i < |q| ==> q[i].out.numDone == 0
    ensures Half(q[1..]) == []
  {
  }

  /** Accounting for `n` accepted bytes is exact: the bytes accepted complete the head's half-sent
      record, then whole records, then a prefix of the new head; the rest stays pending. */
  lemma {:induction false} AccountExact(cfg: Config, m: nat, q: seq<Pdu>, n: nat)
    requires HeadOnly(q) && AllReady(cfg, m, q) && n <= |Pending(q)|
    ensures var (rest, done) := Account(q, n);
            && HeadOnly(rest) && AllReady(cfg, m, rest) && AllReady(cfg, m, done)
            && Half(q) + Take(Pending(q), n) == Concat(Records(done)) + Half(rest)
            && Pending(rest) == Drop(Pending(q), n)
    decreases |q|
  {
    hide Ready;
    if n != 0 && q != [] {
      var rec, k := Record(q[0]), q[0].out.numDone;
      if |rec| - k <= n {
        AccountWhole(cfg, m, q, n);
      } else {
        AccountPart(cfg, m, q, n);
      }
    } else {
      assert Take(Pending(q), n) == [] && Drop(Pending(q), n) == Pending(q);
    }
  }

  /** The case of `AccountExact` where the head stays half-sent. */
  lemma AccountPart(cfg: Config, m: nat, q: seq<Pdu>, n: nat)
    requires q != [] && HeadOnly(q) && AllReady(cfg, m, q) && 0 < n < |Record(q[0])| - q[0].out.numDone
    ensures var (rest, done) := Account(q, n);
            && HeadOnly(rest) && AllReady(cfg, m, rest) && done == []
            && Half(q) + Take(Pending(q), n) == Concat(Records(done)) + Half(rest)
            && Pending(rest) == Drop(Pending(q), n)
  {
    hide Flatten, Paced;
    var rec, k := Record(q[0]), q[0].out.numDone;
    var p := NumDone(q[0], k + n);
    var r := [p] + q[1..];
    assert r[1..] == q[1..] && Record(p) == rec;
    assert Ready(cfg, m, q[0]) && Ready(cfg, m, p);
    assert rec[..k] + rec[k..][..n] == rec[..k + n];
    assert Take(Pending(q), n) == rec[k..][..n];
    assert Drop(Pending(q), n) == rec[k + n..] + Pending(q[1..]);
  }

  lemma WholeRecordAlgebra(rec: seq<byte>, k: nat, pend: seq<byte>, left: nat, recs: seq<byte>, half: seq<byte>)
    requires k <= |rec| && left <= |pend| && Take(pend, left) == recs + half
    ensures Take(rec, k) + Take(Drop(rec, k) + pend, |rec| - k + left) == rec + recs + half
    ensures Drop(Drop(rec, k) + pend, |rec| - k + left) == Drop(pend, left)
  {
    assert (rec[k..] + pend)[..|rec| - k + left] == rec[k..] + pend[..left];
    assert rec[..k] + (rec[k..] + pend[..left]) == rec + pend[..left];
    assert (rec[k..] + pend)[|rec| - k + left..] == pend[left..];
  }

  lemma RecordsCons(p: Pdu, done: seq<Pdu>)
    ensures Concat(Records([p] + done)) == Record(p) + Concat(Records(done))
  {
    assert ([p] + done)[1..] == done;
    assert Records([p] + done)[1..] == Records(done);
  }

  lemma WholeReady(cfg: Config, m: nat, p: Pdu)
    requires Ready(cfg, m, p)
    ensures var w := NumDone(p, |Record(p)|); Ready(cfg, m, w) && Record(w) == Record(p)
  {
    hide Flatten, Paced;
  }

  /** The case of `AccountExact` where the head is completed. */
  lemma {:induction false} AccountWhole(cfg: Config, m: nat, q: seq<Pdu>, n: nat)
    requires q != [] && HeadOnly(q) && AllReady(cfg, m, q) && 0 < n <= |Pending(q)|
    requires |Record(q[0])| - q[0].out.numDone <= n
    ensures var (rest, done) := Account(q, n);
            && HeadOnly(rest) && AllReady(cfg, m, rest) && AllReady(cfg, m, done)
            && Half(q) + Take(Pending(q), n) == Concat(Records(done)) + Half(rest)
            && Pending(rest) == Drop(Pending(q), n)
    decreases |q|, 0
  {
    hide Sound, Flatten, Concat, Records, Take, Drop;
    var rec, k := Record(q[0]), q[0].out.numDone;
    var left := n - (|rec| - k);
    PendingZero(q);
    assert HeadOnly(q[1..]) by {
      if |q| > 1 {
        HasRecord(cfg, m, q[1]);
      }
    }
    AccountExact(cfg, m, q[1..], left);
    var (rest, done) := Account(q[1..], left);
    var p := NumDone(q[0], |rec|);
    WholeReady(cfg, m, q[0]);
    RecordsCons(p, done);
    assert Half(q[1..]) + Take(Pending(q[1..]), left) == Take(Pending(q[1..]), left);
    WholeRecordAlgebra(rec, k, Pending(q[1..]), left, Concat(Records(done)), Half(rest));
    assert Account(q, n) == (rest, [p] + done);
  }

  /** The number of PDUs a `writev` completes is at most the number it covers. */
  lemma {:induction false} AccountCovers(cfg: Config, m: nat, q: seq<Pdu>, n: nat, k: nat)
    requires HeadOnly(q) && AllReady(cfg, m, q) && k <= |q| && n <= |Pending(q[..k])|
    ensures |Account(q, n).1| <= k
    decreases |q|
  {
    assert k == 0 ==> q[..k] == [];
    if n != 0 && q != [] {
      var remaining := |Record(q[0])| - q[0].out.numDone;
      if remaining <= n {
        assert q[..k][1..] == q[1..][..k - 1];
        if |q| > 1 {
          assert Ready(cfg, m, q[1]);
        }
        AccountCovers(cfg, m, q[1..], n - remaining, k - 1);
      }
    }
  }

  lemma {:induction false} PendingPrefix(q: seq<Pdu>, k: nat)
    requires k <= |q|
    ensures Pending(q) == Pending(q[..k]) + Pending(q[k..])
  {
    if k > 0 {
      assert q[..k][1..] == q[1..][..k - 1] && q[k..] == q[1..][k - 1..];
      PendingPrefix(q[1..], k - 1);
    } else {
      assert q[..0] == [] && q[0..] == q;
    }
  }

  // ---------------------------------------------------------------- all queues

  ghost predicate QueuesOk(cfg: Config, n: nat, q: Queues)
  {
    && AllReady(cfg, n, q.out) && TableReady(cfg, n, q.wait)
    && Hashed(q.wait)
    && |Concat(q.wait)| <= q.waitLen
    && (cfg.maxWaitpduLen > 0 ==> q.waitLen <= cfg.maxWaitpduLen)
    && HeadOnly(q.out)
    && WireOk(q)
  }

  /** The in-flight counter is the number of waiting PDUs. */
  ghost predicate Counted(q: Queues)
  {
    q.waitLen == |Concat(q.wait)|
  }

  lemma SendOk(cfg: Config, m: nat, q: Queues, n: nat)
    requires QueuesOk(cfg, m, q) && n <= |Pending(q.out[..Room(cfg, q)])|
    ensures QueuesOk(cfg, m, Send(q, n)) && (Counted(q) ==> Counted(Send(q, n)))
    ensures Send(q, n).wire.torn == q.wire.torn
  {
    PendingPrefix(q.out, Room(cfg, q));
    AccountExact(cfg, m, q.out, n);
    AccountCovers(cfg, m, q.out, n, Room(cfg, q));
    var (rest, done) := Account(q.out, n);
    EnqueueAllKeeps(cfg, m, q.wait, done);
    EnqueueAllIds(q.wait, done, 0);
    SendFramed(q, n);
    if cfg.maxWaitpduLen > 0 && cfg.maxWaitpduLen <= q.waitLen {
      assert done == [];
    }
  }

  lemma SendFramed(q: Queues, n: nat)
    requires WireOk(q)
    requires Half(q.out) + Take(Pending(q.out), n) == Concat(Records(Account(q.out, n).1)) + Half(Account(q.out, n).0)
    ensures WireOk(Send(q, n))
  {
    hide Account, Records, Concat, Pending, Half;
    var (rest, done) := Account(q.out, n);
    ConcatAppend(q.wire.records, Records(done));
    Reassociate(Concat(q.wire.records), Half(q.out), Take(Pending(q.out), n), Concat(Records(done)), Half(rest));
  }

  lemma Reassociate(a: seq<byte>, b: seq<byte>, c: seq<byte>, d: seq<byte>, e: seq<byte>)
    requires b + c == d + e
    ensures a + b + c == a + d + e
  {
    assert a + b + c == a + (b + c) && a + d + e == a + (d + e);
  }

  lemma EnqueueOk(cfg: Config, n: nat, q: Queues, p: Pdu)
    requires QueuesOk(cfg, n, q) && Ready(cfg, n, p) && p.out.numDone == 0
    ensures QueuesOk(cfg, n, q.(out := q.out + [p]))
  {
    var r := q.out + [p];
    assert q.out != [] ==> r[0] == q.out[0];
    assert Half(r) == Half(q.out);
  }

  lemma AfterHeadOk(cfg: Config, n: nat, q: Queues, p: Pdu)
    requires QueuesOk(cfg, n, q) && Sound(cfg, n, p)
    ensures QueuesOk(cfg, n, q.(out := AfterHead(q.out, Rewound(p))))
  {
    assert Half(AfterHead(q.out, Rewound(p))) == Half(q.out);
  }

  /** Removing a PDU other than a half-sent head keeps the frame; removing a half-sent head breaks it. */
  lemma RemoveFramedIff(cfg: Config, n: nat, q: Queues, i: nat)
    requires i < |q.out| && HeadOnly(q.out) && AllReady(cfg, n, q.out) && Framed(q)
    ensures Framed(q.(out := RemoveAt(q.out, i))) <==> !(i == 0 && HalfSent(q.out))
  {
    RemoveHalf(q.out, i);
    assert |Half(q.out)| == q.out[0].out.numDone;
  }

  lemma RemoveHalf(out: seq<Pdu>, i: nat)
    requires i < |out| && HeadOnly(out)
    ensures Half(RemoveAt(out, i)) == if i == 0 then [] else Half(out)
    ensures !HalfSent(out) ==> Half(out) == []
  {
    hide Record;
    var r := RemoveAt(out, i);
    assert r != [] ==> r[0] == out[if i == 0 then 1 else 0];
  }

  lemma RemoveOk(cfg: Config, n: nat, out: seq<Pdu>, i: nat)
    requires i < |out| && HeadOnly(out) && AllReady(cfg, n, out)
    ensures HeadOnly(RemoveAt(out, i)) && AllReady(cfg, n, RemoveAt(out, i))
  {
    var r := RemoveAt(out, i);
    assert forall k | 0 <= k < |r| :: r[k] == out[if k < i then k else k + 1];
    if r != [] {
      assert Ready(cfg, n, r[0]);
    }
  }

  lemma FindOk(cfg: Config, n: nat, q: Queues, xid: uint32)
    requires QueuesOk(cfg, n, q)
    ensures QueuesOk(cfg, n, Find(q, xid).0) && (Counted(q) ==> Counted(Find(q, xid).0))
    ensures Find(q, xid).1.Some? ==> Ready(cfg, n, Find(q, xid).1.value)
  {
    var i := IndexOf(q.out, xid);
    if i < |q.out| {
      RemoveOk(cfg, n, q.out, i);
      RemoveHalf(q.out, i);
      WireKept(q, RemoveAt(q.out, i), i == 0 && HalfSent(q.out));
    } else {
      FindWaitingOk(cfg, n, q, xid);
    }
  }

  lemma FindWaitingOk(cfg: Config, n: nat, q: Queues, xid: uint32)
    requires QueuesOk(cfg, n, q) && IndexOf(q.out, xid) == |q.out|
    ensures QueuesOk(cfg, n, Find(q, xid).0) && (Counted(q) ==> Counted(Find(q, xid).0))
    ensures Find(q, xid).1.Some? ==> Ready(cfg, n, Find(q, xid).1.value)
  {
    hide Half, Sound;
    var h := Hash(xid, |q.wait|);
    var j := IndexOf(q.wait[h], xid);
    assert AllReady(cfg, n, q.wait[h]);
    if j < |q.wait[h]| {
      var b := RemoveAt(q.wait[h], j);
      assert forall k | 0 <= k < |b| :: b[k] == q.wait[h][if k < j then k else k + 1];
      ConcatUpdate(q.wait, h, b, 0);
      var w := q.wait[h := b];
      assert Hashed(w) && TableReady(cfg, n, w);
    }
  }
}
