/** How `rpc_write_to_socket` gathers the pending bytes of several PDUs into one `writev`: the
    coalesced iovec array flattens to a non-empty prefix of what is pending. */
module Gathering {
  import opened Bytes
  import opened Transport

  const RPC_MAX_VECTORS: nat := 1024

  lemma {:induction false} FlattenAppend(a: seq<OutBuffer>, b: seq<OutBuffer>)
    ensures Flatten(a + b) == Flatten(a) + Flatten(b)
  {
    if a == [] {
      assert a + b == b;
    } else {
      assert (a + b)[1..] == a[1..] + b;
      FlattenAppend(a[1..], b);
    }
  }

  lemma FlattenSnoc(a: seq<OutBuffer>, b: OutBuffer)
    ensures Flatten(a + [b]) == Flatten(a) + b.data
  {
    FlattenAppend(a, [b]);
    assert [b][1..] == [] && Flatten([b]) == b.data + Flatten([]);
  }

  /** Merging a buffer into the last vector leaves the bytes as they are. */
  lemma FlattenMerge(a: seq<OutBuffer>, data: seq<byte>)
    requires a != []
    ensures var last := a[|a| - 1];
            Flatten(a[..|a| - 1] + [last.(data := last.data + data)]) == Flatten(a) + data
  {
    var init, last := a[..|a| - 1], a[|a| - 1];
    assert a == init + [last];
    FlattenSnoc(init, last);
    FlattenSnoc(init, last.(data := last.data + data));
  }

  /** `b.data` is what memory holds at `b.base`. */
  ghost predicate Backed(mem: seq<byte>, b: OutBuffer)
  {
    b.base + |b.data| <= |mem| && mem[b.base..b.base + |b.data|] == b.data
  }

  ghost predicate AllBacked(mem: seq<byte>, v: seq<OutBuffer>)
  {
    forall i :: 0 <= i < |v| ==> Backed(mem, v[i])
  }

  lemma BackedSuffix(mem: seq<byte>, b: OutBuffer, k: nat)
    requires Backed(mem, b) && k <= |b.data|
    ensures Backed(mem, OutBuffer(b.base + k, b.data[k..]))
  {
    assert mem[b.base + k..b.base + |b.data|] == mem[b.base..b.base + |b.data|][k..];
  }

  lemma BackedMerge(mem: seq<byte>, a: OutBuffer, b: OutBuffer)
    requires Backed(mem, a) && Backed(mem, b) && a.base + |a.data| == b.base
    ensures Backed(mem, a.(data := a.data + b.data))
  {
    var k := |a.data|;
    assert mem[a.base..a.base + k + |b.data|] == mem[a.base..a.base + k] + mem[b.base..b.base + |b.data|];
  }

  /** The end of the last vector, which is where the C code's `last_buf` points if it is set. */
  predicate EndsAt(iov: seq<OutBuffer>, lastBuf: Option<nat>)
  {
    lastBuf.Some? ==> iov != [] && iov[|iov| - 1].base + |iov[|iov| - 1].data| == lastBuf.value
  }

  /** Adds a piece to the vector, merging it with the last one if memory is contiguous. */
  method AddPiece(iov: seq<OutBuffer>, lastBuf: Option<nat>, piece: OutBuffer, cap: nat, ghost mem: seq<byte>)
    returns (iov': seq<OutBuffer>, lastBuf': Option<nat>)
    requires EndsAt(iov, lastBuf) && |iov| < cap && piece.data != []
    ensures Flatten(iov') == Flatten(iov) + piece.data && |iov'| <= cap && (|iov'| < cap ==> EndsAt(iov', lastBuf'))
    ensures |iov'| <= |iov| + 1
    ensures AllBacked(mem, iov) && Backed(mem, piece) ==> AllBacked(mem, iov')
  {
    if lastBuf != Some(piece.base) {
      iov' := iov + [piece];
      FlattenSnoc(iov, piece);
      lastBuf' := if |iov'| >= cap then lastBuf else Some(piece.base + |piece.data|);
    } else {
      var last := iov[|iov| - 1];
      iov' := iov[..|iov| - 1] + [last.(data := last.data + piece.data)];
      FlattenMerge(iov, piece.data);
      lastBuf' := Some(piece.base + |piece.data|);
      if AllBacked(mem, iov) && Backed(mem, piece) {
        assert Backed(mem, last);
        BackedMerge(mem, last, piece);
      }
    }
  }

  /** One turn of the loop over the buffers of a PDU; `numDone` bytes are still to be skipped. */
  method AddBuffer(b: OutBuffer, numDone: nat, iov: seq<OutBuffer>, lastBuf: Option<nat>, cap: nat,
                   ghost mem: seq<byte>)
    returns (iov': seq<OutBuffer>, lastBuf': Option<nat>, skip: nat)
    requires EndsAt(iov, lastBuf) && |iov| < cap
    ensures Flatten(iov') == Flatten(iov) + Drop(b.data, numDone)
    ensures skip == numDone - Min(numDone, |b.data|) && |iov'| <= |iov| + 1
    ensures |iov'| <= cap && (|iov'| < cap ==> EndsAt(iov', lastBuf'))
    ensures |iov'| != |iov| ==> Drop(b.data, numDone) != []
    ensures AllBacked(mem, iov) && Backed(mem, b) ==> AllBacked(mem, iov')
  {
    if numDone >= |b.data| {
      return iov, lastBuf, numDone - |b.data|;
    }
    if Backed(mem, b) {
      BackedSuffix(mem, b, numDone);
    }
    iov', lastBuf' := AddPiece(iov, lastBuf, OutBuffer(b.base + numDone, b.data[numDone..]), cap, mem);
    skip := 0;
  }

  /** Adds what is pending of one PDU, as far as there is room for vectors. */
  method GatherPdu(p: Pdu, iov: seq<OutBuffer>, lastBuf: Option<nat>, cap: nat, ghost mem: seq<byte>)
    returns (iov': seq<OutBuffer>, lastBuf': Option<nat>, ghost pending: seq<byte>)
    requires EndsAt(iov, lastBuf) && |iov| < cap
    ensures pending <= Drop(Record(p), p.out.numDone) && Flatten(iov') == Flatten(iov) + pending
    ensures |iov'| <= cap && (|iov'| < cap ==> EndsAt(iov', lastBuf') && pending == Drop(Record(p), p.out.numDone))
    ensures p.out.numDone < |Record(p)| ==> pending != []
    ensures |iov'| <= |iov| + |p.out.bufs|
    ensures AllBacked(mem, iov) && AllBacked(mem, p.out.bufs) ==> AllBacked(mem, iov')
  {
    hide Flatten;
    var bufs, skip := p.out.bufs, p.out.numDone;
    FlattenNone();
    assert bufs[..0] == [];
    iov', lastBuf' := iov, lastBuf;
    var i := 0;
    while i < |bufs| && |iov'| < cap
      invariant 0 <= i <= |bufs| && 0 <= skip <= p.out.numDone && |iov'| <= |iov| + i
      invariant p.out.numDone - skip == Min(p.out.numDone, |Flatten(bufs[..i])|)
      invariant Flatten(iov') == Flatten(iov) + Drop(Flatten(bufs[..i]), p.out.numDone)
      invariant |iov'| <= cap && (|iov'| < cap ==> EndsAt(iov', lastBuf'))
      invariant |iov'| != |iov| ==> Drop(Flatten(bufs[..i]), p.out.numDone) != []
      invariant AllBacked(mem, iov) && AllBacked(mem, bufs) ==> AllBacked(mem, iov')
    {
      PendingStep(p, i, skip);
      iov', lastBuf', skip := AddBuffer(bufs[i], skip, iov', lastBuf', cap, mem);
      i := i + 1;
    }
    pending := Drop(Flatten(bufs[..i]), p.out.numDone);
    PendingIsPrefix(p, i);
    assert bufs[..|bufs|] == bufs;
  }

  lemma FlattenNone()
    ensures Flatten([]) == []
  {
  }

  lemma PendingStep(p: Pdu, i: nat, numDone: nat)
    requires i < |p.out.bufs| && numDone <= p.out.numDone
    requires p.out.numDone - numDone == Min(p.out.numDone, |Flatten(p.out.bufs[..i])|)
    ensures var b := p.out.bufs[i];
            && |Flatten(p.out.bufs[..i + 1])| == |Flatten(p.out.bufs[..i])| + |b.data|
            && Drop(Flatten(p.out.bufs[..i + 1]), p.out.numDone)
               == Drop(Flatten(p.out.bufs[..i]), p.out.numDone) + Drop(b.data, numDone)
  {
    assert p.out.bufs[..i + 1] == p.out.bufs[..i] + [p.out.bufs[i]];
    FlattenSnoc(p.out.bufs[..i], p.out.bufs[i]);
  }

  lemma PendingIsPrefix(p: Pdu, i: nat)
    requires i <= |p.out.bufs|
    ensures Drop(Flatten(p.out.bufs[..i]), p.out.numDone) <= Drop(Record(p), p.out.numDone)
  {
    assert p.out.bufs == p.out.bufs[..i] + p.out.bufs[i..];
    FlattenAppend(p.out.bufs[..i], p.out.bufs[i..]);
  }

  lemma {:induction false} PendingSnoc(q: seq<Pdu>, k: nat)
    requires k < |q|
    ensures Pending(q[..k + 1]) == Pending(q[..k]) + Drop(Record(q[k]), q[k].out.numDone)
    decreases k
  {
    if k == 0 {
      assert q[..1] == [q[0]] && q[..1][1..] == [] && q[..0] == [];
    } else {
      assert q[..k + 1][1..] == q[1..][..k] && q[..k][1..] == q[1..][..k - 1];
      PendingSnoc(q[1..], k - 1);
    }
  }

  lemma PrefixGrows(a: seq<byte>, x: seq<byte>, y: seq<byte>)
    requires x <= y
    ensures a + x <= a + y
  {
  }

  ghost predicate QueueBacked(mem: seq<byte>, q: seq<Pdu>)
  {
    forall i :: 0 <= i < |q| ==> AllBacked(mem, q[i].out.bufs)
  }

  /** How many vectors a queue needs if nothing is merged. */
  function BufferCount(q: seq<Pdu>): (n: nat)
  {
    if q == [] then 0 else BufferCount(q[..|q| - 1]) + |q[|q| - 1].out.bufs|
  }

  lemma {:induction false} BufferCountPrefix(q: seq<Pdu>, k: nat)
    requires k <= |q|
    ensures BufferCount(q[..k]) <= BufferCount(q)
  {
    if k < |q| {
      BufferCountPrefix(q[..|q| - 1], k);
      assert q[..|q| - 1][..k] == q[..k];
    } else {
      assert q[..k] == q;
    }
  }

  /** The vectors hold a prefix of what the first `num` PDUs have pending, and all of it unless the
      vectors are used up. */
  ghost predicate Gathered(q: seq<Pdu>, num: nat, cap: nat, iov: seq<OutBuffer>, lastBuf: Option<nat>)
    requires num <= |q|
  {
    && |iov| <= cap && |iov| <= BufferCount(q[..num])
    && (num > 0 ==> Flatten(iov) != []) && Flatten(iov) <= Pending(q[..num])
    && (|iov| < cap ==> EndsAt(iov, lastBuf) && Flatten(iov) == Pending(q[..num]))
  }

  method GatherNext(q: seq<Pdu>, num: nat, iov: seq<OutBuffer>, lastBuf: Option<nat>, cap: nat, ghost mem: seq<byte>)
    returns (iov': seq<OutBuffer>, lastBuf': Option<nat>)
    requires num < |q| && q[num].out.numDone < |Record(q[num])|
    requires Gathered(q, num, cap, iov, lastBuf) && |iov| < cap
    ensures Gathered(q, num + 1, cap, iov', lastBuf')
    ensures AllBacked(mem, iov) && AllBacked(mem, q[num].out.bufs) ==> AllBacked(mem, iov')
  {
    ghost var pending;
    iov', lastBuf', pending := GatherPdu(q[num], iov, lastBuf, cap, mem);
    PendingSnoc(q, num);
    assert q[..num + 1][..num] == q[..num];
    PrefixGrows(Flatten(iov), pending, Drop(Record(q[num]), q[num].out.numDone));
  }

  /** The do-while loop: PDUs are added while there is room for PDUs and for vectors. */
  method GatherVectors(q: seq<Pdu>, room: nat, cap: nat, ghost mem: seq<byte>) returns (iov: seq<OutBuffer>, num: nat)
    requires 0 < room <= |q| && 0 < cap
    requires forall i :: 0 <= i < |q| ==> q[i].out.numDone < |Record(q[i])|
    ensures 1 <= num <= room && 1 <= |iov| <= cap
    ensures Flatten(iov) != [] && Flatten(iov) <= Pending(q[..num])
    ensures |iov| < cap ==> num == room && Flatten(iov) == Pending(q[..num])
    ensures BufferCount(q[..room]) < cap ==> num == room && Flatten(iov) == Pending(q[..num])
    ensures QueueBacked(mem, q) ==> AllBacked(mem, iov)
  {
    var lastBuf: Option<nat>;
    iov, lastBuf, num := [], None, 0;
    while num == 0 || (num < room && |iov| < cap)
      invariant 0 <= num <= room && (num == 0 ==> iov == [])
      invariant Gathered(q, num, cap, iov, lastBuf)
      invariant QueueBacked(mem, q) ==> AllBacked(mem, iov)
      decreases room - num
    {
      assert AllBacked(mem, q[num].out.bufs) || !QueueBacked(mem, q);
      iov, lastBuf := GatherNext(q, num, iov, lastBuf, cap, mem);
      num := num + 1;
    }
    BufferCountPrefix(q[..room], num);
    assert q[..room][..num] == q[..num];
  }
}
