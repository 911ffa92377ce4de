/** The record reader: how the bytes are cut by `recv` and `readv` does not matter, and a record
    is consumed whole and has exactly the effect of delivering its payload in one piece. */
module RecordReader {
  import opened Bytes
  import opened Iovec
  import opened Transport
  import Streams

  /** The reader as a machine that consumes the stream of a connection. */
  function Reading(now: nat): (m: Streams.Machine<State>)
  {
    Streams.Machine((s: State) => s.rd.need,
                    (s: State, c: seq<byte>) => if |c| <= s.rd.need then Recv(s, c, now) else s)
  }

  function Feed(s: State, stream: seq<byte>, now: nat): (r: State)
  {
    Streams.Feed(Reading(now), s, stream)
  }

  /** A store of more bytes than there are addresses ignores the surplus. */
  lemma {:induction false} ScatterSurplus(mem: seq<byte>, at: seq<nat>, x: seq<byte>, y: seq<byte>)
    requires |at| <= |x|
    ensures Scatter(mem, at, x + y) == Scatter(mem, at, x)
    decreases |x|
  {
    if at != [] {
      assert (x + y)[1..] == x[1..] + y;
      ScatterSurplus(if at[0] < |mem| then mem[at[0] := x[0]] else mem, at[1..], x[1..], y);
    }
  }

  lemma TakeDrop<T>(q: seq<T>, a: nat, b: nat)
    ensures Drop(Drop(q, a), b) == Drop(q, a + b)
    ensures a <= |q| ==> Take(q, a) + Take(Drop(q, a), b) == Take(q, a + b)
  {
  }

  /** Two reads in a row absorb what one read of both would. */
  lemma AbsorbAppend(s: State, a: seq<byte>, b: seq<byte>)
    requires |a| + |b| <= s.rd.need
    ensures Absorb(Absorb(s, a), b) == Absorb(s, a + b)
  {
    if s.rd.phase.Iovecs? && s.rd.pdu.Some? {
      ScatteredAppend(s, s.rd.pdu.value, a, b);
    } else {
      assert s.rd.buf + a + b == s.rd.buf + (a + b);
    }
  }

  lemma ScatteredAppend(s: State, p: Pdu, a: seq<byte>, b: seq<byte>)
    requires |a| + |b| <= s.rd.need
    ensures var m := Scattered(s, p, a);
            m.rd.pdu.Some? && Scattered(m, m.rd.pdu.value, b) == Scattered(s, p, a + b)
  {
    hide Scatter, Take, Drop;
    assert s.rd.got + a + b == s.rd.got + (a + b);
    TakeDrop(p.inp.todo, |a|, |b|);
    ScatterTwice(s.mem, p.inp.todo, a, b);
  }

  lemma ScatterTwice(mem: seq<byte>, todo: seq<nat>, a: seq<byte>, b: seq<byte>)
    ensures Scatter(Scatter(mem, Take(todo, |a|), a), Take(Drop(todo, |a|), |b|), b)
            == Scatter(mem, Take(todo, |a + b|), a + b)
  {
    TakeDrop(todo, |a|, |b|);
    if |a| <= |todo| {
      ScatterAppend(mem, Take(todo, |a|), Take(Drop(todo, |a|), |b|), a, b);
    } else {
      ScatterSurplus(mem, todo, a, b);
    }
  }

  lemma RecvAppend(s: State, a: seq<byte>, c: seq<byte>, now: nat)
    requires 0 < |c| && |a| + |c| <= s.rd.need
    ensures Recv(s, a, now).rd.need == s.rd.need - |a|
    ensures Recv(Recv(s, a, now), c, now) == Recv(s, a + c, now)
  {
    AbsorbAppend(s, a, c);
  }

  lemma ReadingSplittable(now: nat)
    ensures Streams.Splittable(Reading(now))
  {
    forall s: State, a: seq<byte>, c: seq<byte>
      ensures Streams.SplitLaw(Reading(now), s, a, c)
    {
      if 0 < |c| && |a| + |c| <= s.rd.need {
        RecvAppend(s, a, c, now);
      }
    }
  }

  lemma FeedNothing(s: State, now: nat)
    ensures Feed(s, [], now) == s
  {
  }

  /** One more `recv` after a stream. */
  lemma FeedMore(s: State, stream: seq<byte>, c: seq<byte>, now: nat)
    requires 1 <= |c| <= Feed(s, stream, now).rd.need
    ensures Feed(s, stream + c, now) == Recv(Feed(s, stream, now), c, now)
  {
    ReadingSplittable(now);
    Streams.FeedSplit(Reading(now), s, stream, c);
    Streams.FeedOnce(Reading(now), Feed(s, stream, now), c);
  }

  /** Split independence: two ways of cutting the same bytes leave the same state, so completions
      and user buffers depend only on the bytes. */
  lemma SplitIndependence(s: State, x: seq<seq<byte>>, y: seq<seq<byte>>, now: nat)
    requires Concat(x) == Concat(y)
    ensures Streams.FeedPieces(Reading(now), s, x) == Streams.FeedPieces(Reading(now), s, y) == Feed(s, Concat(x), now)
  {
    ReadingSplittable(now);
    Streams.SplitIndependence(Reading(now), s, x);
    Streams.SplitIndependence(Reading(now), s, y);
  }

  // ---------------------------------------------------------------- whole records

  /** A record in a single fragment: section 11 of RFC 5531. */
  function RecordOf(payload: seq<byte>): (r: seq<byte>)
    requires |payload| < 0x8000_0000
  {
    Be32(0x8000_0000 + |payload|) + payload
  }

  /** The part of a reply that is buffered before the user's buffers are filled directly. */
  function Preamble(payload: seq<byte>): (r: seq<byte>)
  {
    Take(payload, ZCRP)
  }

  /** The reply carries a data length word at `at` and its data is the last item of the record, no
      longer than the user's buffers. */
  predicate HasData(p: Pdu, payload: seq<byte>, at: nat)
  {
    && at % 4 == 0
    && at + 4 <= |Preamble(payload)|
    && Word(Preamble(payload), at) <= |p.inp.addrs|
    && |payload| == RoundUp4(at + 4 + Word(Preamble(payload), at))
  }

  /** Where an accepted READ3 reply with status NFS3_OK keeps its data length word. */
  function DataAt(payload: seq<byte>): (at: Option<nat>)
  {
    var h := ReplyHeader(Preamble(payload));
    if !h.Accepted? then None
    else
      var r := ReadResult(Preamble(payload), h.pos);
      if r.ReadOk? then Some(r.pos) else None
  }

  predicate IsReadReply(p: Pdu, payload: seq<byte>)
  {
    DataAt(payload).Some? && HasData(p, payload, DataAt(payload).value)
  }

  /** An accepted READ3 reply with an error status, which carries no data and is buffered whole. */
  predicate IsReadError(payload: seq<byte>)
  {
    var h := ReplyHeader(payload);
    |payload| <= ZCRP && h.Accepted? && ReadResult(payload, h.pos).FailedRead?
  }

  function ReadData(payload: seq<byte>, at: nat): (data: seq<byte>)
    requires at + 4 + Word(Preamble(payload), at) <= |payload|
  {
    payload[at + 4..at + 4 + Word(Preamble(payload), at)]
  }

  /** The user's buffers receive exactly `data` and the callback sees them so. */
  function Delivered(s: State, p: Pdu, data: seq<byte>): (r: State)
    requires |data| <= |p.inp.addrs|
  {
    var mem := Scatter(s.mem, p.inp.addrs[..|data|], data);
    Report(s.(mem := mem), p, SUCCESS, data, Some(Gather(mem, p.inp.addrs[..|data|]))).(rd := BOUNDARY)
  }

  /** A found PDU that the record is well-formed for. */
  predicate Answers(found: Option<Pdu>, payload: seq<byte>)
  {
    && 8 <= |payload| <= MAX_FRAGMENT_SIZE
    && if found.Some? && found.value.inp.zeroCopy
       then found.value.inp.todo == found.value.inp.addrs && (IsReadError(payload) || IsReadReply(found.value, payload))
       else |payload| <= INBUF_LIMIT && (found.Some? ==> !ReplyHeader(payload).Astray?)
  }

  predicate WellFormed(s: State, payload: seq<byte>)
  {
    Answers(Find(s.q, Word(payload, 0)).1, payload)
  }

  /** The data that a reply to a zero-copy READ brings. */
  function DataOf(p: Pdu, payload: seq<byte>): (data: seq<byte>)
    requires IsReadError(payload) || IsReadReply(p, payload)
    ensures |data| <= |p.inp.addrs|
  {
    if IsReadError(payload) then [] else ReadData(payload, DataAt(payload).value)
  }

  /** The effect of a whole reply on the transport, with no notion of pieces or phases. */
  function Deliver(s: State, payload: seq<byte>, now: nat): (r: State)
    requires WellFormed(s, payload)
  {
    var (q, found) := Find(s.q, Word(payload, 0));
    var f := s.(q := q, rd := BOUNDARY);
    if found.None? then f
    else if found.value.inp.zeroCopy then
      Delivered(f.(lastOk := now), found.value, DataOf(found.value, payload))
    else
      var ok := Decodes(s.cfg, found.value, payload);
      Report(f, found.value, if ok then SUCCESS else ERROR, payload, None).(lastOk := if ok then now else s.lastOk)
  }

  /** One complete piece takes the reader to `next`. */
  lemma FeedPiece(s: State, piece: seq<byte>, rest: seq<byte>, now: nat, next: State)
    requires |piece| == s.rd.need > 0 && next == Finish(Absorb(s, piece), now)
    ensures Feed(s, piece + rest, now) == Feed(next, rest, now)
  {
    Streams.FeedPiece(Reading(now), s, piece, rest, next);
  }

  lemma FeedTwoPieces(s: State, a: seq<byte>, m: State, b: seq<byte>, rest: seq<byte>, now: nat, next: State)
    requires |a| == s.rd.need > 0 && m == Finish(Absorb(s, a), now)
    requires |b| == m.rd.need > 0 && next == Finish(Absorb(m, b), now)
    ensures Feed(s, a + (b + rest), now) == Feed(next, rest, now)
  {
    FeedPiece(s, a, b + rest, now, m);
    FeedPiece(m, b, rest, now, next);
  }

  /** The first eight bytes of a record. */
  function Prefix8(payload: seq<byte>): (r: seq<byte>)
    requires 8 <= |payload| <= MAX_FRAGMENT_SIZE
    ensures |r| == 8
  {
    Be32(0x8000_0000 + |payload|) + payload[..4]
  }

  lemma Prefix8Words(payload: seq<byte>)
    requires 8 <= |payload| <= MAX_FRAGMENT_SIZE
    ensures Word(Prefix8(payload), 0) == 0x8000_0000 + |payload|
    ensures Word(Prefix8(payload), 4) == Word(payload, 0)
    ensures Drop(Prefix8(payload), 4) == payload[..4]
  {
    var x := Be32(0x8000_0000 + |payload|);
    assert Prefix8(payload) == [] + x + payload[..4];
    WordOfBe32([], 0x8000_0000 + |payload|, payload[..4]);
    assert forall k | 0 <= k < 4 :: Prefix8(payload)[4 + k] == payload[k];
  }

  lemma RecordCut(payload: seq<byte>, span: nat, rest: seq<byte>)
    requires 8 <= span <= |payload| <= MAX_FRAGMENT_SIZE
    ensures RecordOf(payload) + rest == Prefix8(payload) + (payload[4..span] + (payload[span..] + rest))
    ensures payload[..4] + payload[4..span] == payload[..span]
  {
  }

  /** The reader once it knows the size and the xid of a record. */
  function AfterMarker(s: State, payload: seq<byte>): (r: State)
    requires |payload| >= 8
  {
    var (q, found) := Find(s.q, Word(payload, 0));
    s.(q := q, rd := if found.None? then Reader(Unknown, [], |payload| - 4, |payload|, |payload|, [], None)
                     else InPayload(found.value, payload[..4], |payload|))
  }

  /** After the first eight bytes the reader has taken the PDU out of its queue. */
  lemma MarkerStep(s: State, payload: seq<byte>, now: nat)
    requires s.rd == BOUNDARY && 8 <= |payload| <= MAX_FRAGMENT_SIZE
    requires var found := Find(s.q, Word(payload, 0)).1;
             |payload| <= INBUF_LIMIT || (found.Some? && found.value.inp.zeroCopy)
    ensures Finish(Absorb(s, Prefix8(payload)), now) == AfterMarker(s, payload)
  {
    Prefix8Words(payload);
    var m := Absorb(s, Prefix8(payload));
    assert m.rd.buf == BOUNDARY.buf + Prefix8(payload) == Prefix8(payload);
    assert m.q == s.q && m.rd.phase.Marker?;
    assert FinishMarker(m) == AfterMarker(s, payload);
  }

  /** A reply nobody waits for is drained whole and changes nothing. */
  lemma UnknownStep(s: State, payload: seq<byte>, now: nat)
    requires s.rd == BOUNDARY && |payload| >= 8 && Find(s.q, Word(payload, 0)).1.None?
    ensures AfterMarker(s, payload).rd.need == |payload| - 4
    ensures Finish(Absorb(AfterMarker(s, payload), payload[4..]), now) == s
  {
    var u := Absorb(AfterMarker(s, payload), payload[4..]);
    assert u.rd.phase.Unknown? && u == s.(rd := u.rd);
  }

  /** The buffered part of a reply is complete. */
  lemma PayloadStep(s: State, payload: seq<byte>, now: nat)
    requires |payload| >= 8 && Find(s.q, Word(payload, 0)).1.Some?
    ensures var p := Find(s.q, Word(payload, 0)).1.value;
            var span := PayloadSpan(p, |payload|);
            var m := AfterMarker(s, payload);
            m.rd.need == span - 4
            && Finish(Absorb(m, payload[4..span]), now)
            == FinishPayload(m.(rd := InPayload(p, payload[..span], |payload|)), p, now)
  {
    var p := Find(s.q, Word(payload, 0)).1.value;
    var span := PayloadSpan(p, |payload|);
    var m := AfterMarker(s, payload);
    assert payload[..4] + payload[4..span] == payload[..span];
    assert Absorb(m, payload[4..span]) == m.(rd := InPayload(p, payload[..span], |payload|));
  }

  /** The reader after `n` of the data bytes, with `left` bytes of the record to come. */
  function InData(s: State, p: Pdu, data: seq<byte>, n: nat, left: nat): (r: State)
    requires n <= |data| <= |p.inp.addrs|
  {
    s.(mem := Scatter(s.mem, p.inp.addrs[..n], data[..n]),
       rd := Reader(Iovecs, [], |data| - n, |data| - n, left, data[..n], Some(WithTodo(p, p.inp.addrs[n..|data|]))))
  }

  /** The reader right after the preamble, which brought the first `n` bytes of the data. */
  function AfterPreamble(s: State, p: Pdu, payload: seq<byte>, at: nat, n: nat): (r: State)
    requires HasData(p, payload, at) && n <= |ReadData(payload, at)| && at + 4 + n <= |payload|
  {
    var data := ReadData(payload, at);
    if n == |data| then Delivered(s, p, data) else InData(s, p, data, n, |payload| - (at + 4 + n))
  }

  /** From the end of the preamble to the end of the record. */
  lemma DataStep(s: State, p: Pdu, at: nat, payload: seq<byte>, n: nat, rest: seq<byte>, now: nat)
    requires HasData(p, payload, at) && p.inp.freePdu && |payload| <= MAX_FRAGMENT_SIZE
    requires n == Min(|Preamble(payload)| - (at + 4), |ReadData(payload, at)|)
    ensures Feed(AfterPreamble(s, p, payload, at, n), payload[|Preamble(payload)|..] + rest, now)
         == Feed(Delivered(s, p, ReadData(payload, at)), rest, now)
  {
    hide Delivered, InData;
    var data, tail := ReadData(payload, at), payload[|Preamble(payload)|..];
    PreambleTail(payload, at, n);
    if n == |data| {
      assert tail + rest == rest;
    } else {
      IovecStep(s, p, data, n, tail, rest, now);
    }
  }

  /** What follows the preamble: the rest of the data, if any, and the padding. */
  lemma PreambleTail(payload: seq<byte>, at: nat, n: nat)
    requires at % 4 == 0 && at + 4 <= |Preamble(payload)|
    requires |payload| == RoundUp4(at + 4 + Word(Preamble(payload), at))
    requires n == Min(|Preamble(payload)| - (at + 4), |ReadData(payload, at)|)
    ensures var data, tail := ReadData(payload, at), payload[|Preamble(payload)|..];
            if n == |data| then tail == []
            else |tail| == |payload| - (at + 4 + n) && |data| - n <= |tail| && tail[..|data| - n] == data[n..]
  {
  }

  /** What `StartData` does with a well-formed READ reply. */
  lemma StartDataIs(s: State, p: Pdu, at: nat, payload: seq<byte>, n: nat)
    requires s.rd.buf == Preamble(payload) && s.rd.left == |payload| <= MAX_FRAGMENT_SIZE
    requires HasData(p, payload, at) && p.inp.todo == p.inp.addrs && p.inp.freePdu
    requires n == Min(|s.rd.buf| - (at + 4), |ReadData(payload, at)|)
    ensures StartData(s, p, at) == AfterPreamble(s, p, payload, at, n)
  {
    PreambleData(payload, at, n);
    StartDataCut(s, p, at, ReadData(payload, at), n);
  }

  lemma PreambleData(payload: seq<byte>, at: nat, n: nat)
    requires at + 4 + Word(Preamble(payload), at) <= |payload| <= MAX_FRAGMENT_SIZE
    requires at + 4 + n <= |Preamble(payload)| && n <= |ReadData(payload, at)|
    ensures Preamble(payload)[at + 4..at + 4 + n] == ReadData(payload, at)[..n]
    ensures Wrap32(|payload| - (at + 4 + n)) == |payload| - (at + 4 + n)
  {
    hide Word;
    var data := ReadData(payload, at);
    assert forall k | 0 <= k < n :: Preamble(payload)[at + 4 + k] == data[k];
  }

  lemma StartDataCut(s: State, p: Pdu, at: nat, data: seq<byte>, n: nat)
    requires at + 4 <= |s.rd.buf| && Word(s.rd.buf, at) == |data| <= |p.inp.addrs|
    requires p.inp.todo == p.inp.addrs && p.inp.freePdu
    requires n == Min(|s.rd.buf| - (at + 4), |data|) && s.rd.buf[at + 4..at + 4 + n] == data[..n]
    ensures StartData(s, p, at) == if n == |data| then Delivered(s, p, data)
                                   else InData(s, p, data, n, Wrap32(s.rd.left - (at + 4 + n)))
  {
    var todo := Take(p.inp.todo, |data|);
    assert todo == p.inp.addrs[..|data|];
    if n == |data| {
      assert Take(todo, n) == todo && data[..n] == data && Take(p.inp.addrs, n) == todo;
    } else {
      assert Take(todo, n) == p.inp.addrs[..n] && Drop(todo, n) == p.inp.addrs[n..|data|];
    }
  }

  /** `readv` into the user's buffers, then the padding. */
  lemma IovecStep(s: State, p: Pdu, data: seq<byte>, n: nat, tail: seq<byte>, rest: seq<byte>, now: nat)
    requires n < |data| <= |p.inp.addrs| && p.inp.freePdu
    requires |data| - n <= |tail| < TWO_32 && tail[..|data| - n] == data[n..]
    ensures Feed(InData(s, p, data, n, |tail|), tail + rest, now) == Feed(Delivered(s, p, data), rest, now)
  {
    var pad := tail[|data| - n..];
    assert tail + rest == data[n..] + (pad + rest);
    ReadvStep(s, p, data, n, |tail|, now);
    var next := if pad == [] then Delivered(s, p, data) else InPadding(s, p, data, |pad|);
    FeedPiece(InData(s, p, data, n, |tail|), data[n..], pad + rest, now, next);
    if pad == [] {
      assert pad + rest == rest;
    } else {
      PaddingStep(s, p, data, pad, now);
      FeedPiece(next, pad, rest, now, Delivered(s, p, data));
    }
  }

  /** All data is in the user's buffers and `pad` bytes of padding are left. */
  function InPadding(s: State, p: Pdu, data: seq<byte>, pad: nat): (r: State)
    requires |data| <= |p.inp.addrs|
  {
    s.(mem := Scatter(s.mem, p.inp.addrs[..|data|], data),
       rd := Reader(Padding, [], pad, pad, pad, data, Some(WithTodo(p, []))))
  }

  lemma ReadvStep(s: State, p: Pdu, data: seq<byte>, n: nat, left: nat, now: nat)
    requires n < |data| <= |p.inp.addrs| && p.inp.freePdu && |data| - n <= left < TWO_32
    ensures var pad := left - (|data| - n);
            Finish(Absorb(InData(s, p, data, n, left), data[n..]), now)
            == if pad == 0 then Delivered(s, p, data) else InPadding(s, p, data, pad)
  {
    AllScattered(s, p, data, n, left);
    var full := Absorb(InData(s, p, data, n, left), data[n..]);
    assert Take(p.inp.addrs, |data|) == p.inp.addrs[..|data|];
    assert Wrap32(left - (|data| - n)) == left - (|data| - n);
    assert full.rd.pdu.value == WithTodo(p, []) && full.rd.phase.Iovecs?;
  }

  lemma PaddingStep(s: State, p: Pdu, data: seq<byte>, pad: seq<byte>, now: nat)
    requires |data| <= |p.inp.addrs| && p.inp.freePdu && pad != []
    ensures Finish(Absorb(InPadding(s, p, data, |pad|), pad), now) == Delivered(s, p, data)
  {
    var full := Absorb(InPadding(s, p, data, |pad|), pad);
    assert full.rd.phase.Padding? && full.rd.pdu == Some(WithTodo(p, []));
    assert Take(p.inp.addrs, |data|) == p.inp.addrs[..|data|];
  }

  lemma AllScattered(s: State, p: Pdu, data: seq<byte>, n: nat, left: nat)
    requires n < |data| <= |p.inp.addrs|
    ensures Absorb(InData(s, p, data, n, left), data[n..])
         == s.(mem := Scatter(s.mem, p.inp.addrs[..|data|], data),
               rd := Reader(Iovecs, [], 0, |data| - n, left, data, Some(WithTodo(p, []))))
  {
    hide Scatter;
    var todo := p.inp.addrs[n..|data|];
    Slices(p.inp.addrs, data, n);
    ScatterAppend(s.mem, p.inp.addrs[..n], todo, data[..n], data[n..]);
    assert Take(todo, |data| - n) == todo && Drop(todo, |data| - n) == [];
  }

  lemma Slices(addrs: seq<nat>, data: seq<byte>, n: nat)
    requires n <= |data| <= |addrs|
    ensures addrs[..n] + addrs[n..|data|] == addrs[..|data|] && data[..n] + data[n..] == data
    ensures Take(addrs[n..|data|], |data| - n) == addrs[n..|data|] && Drop(addrs[n..|data|], |data| - n) == []
  {
  }

  /** A reply nobody waits for. */
  lemma UnknownDelivery(s: State, payload: seq<byte>, rest: seq<byte>, now: nat)
    requires s.rd == BOUNDARY && 8 <= |payload| <= INBUF_LIMIT && Find(s.q, Word(payload, 0)).1.None?
    ensures Feed(s, RecordOf(payload) + rest, now) == Feed(s, rest, now)
  {
    MarkerStep(s, payload, now);
    UnknownStep(s, payload, now);
    RecordCut(payload, |payload|, rest);
    assert payload[|payload|..] + rest == rest && payload[4..|payload|] == payload[4..];
    FeedTwoPieces(s, Prefix8(payload), AfterMarker(s, payload), payload[4..], rest, now, s);
  }

  /** A reply for a PDU, up to the point where its buffered part is complete. */
  lemma FoundDelivery(s: State, p: Pdu, payload: seq<byte>, rest: seq<byte>, now: nat)
    requires s.rd == BOUNDARY && 8 <= |payload| <= MAX_FRAGMENT_SIZE
    requires Find(s.q, Word(payload, 0)).1 == Some(p) && (|payload| <= INBUF_LIMIT || p.inp.zeroCopy)
    ensures var span := PayloadSpan(p, |payload|);
            Feed(s, RecordOf(payload) + rest, now)
            == Feed(FinishPayload(AfterMarker(s, payload).(rd := InPayload(p, payload[..span], |payload|)), p, now),
                    payload[span..] + rest, now)
  {
    var span := PayloadSpan(p, |payload|);
    var m := AfterMarker(s, payload);
    MarkerStep(s, payload, now);
    PayloadStep(s, payload, now);
    RecordCut(payload, span, rest);
    FeedTwoPieces(s, Prefix8(payload), m, payload[4..span], payload[span..] + rest, now,
                  FinishPayload(m.(rd := InPayload(p, payload[..span], |payload|)), p, now));
  }

  /** A reply to a zero-copy READ, from its preamble on. */
  lemma ReadDelivery(g: State, p: Pdu, payload: seq<byte>, at: nat, rest: seq<byte>, now: nat)
    requires DataAt(payload) == Some(at) && HasData(p, payload, at) && p.inp.todo == p.inp.addrs
             && p.inp.zeroCopy && |payload| <= MAX_FRAGMENT_SIZE
    requires g.rd.buf == Preamble(payload) && g.rd.left == |payload|
    ensures Feed(FinishPayload(g, p, now), payload[|Preamble(payload)|..] + rest, now)
         == Feed(Delivered(g.(lastOk := now), p, ReadData(payload, at)), rest, now)
  {
    var n := Min(|Preamble(payload)| - (at + 4), |ReadData(payload, at)|);
    var g' := g.(lastOk := now);
    FinishRead(g, p, payload, at, now);
    StartDataIs(g', Owed(p), at, payload, n);
    DataStep(g', Owed(p), at, payload, n, rest, now);
    assert Delivered(g', Owed(p), ReadData(payload, at)) == Delivered(g', p, ReadData(payload, at));
  }

  /** A READ error is finished with its preamble. */
  lemma ErrorDelivery(g: State, p: Pdu, payload: seq<byte>, rest: seq<byte>, now: nat)
    requires IsReadError(payload) && p.inp.zeroCopy && g.rd.buf == Preamble(payload)
    ensures Feed(FinishPayload(g, p, now), payload[|Preamble(payload)|..] + rest, now)
         == Feed(Delivered(g.(lastOk := now), p, []), rest, now)
  {
    hide Feed, ReplyHeader, ReadResult;
    assert Preamble(payload) == payload && payload[|payload|..] + rest == rest;
    assert Take(p.inp.addrs, 0) == p.inp.addrs[..0] == [];
  }

  lemma FinishRead(g: State, p: Pdu, payload: seq<byte>, at: nat, now: nat)
    requires DataAt(payload) == Some(at) && p.inp.zeroCopy && g.rd.buf == Preamble(payload)
    ensures FinishPayload(g, p, now) == StartData(g.(lastOk := now), Owed(p), at)
  {
  }

  /** Every well-formed reply consumes exactly its record - four bytes of marker and the payload -
      and has exactly the effect of the payload delivered in one piece. */
  lemma RecordDelivery(s: State, payload: seq<byte>, rest: seq<byte>, now: nat)
    requires s.rd == BOUNDARY && WellFormed(s, payload)
    ensures Feed(s, RecordOf(payload) + rest, now) == Feed(Deliver(s, payload, now), rest, now)
    ensures Deliver(s, payload, now).rd == BOUNDARY
  {
    var (q, found) := Find(s.q, Word(payload, 0));
    if found.None? {
      UnknownDelivery(s, payload, rest, now);
    } else {
      var p := found.value;
      var span := PayloadSpan(p, |payload|);
      FoundDelivery(s, p, payload, rest, now);
      var g := AfterMarker(s, payload).(rd := InPayload(p, payload[..span], |payload|));
      if p.inp.zeroCopy {
        if IsReadError(payload) {
          ErrorDelivery(g, p, payload, rest, now);
        } else {
          ReadDelivery(g, p, payload, DataAt(payload).value, rest, now);
        }
        assert Delivered(g.(lastOk := now), p, DataOf(p, payload)) == Deliver(s, payload, now);
      } else {
        assert payload[..span] == payload && payload[span..] + rest == rest;
        assert FinishPayload(g, p, now) == Deliver(s, payload, now);
      }
    }
  }

  /** A stream of replies, each well-formed for the PDU that waits for it when its turn comes. */
  predicate WellFormedStream(s: State, payloads: seq<seq<byte>>, now: nat)
    decreases |payloads|
  {
    payloads == [] || (WellFormed(s, payloads[0]) && WellFormedStream(Deliver(s, payloads[0], now), payloads[1..], now))
  }

  function DeliverAll(s: State, payloads: seq<seq<byte>>, now: nat): (r: State)
    requires WellFormedStream(s, payloads, now)
    decreases |payloads|
  {
    if payloads == [] then s else DeliverAll(Deliver(s, payloads[0], now), payloads[1..], now)
  }

  function StreamOf(payloads: seq<seq<byte>>): (r: seq<byte>)
    requires forall i :: 0 <= i < |payloads| ==> |payloads[i]| <= MAX_FRAGMENT_SIZE
  {
    if payloads == [] then [] else RecordOf(payloads[0]) + StreamOf(payloads[1..])
  }

  /** However the bytes of a well-formed stream of replies are cut, the transport ends in the state
      reached by delivering the replies whole, one after the other. */
  lemma StreamDelivery(s: State, payloads: seq<seq<byte>>, pieces: seq<seq<byte>>, now: nat)
    requires s.rd == BOUNDARY && WellFormedStream(s, payloads, now)
    requires forall i :: 0 <= i < |payloads| ==> |payloads[i]| <= MAX_FRAGMENT_SIZE
    requires Concat(pieces) == StreamOf(payloads)
    ensures Streams.FeedPieces(Reading(now), s, pieces) == DeliverAll(s, payloads, now)
  {
    SplitIndependence(s, pieces, pieces, now);
    WholeStream(s, payloads, now);
  }

  lemma {:induction false} WholeStream(s: State, payloads: seq<seq<byte>>, now: nat)
    requires s.rd == BOUNDARY && WellFormedStream(s, payloads, now)
    requires forall i :: 0 <= i < |payloads| ==> |payloads[i]| <= MAX_FRAGMENT_SIZE
    ensures Feed(s, StreamOf(payloads), now) == DeliverAll(s, payloads, now)
    decreases |payloads|
  {
    if payloads != [] {
      RecordDelivery(s, payloads[0], StreamOf(payloads[1..]), now);
      WholeStream(Deliver(s, payloads[0], now), payloads[1..], now);
    }
  }

  lemma DeliveredQueues(s: State, p: Pdu, data: seq<byte>)
    requires |data| <= |p.inp.addrs|
    ensures var r := Delivered(s, p, data); r.q == s.q && r.rd == BOUNDARY && |r.mem| == |s.mem| && r.lastOk == s.lastOk
  {
  }

  /** What the user sees: with distinct buffers inside memory, the buffers of a delivered READ hold
      the reply's data when the callback runs, and no other byte of memory has changed. */
  lemma DeliveredBuffers(s: State, p: Pdu, data: seq<byte>)
    requires |data| <= |p.inp.addrs| && NoDuplicates(p.inp.addrs) && InMemory(s.mem, p.inp.addrs)
    ensures var r := Delivered(s, p, data);
            && r.log == s.log + [Completion(p.id, p.xid, SUCCESS, data, Some(data))]
            && Gather(r.mem, p.inp.addrs[..|data|]) == data
            && forall k :: 0 <= k < |s.mem| && k !in p.inp.addrs[..|data|] ==> r.mem[k] == s.mem[k]
  {
    var at := p.inp.addrs[..|data|];
    GatherScatter(s.mem, at, data);
    forall k | 0 <= k < |s.mem| && k !in at ensures Delivered(s, p, data).mem[k] == s.mem[k] {
      ScatterFrame(s.mem, at, data, k);
    }
  }
}
