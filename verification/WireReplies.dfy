/** Replies written out field by field, as a server sends them (section 9 of RFC 5531, section 3.3.6 of
    RFC 1813), and what the reader makes of them. */
module WireReplies {
  import opened Bytes
  import opened Iovec
  import opened ZdrFormat
  import opened Transport
  import opened Runs
  import opened Service
  import opened Interleaving
  import opened RecordReader
  import Streams

  /** xid, REPLY, MSG_ACCEPTED, verifier, accept status, and what follows it. */
  function AcceptedReplyBytes(xid: uint32, verf: Auth, stat: uint32, rest: seq<byte>): (b: seq<byte>)
  {
    Be32(xid) + (Be32(1) + (Be32(0) + (EncAuth(verf) + (Be32(stat) + rest))))
  }

  /** `post_op_attr`: 84 bytes of attributes, or none. */
  type Attributes = a: Option<seq<byte>> | a.Some? ==> |a.value| == 84 witness None

  function AttributeBytes(a: Attributes): (b: seq<byte>)
    ensures |b| == if a.None? then 4 else 88
  {
    if a.None? then Be32(0) else Be32(1) + a.value
  }

  /** A READ3 reply with status NFS3_OK. */
  function ReadReplyBytes(xid: uint32, verf: Auth, a: Attributes, count: uint32, eof: uint32, data: Blob)
    : (b: seq<byte>)
  {
    AcceptedReplyBytes(xid, verf, 0, Be32(0) + (AttributeBytes(a) + (Be32(count) + (Be32(eof) + EncOpaque(data)))))
  }

  /** A READ3 reply with an error status. */
  function ReadErrorBytes(xid: uint32, verf: Auth, status: uint32, a: Attributes): (b: seq<byte>)
  {
    AcceptedReplyBytes(xid, verf, 0, Be32(status) + AttributeBytes(a))
  }

  /** Everything before the data of a READ reply. */
  function PreambleSize(verf: Auth, a: Attributes): (n: nat)
  {
    12 + |EncAuth(verf)| + 4 + 4 + |AttributeBytes(a)| + 12
  }

  /** A refusal: xid, REPLY, MSG_DENIED and the reason. */
  function MismatchBytes(xid: uint32, low: uint32, high: uint32): (b: seq<byte>)
  {
    Be32(xid) + (Be32(1) + (Be32(1) + (Be32(0) + (Be32(low) + Be32(high)))))
  }

  function AuthErrorBytes(xid: uint32, why: uint32): (b: seq<byte>)
  {
    Be32(xid) + (Be32(1) + (Be32(1) + (Be32(1) + Be32(why))))
  }

  // ---------------------------------------------------------------- decoding them

  lemma WordPrefix(b: seq<byte>, n: nat, at: nat)
    requires at + 4 <= n <= |b|
    ensures Word(b[..n], at) == Word(b, at)
  {
    assert forall k | 0 <= k < n :: b[..n][k] == b[k];
  }

  lemma LiesWhole(b: seq<byte>)
    ensures Lies(b, 0, b)
  {
    assert b[0..|b|] == b;
  }

  /** Where the accept status lies. */
  function StatusAt(verf: Auth): (at: nat)
  {
    12 + |EncAuth(verf)|
  }

  lemma StatusAligned(verf: Auth)
    ensures StatusAt(verf) == RoundUp4(20 + |verf.body|) == 20 + |verf.body| + PadLen(|verf.body|)
  {
    hide Be32, PadLen;
    assert Whole(20);
    Padded(20, |verf.body|);
    assert |EncAuth(verf)| == 4 + |EncOpaque(verf.body)|;
  }

  lemma AcceptedWords(xid: uint32, verf: Auth, stat: uint32, rest: seq<byte>)
    ensures var b, at := AcceptedReplyBytes(xid, verf, stat, rest), StatusAt(verf);
            && |b| == at + 4 + |rest| && Word(b, 0) == xid && Word(b, 4) == 1 && Word(b, 8) == 0
            && Word(b, 16) == |verf.body| && Word(b, at) == stat && Lies(b, at + 4, rest)
  {
    hide Be32, Word, Lies, EncOpaque, PadLen, Zeros;
    var b := AcceptedReplyBytes(xid, verf, stat, rest);
    var t4 := Be32(stat) + rest;
    var t3 := EncAuth(verf) + t4;
    LiesWhole(b);
    WordThen(b, 0, xid, Be32(1) + (Be32(0) + t3));
    WordThen(b, 4, 1, Be32(0) + t3);
    WordThen(b, 8, 0, t3);
    LiesParts(b, 12, EncAuth(verf), t4);
    WordThen(b, 12, verf.flavor, EncOpaque(verf.body));
    OpaqueParts(verf.body);
    WordThen(b, 16, |verf.body|, verf.body + Zeros(PadLen(|verf.body|)));
    WordThen(b, StatusAt(verf), stat, rest);
  }

  /** The header of an accepted reply, seen in a prefix that holds it. */
  lemma AcceptedHeader(xid: uint32, verf: Auth, stat: uint32, rest: seq<byte>, n: nat)
    requires var b := AcceptedReplyBytes(xid, verf, stat, rest); StatusAt(verf) + 4 <= n <= |b|
    ensures var h := ReplyHeader(AcceptedReplyBytes(xid, verf, stat, rest)[..n]);
            if stat == 0 then h == Accepted(StatusAt(verf) + 4)
            else if stat == 2 && n < StatusAt(verf) + 12 then h == Undecodable
            else if stat == 2 then h == Header.Refused(StatusAt(verf) + 12)
            else h == Header.Refused(StatusAt(verf) + 4)
  {
    hide Be32, Word, Lies, AcceptedReplyBytes, RoundUp4, PadLen;
    var b := AcceptedReplyBytes(xid, verf, stat, rest);
    AcceptedWords(xid, verf, stat, rest);
    StatusAligned(verf);
    WordPrefix(b, n, 4);
    WordPrefix(b, n, 8);
    WordPrefix(b, n, 16);
    WordPrefix(b, n, StatusAt(verf));
  }

  /** A READ3 result with data, seen in a prefix that holds everything before the data. */
  lemma ReadReplyDecodes(xid: uint32, verf: Auth, a: Attributes, count: uint32, eof: uint32, data: Blob, n: nat)
    requires var b := ReadReplyBytes(xid, verf, a, count, eof, data); PreambleSize(verf, a) <= n <= |b|
    ensures var b, at := ReadReplyBytes(xid, verf, a, count, eof, data), PreambleSize(verf, a) - 4;
            && ReplyHeader(b[..n]) == Accepted(StatusAt(verf) + 4)
            && ReadResult(b[..n], StatusAt(verf) + 4) == ReadOk(at)
            && Word(b[..n], at) == |data| && Lies(b, at, EncOpaque(data)) && |b| == at + |EncOpaque(data)|
  {
    hide Be32, Word, Lies, EncOpaque, EncAuth, AcceptedReplyBytes, ReplyHeader;
    var t2 := Be32(count) + (Be32(eof) + EncOpaque(data));
    var t1 := AttributeBytes(a) + t2;
    var rest := Be32(0) + t1;
    var b, v := ReadReplyBytes(xid, verf, a, count, eof, data), StatusAt(verf) + 4;
    AcceptedWords(xid, verf, 0, rest);
    AcceptedHeader(xid, verf, 0, rest, n);
    WordThen(b, v, 0, t1);
    LiesParts(b, v + 4, AttributeBytes(a), t2);
    AttributeWord(b, v + 4, a);
    var at := v + 4 + |AttributeBytes(a)|;
    WordThen(b, at, count, Be32(eof) + EncOpaque(data));
    WordThen(b, at + 4, eof, EncOpaque(data));
    OpaqueLength(b, at + 8, data);
    WordPrefix(b, n, v);
    WordPrefix(b, n, v + 4);
    WordPrefix(b, n, at + 8);
  }

  lemma AttributeWord(b: seq<byte>, at: nat, a: Attributes)
    requires Lies(b, at, AttributeBytes(a))
    ensures Word(b, at) == if a.None? then 0 else 1
  {
    hide Be32, Word, Lies;
    if a.None? {
      WordLies(b, at, 0);
    } else {
      WordThen(b, at, 1, a.value);
    }
  }

  lemma OpaqueLength(b: seq<byte>, at: nat, data: Blob)
    requires Lies(b, at, EncOpaque(data))
    ensures Word(b, at) == |data| && Lies(b, at + 4, data)
  {
    hide Be32, Word, Lies, Zeros, PadLen;
    OpaqueParts(data);
    WordThen(b, at, |data|, data + Zeros(PadLen(|data|)));
    LiesParts(b, at + 4, data, Zeros(PadLen(|data|)));
  }

  /** A written-out READ reply with data, whose fields before the data come within the first 1024 bytes. */
  lemma ReadReplyIs(p: Pdu, xid: uint32, verf: Auth, a: Attributes, count: uint32, eof: uint32, data: Blob)
    requires PreambleSize(verf, a) <= 1024 && |data| <= |p.inp.addrs|
    ensures var b := ReadReplyBytes(xid, verf, a, count, eof, data);
            IsReadReply(p, b) && !IsReadError(b) && DataOf(p, b) == data && Word(b, 0) == xid && |b| >= 8
  {
    hide Be32, Word, Lies, EncAuth, AcceptedReplyBytes, ReplyHeader, ReadResult;
    var b, at := ReadReplyBytes(xid, verf, a, count, eof, data), PreambleSize(verf, a) - 4;
    ReadReplySize(xid, verf, a, count, eof, data);
    ReadReplyDecodes(xid, verf, a, count, eof, data, |b|);
    var n := Min(|b|, 1024);
    ReadReplyDecodes(xid, verf, a, count, eof, data, n);
    assert Preamble(b) == b[..n] && b[..|b|] == b;
    AcceptedWords(xid, verf, 0, Be32(0) + (AttributeBytes(a) + (Be32(count) + (Be32(eof) + EncOpaque(data)))));
    OpaqueLength(b, at, data);
    DataAligned(verf, a, data);
    LiesMeans(b, at + 4, data);
  }

  lemma ReadReplySize(xid: uint32, verf: Auth, a: Attributes, count: uint32, eof: uint32, data: Blob)
    ensures |ReadReplyBytes(xid, verf, a, count, eof, data)| == PreambleSize(verf, a) - 4 + |EncOpaque(data)|
  {
    hide EncOpaque, EncAuth, AttributeBytes;
  }

  lemma LiesMeans(b: seq<byte>, at: nat, e: seq<byte>)
    requires Lies(b, at, e)
    ensures at + |e| <= |b| && b[at..at + |e|] == e
  {
  }

  lemma DataAligned(verf: Auth, a: Attributes, data: Blob)
    ensures var at := PreambleSize(verf, a) - 4; at % 4 == 0 && at + |EncOpaque(data)| == RoundUp4(at + 4 + |data|)
  {
    hide EncOpaque, AttributeBytes, EncAuth;
    WholeAuth(verf);
    var at := PreambleSize(verf, a) - 4;
    assert Whole(at) && Whole(at + 4);
    Padded(at + 4, |data|);
  }

  /** A written-out READ error. */
  lemma ReadErrorIs(p: Pdu, xid: uint32, verf: Auth, status: uint32, a: Attributes)
    requires status != 0 && |ReadErrorBytes(xid, verf, status, a)| <= 1024
    ensures var b := ReadErrorBytes(xid, verf, status, a);
            IsReadError(b) && DataOf(p, b) == [] && Word(b, 0) == xid && |b| >= 8
  {
    hide Be32, Word, Lies, EncAuth, AcceptedReplyBytes, ReplyHeader;
    var b, v := ReadErrorBytes(xid, verf, status, a), StatusAt(verf) + 4;
    AcceptedWords(xid, verf, 0, Be32(status) + AttributeBytes(a));
    AcceptedHeader(xid, verf, 0, Be32(status) + AttributeBytes(a), |b|);
    assert b[..|b|] == b;
    WordThen(b, v, status, AttributeBytes(a));
    AttributeWord(b, v + 4, a);
  }

  // ---------------------------------------------------------------- what they do

  /** The reader after a record that carries `b`, in whatever pieces it comes. */
  function After(r: State, pieces: seq<seq<byte>>, now: nat): (f: State)
  {
    Streams.FeedPieces(Reading(now), r, pieces)
  }

  predicate Carrying(pieces: seq<seq<byte>>, b: seq<byte>)
  {
    |b| < 0x8000_0000 && Concat(pieces) == Be32(0x8000_0000 + |b|) + b
  }

  /** A READ reply written out from its fields - whatever verifier, attributes, count and end-of-file flag -
      after any run, in any pieces: the waiting READ's one callback finds exactly `data` in its buffers. */
  lemma ReadReplyOnTheWire(s: State, es: seq<Event>, pieces: seq<seq<byte>>, now: nat,
                           xid: uint32, verf: Auth, a: Attributes, count: uint32, eof: uint32, data: Blob)
    requires Initial(s) && IsRun(s, es) && Run(s, es).rd == BOUNDARY
    requires var found := Find(Run(s, es).q, xid).1;
             found.Some? && found.value.inp.zeroCopy && |data| <= |found.value.inp.addrs|
    requires PreambleSize(verf, a) <= 1024
    requires |ReadReplyBytes(xid, verf, a, count, eof, data)| <= 8 * 1024 * 1024
    requires Carrying(pieces, ReadReplyBytes(xid, verf, a, count, eof, data))
    ensures var r, f := Run(s, es), After(Run(s, es), pieces, now);
            var (q, found) := Find(r.q, xid);
            var at := found.value.inp.addrs[..|data|];
            && f.log == r.log + [Completion(found.value.id, xid, SUCCESS, data, Some(data))]
            && |f.mem| == |r.mem| && Gather(f.mem, at) == data
            && (forall k :: 0 <= k < |r.mem| && k !in at ==> f.mem[k] == r.mem[k])
            && f.rd == BOUNDARY && f.q == q && f.lastOk == now
  {
    hide ReadReplyBytes, PreambleSize, IsReadReply, IsReadError, DataOf, Find, Word;
    var b := ReadReplyBytes(xid, verf, a, count, eof, data);
    ReadReplyIs(Find(Run(s, es).q, xid).1.value, xid, verf, a, count, eof, data);
    ReadReplyDelivered(s, es, b, pieces, now);
  }

  /** A READ error: one callback without data, and memory stays as it is. */
  lemma ReadErrorOnTheWire(s: State, es: seq<Event>, pieces: seq<seq<byte>>, now: nat,
                           xid: uint32, verf: Auth, status: uint32, a: Attributes)
    requires Initial(s) && IsRun(s, es) && Run(s, es).rd == BOUNDARY
    requires var found := Find(Run(s, es).q, xid).1; found.Some? && found.value.inp.zeroCopy
    requires status != 0 && |ReadErrorBytes(xid, verf, status, a)| <= 1024
    requires Carrying(pieces, ReadErrorBytes(xid, verf, status, a))
    ensures var r, f := Run(s, es), After(Run(s, es), pieces, now);
            var (q, found) := Find(r.q, xid);
            && f.log == r.log + [Completion(found.value.id, xid, SUCCESS, [], Some([]))]
            && f.mem == r.mem && f.rd == BOUNDARY && f.q == q && f.lastOk == now
  {
    hide ReadErrorBytes, IsReadReply, IsReadError, DataOf, Find, Word;
    var b := ReadErrorBytes(xid, verf, status, a);
    var found := Find(Run(s, es).q, xid).1;
    ReadErrorIs(found.value, xid, verf, status, a);
    ReadReplyDelivered(s, es, b, pieces, now);
    assert found.value.inp.addrs[..0] == [];
  }

  /** The same READ reply, read with new PDUs, writes and scans in between. */
  lemma ReadReplyInCompany(s: State, before: seq<Event>, i: nat, es: seq<Event>,
                           xid: uint32, verf: Auth, a: Attributes, count: uint32, eof: uint32, data: Blob)
    requires Initial(s) && IsRun(s, before)
    requires var found := Find(Run(s, before).q, xid).1;
             found.Some? && found.value.inp.zeroCopy && |data| <= |found.value.inp.addrs|
    requires PreambleSize(verf, a) <= 1024
    requires Brings(Run(s, before), ReadReplyBytes(xid, verf, a, count, eof, data), i, es)
    ensures var m, f := Run(s, before), Run(Run(s, before), es);
            var p := Find(m.q, xid).1.value;
            var at := p.inp.addrs[..|data|];
            && f.rd == BOUNDARY
            && Replies(f.log) == Replies(m.log) + [Completion(p.id, xid, SUCCESS, data, Some(data))]
            && |f.mem| == |m.mem| && Gather(f.mem, at) == data
            && forall k :: 0 <= k < |m.mem| && k !in at ==> f.mem[k] == m.mem[k]
  {
    hide ReadReplyBytes, PreambleSize, IsReadReply, IsReadError, DataOf, Find, Word, Replies, CalmRun;
    var b := ReadReplyBytes(xid, verf, a, count, eof, data);
    ReadReplyIs(Find(Run(s, before).q, xid).1.value, xid, verf, a, count, eof, data);
    InterleavedReadReply(s, before, b, i, es);
  }

  // ---------------------------------------------------------------- replies to ordinary PDUs

  /** Any well-formed reply to an ordinary PDU: one callback with the reply. */
  lemma OrdinaryDelivered(r: State, b: seq<byte>, pieces: seq<seq<byte>>, now: nat)
    requires r.rd == BOUNDARY && 8 <= |b| <= 4 * 1024 * 1024 + 4096 && Carrying(pieces, b)
    requires var found := Find(r.q, Word(b, 0)).1; found.Some? && !found.value.inp.zeroCopy
    requires !ReplyHeader(b).Astray?
    ensures var (q, found) := Find(r.q, Word(b, 0));
            var ok := Decodes(r.cfg, found.value, b);
            After(r, pieces, now)
            == r.(q := q, rd := BOUNDARY, lastOk := if ok then now else r.lastOk,
                  log := r.log + [Completion(found.value.id, found.value.xid, if ok then SUCCESS else ERROR, b, None)])
  {
    hide Find, Word, ReplyHeader, Decodes;
    PiecesDeliver(r, b, pieces, now);
  }

  /** An accepted reply: SUCCESS if and only if the accept status is zero and the results decode. */
  lemma AcceptedOnTheWire(r: State, pieces: seq<seq<byte>>, now: nat,
                          xid: uint32, verf: Auth, stat: uint32, rest: seq<byte>)
    requires r.rd == BOUNDARY
    requires var found := Find(r.q, xid).1; found.Some? && !found.value.inp.zeroCopy
    requires |AcceptedReplyBytes(xid, verf, stat, rest)| <= 4 * 1024 * 1024 + 4096
    requires Carrying(pieces, AcceptedReplyBytes(xid, verf, stat, rest))
    ensures var (q, found) := Find(r.q, xid);
            var p, b := found.value, AcceptedReplyBytes(xid, verf, stat, rest);
            var ok := stat == 0 && r.cfg.decodes(p.id, b, 24 + |verf.body| + PadLen(|verf.body|));
            After(r, pieces, now)
            == r.(q := q, rd := BOUNDARY, lastOk := if ok then now else r.lastOk,
                  log := r.log + [Completion(p.id, p.xid, if ok then SUCCESS else ERROR, b, None)])
  {
    hide Find, Word, ReplyHeader, AcceptedReplyBytes, PadLen, EncAuth, After, Carrying;
    var b := AcceptedReplyBytes(xid, verf, stat, rest);
    AcceptedWords(xid, verf, stat, rest);
    AcceptedHeader(xid, verf, stat, rest, |b|);
    StatusAligned(verf);
    assert b[..|b|] == b;
    OrdinaryDelivered(r, b, pieces, now);
  }

  lemma DeniedWords(xid: uint32, x: uint32, y: uint32)
    ensures var b := MismatchBytes(xid, x, y); |b| == 24 && Word(b, 0) == xid && ReplyHeader(b) == Header.Refused(24)
    ensures var b := AuthErrorBytes(xid, x); |b| == 20 && Word(b, 0) == xid && ReplyHeader(b) == Header.Refused(20)
  {
    hide Be32, Word, Lies;
    var b, c := MismatchBytes(xid, x, y), AuthErrorBytes(xid, x);
    LiesWhole(b);
    WordThen(b, 0, xid, Be32(1) + (Be32(1) + (Be32(0) + (Be32(x) + Be32(y)))));
    WordThen(b, 4, 1, Be32(1) + (Be32(0) + (Be32(x) + Be32(y))));
    WordThen(b, 8, 1, Be32(0) + (Be32(x) + Be32(y)));
    WordThen(b, 12, 0, Be32(x) + Be32(y));
    LiesWhole(c);
    WordThen(c, 0, xid, Be32(1) + (Be32(1) + (Be32(1) + Be32(x))));
    WordThen(c, 4, 1, Be32(1) + (Be32(1) + Be32(x)));
    WordThen(c, 8, 1, Be32(1) + Be32(x));
    WordThen(c, 12, 1, Be32(x));
  }

  /** A denied reply to an ordinary PDU is an error, and no sign of life. */
  lemma DeniedOnTheWire(r: State, pieces: seq<seq<byte>>, now: nat, b: seq<byte>, xid: uint32, x: uint32, y: uint32)
    requires r.rd == BOUNDARY && (b == MismatchBytes(xid, x, y) || b == AuthErrorBytes(xid, x)) && Carrying(pieces, b)
    requires var found := Find(r.q, xid).1; found.Some? && !found.value.inp.zeroCopy
    ensures var (q, found) := Find(r.q, xid);
            After(r, pieces, now)
            == r.(q := q, rd := BOUNDARY,
                  log := r.log + [Completion(found.value.id, found.value.xid, ERROR, b, None)])
  {
    hide Find, Word, ReplyHeader, MismatchBytes, AuthErrorBytes, After, Carrying;
    DeniedWords(xid, x, y);
    OrdinaryDelivered(r, b, pieces, now);
  }

  /** A reply with an xid that nobody waits for is drained whole and changes nothing. */
  lemma UnknownOnTheWire(r: State, b: seq<byte>, pieces: seq<seq<byte>>, now: nat)
    requires r.rd == BOUNDARY && 8 <= |b| <= 4 * 1024 * 1024 + 4096 && Carrying(pieces, b)
    requires Find(r.q, Word(b, 0)).1.None?
    ensures After(r, pieces, now) == r
  {
    hide Word, ReplyHeader;
    PiecesDeliver(r, b, pieces, now);
  }

  /** A denied reply to a zero-copy READ: the error callback runs, and then the reader fails while it still
      holds the PDU. */
  lemma DeniedReadOnTheWire(r: State, pieces: seq<seq<byte>>, now: nat, b: seq<byte>, xid: uint32, x: uint32, y: uint32)
    requires r.rd == BOUNDARY && (b == MismatchBytes(xid, x, y) || b == AuthErrorBytes(xid, x)) && Carrying(pieces, b)
    requires var found := Find(r.q, xid).1; found.Some? && found.value.inp.zeroCopy
    ensures var (q, found) := Find(r.q, xid);
            var f := After(r, pieces, now);
            && f.log == r.log + [Completion(found.value.id, found.value.xid, ERROR, b, None)]
            && f.rd.phase.Failed? && f.rd.pdu == found && f.q == q && f.mem == r.mem
  {
    hide Find, Word, ReplyHeader, MismatchBytes, AuthErrorBytes, RefusedButDone;
    DeniedWords(xid, x, y);
    var p := Find(r.q, xid).1.value;
    SplitIndependence(r, pieces, pieces, now);
    FoundDelivery(r, p, b, [], now);
    assert RecordOf(b) + [] == RecordOf(b) && b[..|b|] == b && b[|b|..] + [] == [];
    var g := AfterMarker(r, b).(rd := InPayload(p, b, |b|));
    FeedNothing(FinishPayload(g, p, now), now);
  }
}
