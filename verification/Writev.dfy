/** The zero-copy WRITE of NFSv4: out vectors that point into the caller's memory, and what they put on the wire. */
module Writev {
  import opened Bytes
  import opened ZdrFormat
  import opened Zdr

  const RPC_FAST_VECTORS: nat := 8
  const ENCODE_ROOM: nat := 4092

  /** A stretch of memory. */
  datatype Slice = Slice(buf: array<byte>, off: nat, len: nat)

  predicate InBounds(v: Slice)
  {
    v.off + v.len <= v.buf.Length
  }

  ghost function Data(v: Slice): (s: seq<byte>)
    requires InBounds(v)
    reads v.buf
    ensures |s| == v.len
  {
    v.buf[v.off..v.off + v.len]
  }

  predicate AllInBounds(vs: seq<Slice>)
  {
    forall i :: 0 <= i < |vs| ==> InBounds(vs[i])
  }

  /** The bytes a list of vectors stands for. */
  ghost function Flat(vs: seq<Slice>): (s: seq<byte>)
    requires AllInBounds(vs)
    reads set i | 0 <= i < |vs| :: vs[i].buf
  {
    if vs == [] then [] else Flat(vs[..|vs| - 1]) + Data(vs[|vs| - 1])
  }

  function Length(vs: seq<Slice>): (n: nat)
  {
    if vs == [] then 0 else Length(vs[..|vs| - 1]) + vs[|vs| - 1].len
  }

  lemma {:induction false} FlatLength(vs: seq<Slice>)
    requires AllInBounds(vs)
    ensures |Flat(vs)| == Length(vs)
  {
    if vs != [] {
      FlatLength(vs[..|vs| - 1]);
    }
  }

  lemma FlatSnoc(vs: seq<Slice>, v: Slice)
    requires AllInBounds(vs) && InBounds(v)
    ensures AllInBounds(vs + [v]) && Flat(vs + [v]) == Flat(vs) + Data(v) && Length(vs + [v]) == Length(vs) + v.len
  {
    assert (vs + [v])[..|vs|] == vs;
  }

  lemma {:induction false} FlatAppend(a: seq<Slice>, b: seq<Slice>)
    requires AllInBounds(a) && AllInBounds(b)
    ensures AllInBounds(a + b) && Flat(a + b) == Flat(a) + Flat(b) && Length(a + b) == Length(a) + Length(b)
    decreases |b|
  {
    if b == [] {
      assert a + b == a;
    } else {
      var c, v := b[..|b| - 1], b[|b| - 1];
      assert a + b == (a + c) + [v];
      FlatAppend(a, c);
      FlatSnoc(a + c, v);
    }
  }

  /** The out vectors of a PDU. */
  class IoVectors {
    var iov: seq<Slice>
    const capacity: nat

    /** As `rpc_allocate_pdu2` sizes it from the caller's hint. */
    constructor (hint: nat)
      ensures iov == [] && capacity == Capacity(hint)
    {
      iov := [];
      capacity := if hint > RPC_FAST_VECTORS then hint else RPC_FAST_VECTORS;
    }

    /** `rpc_add_iovector`. */
    method Add(v: Slice) returns (ok: bool)
      modifies this
      ensures ok == (|old(iov)| < capacity)
      ensures iov == if ok then old(iov) + [v] else old(iov)
    {
      ok := |iov| < capacity;
      if ok {
        iov := iov + [v];
      }
    }

    /** The caller's vectors, one by one. */
    method AddAll(user: seq<Slice>) returns (ok: bool)
      modifies this
      ensures ok <==> user == [] || |old(iov)| + |user| <= capacity
      ensures ok ==> iov == old(iov) + user
    {
      ok := true;
      for i := 0 to |user|
        invariant iov == old(iov) + user[..i] && (i > 0 ==> |iov| <= capacity)
      {
        assert user[..i + 1] == user[..i] + [user[i]];
        ok := Add(user[i]);
        if !ok {
          return;
        }
      }
      assert user[..|user|] == user;
    }
  }

  function Capacity(hint: nat): (n: nat)
  {
    if hint > RPC_FAST_VECTORS then hint else RPC_FAST_VECTORS
  }

  /** Marker, header, arguments, length, the data and, unless it is aligned, padding. */
  function Slots(user: seq<Slice>): (n: nat)
  {
    4 + |user| + if Length(user) % 4 != 0 then 1 else 0
  }

  /** Three vectors always fit, four if the data is aligned, more never do. */
  lemma SlotsFitIff(user: seq<Slice>)
    ensures Slots(user) <= Capacity(|user|) <==> |user| <= 3 || (|user| == 4 && Length(user) % 4 == 0)
  {
  }

  /** What plain marshalling would send. */
  ghost function Record(c: Call, args: seq<byte>, data: Blob): (r: seq<byte>)
    requires |EncCall(c)| + |args| + |EncOpaque(data)| < 0x8000_0000
  {
    var body := EncCall(c) + args + EncOpaque(data);
    Be32(0x8000_0000 + |body|) + body
  }

  /** Section 11 of RFC 5531: the marker says that this is the last fragment, and how long it is. */
  lemma RecordMarker(c: Call, args: seq<byte>, data: Blob)
    requires |EncCall(c)| + |args| + |EncOpaque(data)| < 0x8000_0000
    ensures var r := Record(c, args, data);
            && Word(r, 0) == 0x8000_0000 + |r| - 4 && r[4..] == EncCall(c) + args + EncOpaque(data)
  {
    hide EncCall, EncOpaque, Be32, Word;
    var body := EncCall(c) + args + EncOpaque(data);
    WordOfBe32([], 0x8000_0000 + |body|, body);
    assert Record(c, args, data) == [] + Be32(0x8000_0000 + |body|) + body;
  }

  /** The sum the source forms in a 32-bit variable. */
  method SumLengths(user: seq<Slice>) returns (n: uint32)
    ensures n == Wrap32(Length(user))
  {
    n := 0;
    for i := 0 to |user|
      invariant n == Wrap32(Length(user[..i]))
    {
      assert user[..i + 1][..i] == user[..i];
      WrapSum(Length(user[..i]), user[i].len);
      n := Wrap32(n + user[i].len);
    }
    assert user[..|user|] == user;
  }

  lemma WrapSum(a: nat, b: nat)
    ensures Wrap32(Wrap32(a) + b) == Wrap32(a + b)
  {
  }

  /** `rpc_queue_pdu`: the size of the record without its marker; nothing is left to add. */
  method Measure(iov: seq<Slice>, pos: nat) returns (size: nat)
    requires iov != [] && pos <= Length(iov) - iov[0].len
    ensures size == Length(iov) - iov[0].len
  {
    size := 0;
    for i := 1 to |iov|
      invariant size == Length(iov[..i]) - iov[0].len
    {
      assert iov[..i + 1][..i] == iov[..i];
      size := size + iov[i].len;
    }
    assert iov[..|iov|] == iov;
    assert !(pos > size);
  }

  /** The five groups of vectors, flattened. */
  lemma FlatParts(head: seq<Slice>, user: seq<Slice>, tail: seq<Slice>)
    requires AllInBounds(head) && AllInBounds(user) && AllInBounds(tail)
    ensures AllInBounds(head + user + tail)
    ensures Flat(head + user + tail) == Flat(head) + Flat(user) + Flat(tail)
    ensures Length(head + user + tail) == Length(head) + Length(user) + Length(tail)
  {
    FlatAppend(head, user);
    FlatAppend(head + user, tail);
  }

  /** The four vectors in front of the data: marker, header, arguments, length. */
  function HeadVectors(m: array<byte>, z: array<byte>, n: nat, k: nat): (vs: seq<Slice>)
  {
    [Slice(m, 0, 4), Slice(z, 0, n), Slice(z, n, k), Slice(z, n + k, 4)]
  }

  lemma FlatHead(m: array<byte>, z: array<byte>, n: nat, k: nat)
    requires m.Length == 4 && n + k + 4 <= z.Length
    ensures var vs := HeadVectors(m, z, n, k); AllInBounds(vs) && Flat(vs) == m[..] + z[..n + k + 4]
  {
    hide Flat, Length;
    var a, b, c, d := Slice(m, 0, 4), Slice(z, 0, n), Slice(z, n, k), Slice(z, n + k, 4);
    FlatNone();
    FlatSnoc([], a);
    FlatSnoc([] + [a], b);
    FlatSnoc([] + [a] + [b], c);
    FlatSnoc([] + [a] + [b] + [c], d);
    assert HeadVectors(m, z, n, k) == [] + [a] + [b] + [c] + [d];
    assert Data(a) == m[..];
    assert z[..n + k + 4] == z[..n] + z[n..n + k] + z[n + k..n + k + 4];
  }

  lemma {:induction false} LengthAppend(a: seq<Slice>, b: seq<Slice>)
    ensures Length(a + b) == Length(a) + Length(b)
    decreases |b|
  {
    if b == [] {
      assert a + b == a;
    } else {
      assert (a + b)[..|a + b| - 1] == a + b[..|b| - 1];
      LengthAppend(a, b[..|b| - 1]);
    }
  }

  lemma LengthOne(v: Slice)
    ensures Length([v]) == v.len
  {
    assert [v][..0] == [];
  }

  lemma LengthHead(m: array<byte>, z: array<byte>, n: nat, k: nat)
    ensures Length(HeadVectors(m, z, n, k)) == n + k + 8
  {
    hide Length;
    var a, b, c, d := Slice(m, 0, 4), Slice(z, 0, n), Slice(z, n, k), Slice(z, n + k, 4);
    LengthOne(a);
    LengthOne(b);
    LengthOne(c);
    LengthOne(d);
    LengthAppend([a], [b]);
    LengthAppend([a] + [b], [c]);
    LengthAppend([a] + [b] + [c], [d]);
    assert HeadVectors(m, z, n, k) == [a] + [b] + [c] + [d];
  }

  /** The lengths add up whether or not the vectors lie inside their buffers. */
  lemma LengthAll(m: array<byte>, z: array<byte>, n: nat, k: nat, user: seq<Slice>, padding: array<byte>)
    ensures Length(HeadVectors(m, z, n, k) + user + TailVectors(padding, Length(user)))
         == n + k + 8 + Length(user) + PadLen(Length(user))
  {
    hide Length, HeadVectors;
    LengthHead(m, z, n, k);
    LengthAppend(HeadVectors(m, z, n, k), user);
    LengthAppend(HeadVectors(m, z, n, k) + user, TailVectors(padding, Length(user)));
    LengthTail(padding, Length(user));
  }

  lemma LengthTail(padding: array<byte>, len: nat)
    ensures Length(TailVectors(padding, len)) == PadLen(len)
  {
    if len % 4 != 0 {
      LengthOne(Slice(padding, 0, 4 - len % 4));
    }
  }

  lemma FlatNone()
    ensures Flat([]) == [] && Length([]) == 0
  {
  }

  function TailVectors(padding: array<byte>, len: nat): (vs: seq<Slice>)
  {
    if len % 4 != 0 then [Slice(padding, 0, 4 - len % 4)] else []
  }

  lemma FlatTail(padding: array<byte>, len: nat)
    requires padding[..] == [0, 0, 0, 0]
    ensures var vs := TailVectors(padding, len);
            AllInBounds(vs) && Flat(vs) == Zeros(PadLen(len)) && Length(vs) == PadLen(len)
  {
    hide Flat, Length;
    FlatNone();
    assert padding.Length == |padding[..]|;
    if len % 4 != 0 {
      var v := Slice(padding, 0, 4 - len % 4);
      FlatSnoc([], v);
      assert [] + [v] == [v];
      assert Data(v) == padding[..][..4 - len % 4] == Zeros(PadLen(len));
    }
  }

  /** All vectors, in the order in which they are added. */
  method AddVectors(out: IoVectors, m: array<byte>, z: array<byte>, n: nat, k: nat, user: seq<Slice>, len: nat,
                    padding: array<byte>)
    returns (ok: bool)
    requires out.iov == [] && out.capacity >= RPC_FAST_VECTORS && len == Length(user) && user != []
    modifies out
    ensures ok <==> Slots(user) <= out.capacity
    ensures ok ==> out.iov == HeadVectors(m, z, n, k) + user + TailVectors(padding, len)
    ensures ok ==> |out.iov| >= 4 + |user| && out.iov[4..4 + |user|] == user
  {
    hide Length;
    ok := out.Add(Slice(m, 0, 4));
    ok := out.Add(Slice(z, 0, n));
    ok := out.Add(Slice(z, n, k));
    ok := out.Add(Slice(z, n + k, 4));
    assert out.iov == HeadVectors(m, z, n, k);
    ok := out.AddAll(user);
    if ok && len % 4 != 0 {
      ok := out.Add(Slice(padding, 0, 4 - len % 4));
    }
  }

  /** The vectors, flattened. */
  lemma FlatAll(m: array<byte>, z: array<byte>, n: nat, k: nat, user: seq<Slice>, padding: array<byte>)
    requires m.Length == 4 && n + k + 4 <= z.Length && AllInBounds(user) && padding[..] == [0, 0, 0, 0]
    ensures var vs := HeadVectors(m, z, n, k) + user + TailVectors(padding, Length(user));
            && AllInBounds(vs)
            && Flat(vs) == m[..] + z[..n + k + 4] + Flat(user) + Zeros(PadLen(Length(user)))
  {
    hide Flat, Length;
    FlatHead(m, z, n, k);
    FlatTail(padding, Length(user));
    FlatParts(HeadVectors(m, z, n, k), user, TailVectors(padding, Length(user)));
  }

  /** The marshalled arguments, into the encode buffer. */
  method Arguments(z: Zdr, args: seq<byte>) returns (ok: bool)
    requires z.Valid() && !z.decode && Whole(|args|)
    modifies z`pos, z.buf
    ensures z.Valid() && Encoded(old(z.buf[..]), old(z.pos), args, ok, z.buf[..], z.pos)
  {
    ok := z.pos + |args| <= z.buf.Length;
    if ok {
      z.Store(args);
      z.pos := z.pos + |args|;
    }
  }

  /** The encode buffer: header, arguments and the length of the data. The result of encoding the
      length is not looked at; if header and arguments fill the buffer, the word is not there. */
  method Marshal(z: Zdr, c: Call, args: seq<byte>, len: uint32) returns (ok: bool, start: nat, end: nat)
    requires z.Valid() && !z.decode && z.pos == 0 && z.buf.Length == ENCODE_ROOM && Whole(|args|)
    modifies z, z.buf
    ensures ok <==> |EncCall(c)| + |args| <= ENCODE_ROOM
    ensures ok ==> start == |EncCall(c)| && end == start + |args|
    ensures ok && end < ENCODE_ROOM ==>
              z.pos == end + 4 <= z.buf.Length && z.buf[..end + 4] == EncCall(c) + args + Be32(len)
    ensures ok && end == ENCODE_ROOM ==> z.pos == end && z.buf[..] == EncCall(c) + args
  {
    hide EncCall, Encoded, Be32;
    ghost var b0 := z.buf[..];
    var header;
    ok, header := z.CallMsg(c);
    start, end := z.pos, z.pos;
    ghost var b1, p1 := z.buf[..], z.pos;
    EncodedMeans(b0, 0, EncCall(c), ok, b1, p1);
    if !ok {
      return;
    }
    ok := Arguments(z, args);
    end := z.pos;
    ghost var b2 := z.buf[..];
    EncodedThen(b0, 0, EncCall(c), b1, p1, args, ok, b2, end);
    EncodedMeans(b0, 0, EncCall(c) + args, ok, b2, end);
    if !ok {
      return;
    }
    var fits, word := z.UInt(len);
    EncodedMeans(b2, end, Be32(len), fits, z.buf[..], z.pos);
    if fits {
      EncodedThen(b0, 0, EncCall(c) + args, b2, end, Be32(len), true, z.buf[..], z.pos);
      EncodedMeans(b0, 0, EncCall(c) + args + Be32(len), true, z.buf[..], z.pos);
      assert z.buf[..][0..z.pos] == z.buf[..z.pos];
    } else {
      RoomForWord(end);
      assert z.buf[..] == z.buf[..end];
      assert z.buf[..][..end] == b2[..end] == b2[0..end];
    }
  }

  lemma EncodedMeans(b0: seq<byte>, at: nat, e: seq<byte>, ok: bool, b1: seq<byte>, end: nat)
    requires Encoded(b0, at, e, ok, b1, end)
    ensures (ok <==> at + |e| <= |b0|) && (ok ==> end == at + |e| <= |b1| && b1[at..end] == e)
    ensures at <= |b0| == |b1| && b1[..at] == b0[..at]
  {
  }

  lemma RoomForWord(p: nat)
    requires Whole(p) && p + 4 > ENCODE_ROOM >= p
    ensures p == ENCODE_ROOM
  {
  }

  /** The record marker: one last fragment of `size` bytes. */
  method SetMarker(m: array<byte>, size: nat)
    requires m.Length == 4 && size < 0x8000_0000
    modifies m
    ensures m[..] == Be32(0x8000_0000 + size)
  {
    var word := Be32(0x8000_0000 + size);
    forall i | 0 <= i < 4 {
      m[i] := word[i];
    }
  }

  /** `rpc_queue_pdu`: measures the record and writes its marker, which is nobody else's memory. The
      vectors are good exactly when the length word lies in the encode buffer. */
  method Seal(marker: array<byte>, buf: array<byte>, n: nat, k: nat, user: seq<Slice>, padding: array<byte>,
              iov: seq<Slice>, pos: nat)
    requires marker.Length == 4 && pos <= n + k + 4 && AllInBounds(user) && padding[..] == [0, 0, 0, 0]
    requires marker != buf && marker != padding && forall i :: 0 <= i < |user| ==> user[i].buf != marker
    requires iov == HeadVectors(marker, buf, n, k) + user + TailVectors(padding, Length(user))
    requires n + k + 4 + Length(user) + PadLen(Length(user)) < 0x8000_0000
    modifies marker
    ensures AllInBounds(iov) <==> n + k + 4 <= buf.Length
    ensures n + k + 4 <= buf.Length ==>
              Flat(iov) == Be32(0x8000_0000 + n + k + 4 + Length(user) + PadLen(Length(user)))
                           + buf[..n + k + 4] + Flat(user) + Zeros(PadLen(Length(user)))
  {
    hide Flat, Length, Be32, PadLen, Zeros;
    assert iov[0] == Slice(marker, 0, 4) && iov[3] == Slice(buf, n + k, 4);
    LengthAll(marker, buf, n, k, user, padding);
    var size := Measure(iov, pos);
    SetMarker(marker, size);
    if n + k + 4 <= buf.Length {
      FlatAll(marker, buf, n, k, user, padding);
    }
  }

  lemma RecordParts(c: Call, args: seq<byte>, data: Blob)
    requires |EncCall(c)| + |args| + |EncOpaque(data)| < 0x8000_0000
    ensures var size := |EncCall(c)| + |args| + 4 + |data| + PadLen(|data|);
            Record(c, args, data) ==
            Be32(0x8000_0000 + size) + (EncCall(c) + args + Be32(|data|)) + data + Zeros(PadLen(|data|))
  {
    hide EncCall, Be32;
    var head, pad := EncCall(c) + args, Zeros(PadLen(|data|));
    assert head + EncOpaque(data) == head + Be32(|data|) + data + pad;
    var size := |head + EncOpaque(data)|;
    assert Be32(0x8000_0000 + size) + (head + Be32(|data|) + data + pad)
        == Be32(0x8000_0000 + size) + (head + Be32(|data|)) + data + pad;
  }

  /** The record behind its marker. */
  ghost function BodySize(c: Call, args: seq<byte>, user: seq<Slice>): (n: nat)
  {
    |EncCall(c)| + |args| + 4 + Length(user) + PadLen(Length(user))
  }

  /** Succeeds exactly when the encode buffer and the vector slots suffice. Then the vectors lie inside
      their memory if and only if header and arguments do not fill the encode buffer to the last byte;
      and if so, flattened they are the record that plain marshalling of the same data gives. The data
      is not copied. */
  method WritevTask(user: seq<Slice>, c: Call, args: seq<byte>) returns (ok: bool, iov: seq<Slice>)
    requires AllInBounds(user) && Whole(|args|)
    requires |EncCall(c)| + |args| <= ENCODE_ROOM ==> BodySize(c, args, user) < 0x8000_0000
    ensures ok <==> user != [] && |EncCall(c)| + |args| <= ENCODE_ROOM && Slots(user) <= Capacity(|user|)
    ensures ok ==> (AllInBounds(iov) <==> |EncCall(c)| + |args| != ENCODE_ROOM)
    ensures ok && AllInBounds(iov) ==> |Flat(user)| == Length(user) && Flat(iov) == Record(c, args, Flat(user))
    ensures ok ==> |iov| >= 4 + |user| && iov[4..4 + |user|] == user
  {
    hide EncCall, Flat, Length, Be32, Record, HeadVectors, TailVectors, Zeros, PadLen;
    iov := [];
    if user == [] {
      return false, iov;
    }
    var buf := new byte[ENCODE_ROOM];
    var z := new Zdr(buf, false);
    var len := SumLengths(user);
    var start, end;
    ok, start, end := Marshal(z, c, args, len);
    if !ok {
      return;
    }
    ok, iov := Assemble(user, buf, start, end - start, len, z.pos);
    FlatLength(user);
    if ok && end < ENCODE_ROOM {
      RecordParts(c, args, Flat(user));
    }
  }

  /** The vectors around the encode buffer, and the marker. */
  method Assemble(user: seq<Slice>, buf: array<byte>, n: nat, k: nat, len: nat, pos: nat)
    returns (ok: bool, iov: seq<Slice>)
    requires user != [] && AllInBounds(user) && len == Length(user) && pos <= n + k + 4
    requires n + k + 4 + Length(user) + PadLen(Length(user)) < 0x8000_0000
    ensures ok <==> Slots(user) <= Capacity(|user|)
    ensures ok ==> (AllInBounds(iov) <==> n + k + 4 <= buf.Length)
    ensures ok ==> |iov| >= 4 + |user| && iov[4..4 + |user|] == user
    ensures ok && n + k + 4 <= buf.Length ==>
              Flat(iov) == Be32(0x8000_0000 + n + k + 4 + Length(user) + PadLen(Length(user)))
                           + buf[..n + k + 4] + Flat(user) + Zeros(PadLen(Length(user)))
  {
    hide Flat, Length, Be32, HeadVectors, TailVectors, Zeros, PadLen;
    var out := new IoVectors(|user|);
    var marker := new byte[4];
    var padding := new byte[4](i => 0);
    ok := AddVectors(out, marker, buf, n, k, user, len, padding);
    iov := out.iov;
    if ok {
      Seal(marker, buf, n, k, user, padding, iov, pos);
    }
  }

  /** A call whose header and arguments fill the encode buffer: it succeeds, and the vector of the
      length word points behind the buffer. */
  method LengthWordLost() returns (ok: bool, iov: seq<Slice>)
    ensures ok && !AllInBounds(iov)
  {
    var c := Call(1, 2, 100003, 4, 1, Auth(0, []), Auth(0, []));
    var data := new byte[1];
    var user := [Slice(data, 0, 1)];
    assert |EncCall(c)| == 40;
    LengthOne(user[0]);
    ok, iov := WritevTask(user, c, Zeros(ENCODE_ROOM - 40));
  }
}
