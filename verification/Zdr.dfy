/** The ZDR codec: one routine per type that encodes or decodes at a moving position of one buffer. */
module Zdr {
  import opened Bytes
  import opened ZdrFormat

  /** Encoding `e` at `at`: it succeeds exactly when it fits, and then only its own bytes change. */
  ghost predicate Encoded(before: seq<byte>, at: nat, e: seq<byte>, ok: bool, after: seq<byte>, end: nat)
  {
    && at <= |before| == |after| && after[..at] == before[..at]
    && (ok <==> at + |e| <= |before|)
    && (ok ==> end == at + |e| && Lies(after, at, e) && after[end..] == before[end..])
  }

  /** Decoding: the outcome is the decoder's. Nothing is said about what a lost routine returns. */
  ghost predicate Decoded<T>(r: Dec<T>, lost: bool, ok: bool, v: T, end: nat)
  {
    (lost <==> r.Lost?) && (!lost ==> (ok <==> r.Got?)) && (!lost && ok ==> r == Got(v, end))
  }

  lemma EncodedThen(b0: seq<byte>, at: nat, e1: seq<byte>, b1: seq<byte>, mid: nat, e2: seq<byte>, ok: bool,
                    b2: seq<byte>, end: nat)
    requires Encoded(b0, at, e1, true, b1, mid) && Encoded(b1, mid, e2, ok, b2, end)
    ensures Encoded(b0, at, e1 + e2, ok, b2, end)
  {
    assert b2[..at] == b2[..mid][..at] == b1[..mid][..at] == b1[..at];
    if ok {
      assert b2[at..mid] == b2[..mid][at..] == b1[..mid][at..] == b1[at..mid];
      assert b2[at..end] == b2[at..mid] + b2[mid..end];
      assert b2[end..] == b1[end..] == b1[mid..][|e2|..] == b0[mid..][|e2|..] == b0[end..];
    }
  }

  lemma EncodedStops(b0: seq<byte>, at: nat, e1: seq<byte>, b1: seq<byte>, mid: nat, e2: seq<byte>)
    requires Encoded(b0, at, e1, false, b1, mid)
    ensures Encoded(b0, at, e1 + e2, false, b1, mid)
  {
  }

  class Zdr {
    const buf: array<byte>
    const decode: bool
    var pos: nat
    /** An integer was taken for what it is not: the code goes on with memory that is not its own or with a
        position that has moved back, and the model stops. */
    var lost: bool

    ghost predicate Valid()
      reads this
    {
      !lost && buf.Length <= MAX_BUFFER && Whole(buf.Length) && Whole(pos) && pos <= buf.Length
    }

    constructor (buf: array<byte>, decode: bool)
      requires buf.Length <= MAX_BUFFER && Whole(buf.Length)
      ensures Valid() && this.buf == buf && this.decode == decode && pos == 0
    {
      this.buf, this.decode, pos, lost := buf, decode, 0, false;
    }

    /** `libnfs_zdr_u_int`. */
    method UInt(u: uint32) returns (ok: bool, v: uint32)
      requires Valid()
      modifies this`pos, buf
      ensures Valid() && (ok ==> pos == old(pos) + 4) && (!ok ==> pos == old(pos))
      ensures if decode then buf[..] == old(buf[..]) && Decoded(DecWord(buf[..], old(pos)), lost, ok, v, pos)
              else v == u && Encoded(old(buf[..]), old(pos), Be32(u), ok, buf[..], pos)
    {
      v := u;
      if pos + 4 > buf.Length {
        return false, v;
      }
      ok := true;
      if decode {
        v := Word(buf[..], pos);
      } else {
        Store(Be32(u));
      }
      pos := pos + 4;
    }

    /** `memcpy` to the current position. */
    method Store(s: seq<byte>)
      requires pos + |s| <= buf.Length
      modifies buf
      ensures Encoded(old(buf[..]), pos, s, true, buf[..], pos + |s|)
    {
      forall i | 0 <= i < |s| {
        buf[pos + i] := s[i];
      }
      assert buf[pos..pos + |s|] == s;
      assert buf[..][pos + |s|..] == old(buf[..])[pos + |s|..];
    }

    /** `libnfs_zdr_uint64_t`. */
    method Hyper(u: uint64) returns (ok: bool, v: uint64)
      requires Valid()
      modifies this`pos, buf
      ensures Valid()
      ensures if decode then buf[..] == old(buf[..]) && Decoded(DecHyper(buf[..], old(pos)), lost, ok, v, pos)
              else v == u && Encoded(old(buf[..]), old(pos), EncHyper(u), ok, buf[..], pos)
    {
      hide Encoded;
      v := u;
      if pos + 8 > buf.Length {
        EncodedNothing(buf[..], pos, EncHyper(u));
        return false, v;
      }
      ok := true;
      var high := UIntAt(u / TWO_32);
      ghost var mid := buf[..];
      var low := UIntAt(u % TWO_32);
      if decode {
        v := high * TWO_32 + low;
      } else {
        EncodedThen(old(buf[..]), old(pos), Be32(u / TWO_32), mid, old(pos) + 4, Be32(u % TWO_32), true, buf[..], pos);
      }
    }

    /** A word that is known to fit. */
    method UIntAt(u: uint32) returns (v: uint32)
      requires Valid() && pos + 4 <= buf.Length
      modifies this`pos, buf
      ensures Valid() && pos == old(pos) + 4
      ensures if decode then buf[..] == old(buf[..]) && v == Word(buf[..], old(pos))
              else Encoded(old(buf[..]), old(pos), Be32(u), true, buf[..], pos)
    {
      var ok;
      ok, v := UInt(u);
    }

    /** `libnfs_zdr_opaque` once the length is known to fit: the bytes and their padding. */
    method Opaque(s: Blob, n: nat) returns (v: seq<byte>)
      requires Valid() && pos + n <= buf.Length && (!decode ==> n == |s|)
      modifies this`pos, buf
      ensures Valid() && pos == RoundUp4(old(pos) + n)
      ensures if decode then buf[..] == old(buf[..]) && v == buf[old(pos)..old(pos) + n]
              else v == s && Encoded(old(buf[..]), old(pos), s + Zeros(PadLen(|s|)), true, buf[..], pos)
    {
      Fits(pos, n, buf.Length);
      if decode {
        v := buf[pos..pos + n];
        pos := RoundUp4(pos + n);
      } else {
        v := s;
        Store(s + Zeros(PadLen(n)));
        pos := pos + n;
        pos := RoundUp4(pos);
      }
    }

    /** `libnfs_zdr_bytes`, and the common part of `libnfs_zdr_string`. */
    method Blobs(s: Blob) returns (ok: bool, v: Blob)
      requires Valid()
      modifies this`pos, this`lost, buf
      ensures (lost || Valid()) && (!decode ==> !lost)
      ensures decode && !lost ==> buf[..] == old(buf[..])
      ensures if decode then Decoded(DecOpaque(old(buf[..]), old(pos)), lost, ok, v, pos)
              else v == s && Encoded(old(buf[..]), old(pos), EncOpaque(s), ok, buf[..], pos)
    {
      hide Be32, Word, EncOpaque, Zeros, PadLen, Encoded;
      var n;
      v := s;
      ok, n := UInt(|s|);
      ghost var mid, at := buf[..], pos;
      if !decode {
        OpaqueParts(s);
      }
      if !ok {
        if !decode {
          EncodedStops(old(buf[..]), old(pos), Be32(|s|), mid, at, s + Zeros(PadLen(|s|)));
        }
        return;
      }
      LengthTest(pos, n, buf.Length);
      if !PassesTest(pos, n, buf.Length) {
        if !decode {
          EncodedOver(old(buf[..]), old(pos), Be32(|s|), mid, at, s + Zeros(PadLen(|s|)));
        }
        ok := false;
        return;
      }
      if n >= 0x8000_0000 {
        lost := true;
        return;
      }
      v := Opaque(s, n);
      if !decode {
        EncodedThen(old(buf[..]), old(pos), Be32(|s|), mid, at, s + Zeros(PadLen(|s|)), true, buf[..], pos);
      }
    }

    /** `libnfs_zdr_string`: decoded in place when a zero byte follows, else into a terminated copy. */
    method Str(s: CStr) returns (ok: bool, v: CStr)
      requires Valid()
      modifies this`pos, this`lost, buf
      ensures (lost || Valid()) && (!decode ==> !lost) && (!lost && ok ==> old(pos) < pos)
      ensures decode && !lost ==> buf[..] == old(buf[..])
      ensures if decode then Decoded(DecString(old(buf[..]), old(pos)), lost, ok, v, pos)
              else v == s && Encoded(old(buf[..]), old(pos), EncOpaque(s), ok, buf[..], pos)
    {
      hide Be32, Word, CBytes, EncOpaque, Zeros, PadLen, Encoded;
      var n;
      v := s;
      ok, n := UInt(|s|);
      ghost var mid, at := buf[..], pos;
      if !decode {
        OpaqueParts(s);
      }
      if !ok {
        if !decode {
          EncodedStops(old(buf[..]), old(pos), Be32(|s|), mid, at, s + Zeros(PadLen(|s|)));
        }
        return;
      }
      LengthTest(pos, n, buf.Length);
      if !PassesTest(pos, n, buf.Length) {
        if !decode {
          EncodedOver(old(buf[..]), old(pos), Be32(|s|), mid, at, s + Zeros(PadLen(|s|)));
        }
        ok := false;
        return;
      }
      if !decode {
        var _ := Opaque(s, n);
        EncodedThen(old(buf[..]), old(pos), Be32(|s|), mid, at, s + Zeros(PadLen(|s|)), true, buf[..], pos);
        return;
      }
      if n >= 0x8000_0000 {
        lost := true;
        return;
      }
      if buf.Length > pos + n && buf[pos + n] == 0 {
        Terminated(buf[..], pos, n);
        v := CBytes(buf[pos..]);
        Fits(pos, n, buf.Length);
        pos := RoundUp4(pos + n);
      } else {
        var raw := Opaque(s, n);
        InPlaceIsCopy(raw, []);
        v := CBytes(raw + [0]);
      }
    }

    /** `zdr_groups`: an optional node, that is, `libnfs_zdr_pointer` with `zdr_groupnode`. */
    method GroupList(g: Groups) returns (ok: bool, v: Groups)
      requires Valid()
      modifies this`pos, this`lost, buf
      ensures (lost || Valid()) && (!decode ==> !lost) && (!lost && ok ==> old(pos) < pos)
      ensures decode && !lost ==> buf[..] == old(buf[..])
      ensures if decode then Decoded(DecGroups(old(buf[..]), old(pos)), lost, ok, v, pos)
              else (ok ==> v == g) && Encoded(old(buf[..]), old(pos), EncGroups(g), ok, buf[..], pos)
      decreases buf.Length - pos, 1
    {
      hide Encoded, Be32, Word, EncOpaque, DecString, Whole;
      v := NoGroup;
      var more;
      ok, more := UInt(if g.NoGroup? then 0 else 1);
      ghost var mid, at := buf[..], pos;
      if !ok {
        if !decode && g.GroupNode? {
          EncodedStops(old(buf[..]), old(pos), Be32(1), mid, at, EncOpaque(g.name) + EncGroups(g.next));
        }
        return;
      }
      if more == 0 {
        return;
      }
      var name, next;
      ok, name, next := GroupBody(if g.GroupNode? then g.name else [], if g.GroupNode? then g.next else NoGroup);
      if lost {
        return;
      }
      v := GroupNode(name, next);
      if !decode {
        EncodedThen(old(buf[..]), old(pos), Be32(1), mid, at, EncOpaque(g.name) + EncGroups(g.next), ok, buf[..], pos);
      }
    }

    /** `zdr_groupnode`. */
    method GroupBody(name: CStr, next: Groups) returns (ok: bool, v: CStr, w: Groups)
      requires Valid()
      modifies this`pos, this`lost, buf
      ensures (lost || Valid()) && (!decode ==> !lost) && (!lost && ok ==> old(pos) < pos)
      ensures decode && !lost ==> buf[..] == old(buf[..])
      ensures if decode then Decoded(DecGroupBody(old(buf[..]), old(pos)), lost, ok, (v, w), pos)
              else (ok ==> v == name && w == next)
                   && Encoded(old(buf[..]), old(pos), EncOpaque(name) + EncGroups(next), ok, buf[..], pos)
      decreases buf.Length - pos, 0
    {
      hide Encoded, Be32, Word, EncOpaque, DecString, Whole, DecGroups, EncGroups;
      w := NoGroup;
      ok, v := Str(name);
      if lost {
        return;
      }
      ghost var mid, at := buf[..], pos;
      if !ok {
        if !decode { EncodedStops(old(buf[..]), old(pos), EncOpaque(name), mid, at, EncGroups(next)); }
        return;
      }
      ok, w := GroupList(next);
      if !lost && !decode {
        EncodedThen(old(buf[..]), old(pos), EncOpaque(name), mid, at, EncGroups(next), ok, buf[..], pos);
      }
    }

    /** `zdr_exports`: an optional node, that is, `libnfs_zdr_pointer` with `zdr_exportnode`. */
    method ExportList(x: Exports) returns (ok: bool, v: Exports)
      requires Valid()
      modifies this`pos, this`lost, buf
      ensures (lost || Valid()) && (!decode ==> !lost)
      ensures decode && !lost ==> buf[..] == old(buf[..])
      ensures if decode then Decoded(DecExports(old(buf[..]), old(pos)), lost, ok, v, pos)
              else (ok ==> v == x) && Encoded(old(buf[..]), old(pos), EncExports(x), ok, buf[..], pos)
      decreases buf.Length - pos, 1
    {
      hide Encoded, Be32, Word, EncOpaque, DecString, EncGroups, DecGroups, Whole;
      v := NoExport;
      var more;
      ok, more := UInt(if x.NoExport? then 0 else 1);
      ghost var mid, at := buf[..], pos;
      if !ok {
        if !decode && x.ExportNode? {
          EncodedStops(old(buf[..]), old(pos), Be32(1), mid, at, EncExportBody(x.dir, x.groups, x.next));
        }
        return;
      }
      if more == 0 {
        return;
      }
      var dir, groups, next;
      if x.ExportNode? {
        ok, dir, groups, next := ExportBody(x.dir, x.groups, x.next);
      } else {
        ok, dir, groups, next := ExportBody([], NoGroup, NoExport);
      }
      v := ExportNode(dir, groups, next);
      if !lost && !decode {
        EncodedThen(old(buf[..]), old(pos), Be32(1), mid, at, EncExportBody(x.dir, x.groups, x.next), ok, buf[..], pos);
      }
    }

    /** `zdr_exportnode`. */
    method ExportBody(dir: CStr, groups: Groups, next: Exports) returns (ok: bool, v: CStr, w: Groups, y: Exports)
      requires Valid()
      modifies this`pos, this`lost, buf
      ensures (lost || Valid()) && (!decode ==> !lost)
      ensures decode && !lost ==> buf[..] == old(buf[..])
      ensures if decode then Decoded(DecExportBody(old(buf[..]), old(pos)), lost, ok, (v, w, y), pos)
              else (ok ==> v == dir && w == groups && y == next)
                   && Encoded(old(buf[..]), old(pos), EncExportBody(dir, groups, next), ok, buf[..], pos)
      decreases buf.Length - pos, 0
    {
      hide Encoded, Be32, Word, EncOpaque, DecString, Whole, EncExports, DecExports;
      y := NoExport;
      ok, v, w := GroupBody(dir, groups);
      if lost {
        return;
      }
      ghost var mid, at := buf[..], pos;
      if !ok {
        if !decode {
          EncodedStops(old(buf[..]), old(pos), EncOpaque(dir) + EncGroups(groups), mid, at, EncExports(next));
          assert EncExportBody(dir, groups, next) == EncOpaque(dir) + EncGroups(groups) + EncExports(next);
        }
        return;
      }
      ok, y := ExportList(next);
      if !lost && !decode {
        ghost var head := EncOpaque(dir) + EncGroups(groups);
        EncodedThen(old(buf[..]), old(pos), head, mid, at, EncExports(next), ok, buf[..], pos);
        assert EncExportBody(dir, groups, next) == EncOpaque(dir) + EncGroups(groups) + EncExports(next);
      }
    }

    /** `libnfs_zdr_array` with element routine `k` and elements of `elsize` bytes of memory. */
    method Array<T(!new)>(k: Codec<T>, elsize: nat, xs: seq<T>) returns (ok: bool, v: seq<T>)
      requires Valid() && Lawful(k) && elsize > 0 && |xs| < TWO_32
      modifies this`pos, this`lost, buf
      ensures (lost || Valid()) && (!decode ==> !lost)
      ensures decode && !lost ==> buf[..] == old(buf[..])
      ensures decode ==> Decoded(DecArray(k, elsize, old(buf[..]), old(pos)), lost, ok, v, pos)
      ensures !decode && |xs| <= (TWO_32 - 1) / elsize ==>
                (ok ==> v == xs) && Encoded(old(buf[..]), old(pos), EncArray(k, xs), ok, buf[..], pos)
      ensures !decode && |xs| > (TWO_32 - 1) / elsize ==> !ok && buf[..][..old(pos)] == old(buf[..])[..old(pos)]
    {
      hide Encoded, Be32, Word, Whole, EncElements, DecElements, Lawful;
      v := xs;
      var n;
      ok, n := UInt(|xs|);
      ghost var mid, at := buf[..], pos;
      ghost var body := EncElements(k, xs[..Turns(|xs|)]);
      if !decode {
        EncodedFrame(old(buf[..]), old(pos), Be32(|xs|), ok, mid, at);
      }
      if !ok {
        if !decode {
          EncodedStops(old(buf[..]), old(pos), Be32(|xs|), mid, at, body);
        }
        return;
      }
      if n > (TWO_32 - 1) / elsize {
        ok := false;
        return;
      }
      if decode {
        if BadBlock(n * elsize) {
          lost := true;
          return;
        }
        FewerThanBytes(n, elsize);
        v := Repeat(k.zero, n);
        ok, v := ReadElements(k, v);
      } else {
        ok := WriteElements(k, xs[..Turns(n)]);
        EncodedThen(old(buf[..]), old(pos), Be32(|xs|), mid, at, body, ok, buf[..], pos);
      }
    }

    /** The element loop when decoding: the zeroed elements of `memory` are filled. */
    method ReadElements<T(!new)>(k: Codec<T>, memory: seq<T>) returns (ok: bool, v: seq<T>)
      requires Valid() && decode && Lawful(k)
      modifies this`pos, this`lost
      ensures (lost || Valid()) && buf[..] == old(buf[..])
      ensures Decoded(DecElements(k, buf[..], old(pos), |memory|), lost, ok, v, pos)
    {
      v, ok := memory, true;
      var i := 0;
      while i < |memory|
        invariant Valid() && i <= |memory| && ok && |v| == |memory|
        invariant DecElements(k, buf[..], old(pos), i) == Got(v[..i], pos)
      {
        var r := k.dec(buf[..], pos);
        ghost var w := v;
        DecElementsStop(k, buf[..], old(pos), i + 1, |memory|);
        match r {
          case Refused => return false, v;
          case Lost =>
            lost := true;
            return;
          case Got(x, end) =>
            v := v[i := x];
            pos := end;
            i := i + 1;
            assert v[..i] == w[..i - 1] + [x];
        }
      }
      assert v[..|memory|] == v;
    }

    /** The element loop when encoding. */
    method WriteElements<T(!new)>(k: Codec<T>, xs: seq<T>) returns (ok: bool)
      requires Valid() && !decode && Lawful(k)
      modifies this`pos, buf
      ensures Valid() && Encoded(old(buf[..]), old(pos), EncElements(k, xs), ok, buf[..], pos)
    {
      hide Encoded, EncElements;
      ok := true;
      NoElements(k, buf[..], pos);
      assert xs[..0] == [];
      for i := 0 to |xs|
        invariant Valid() && ok && Encoded(old(buf[..]), old(pos), EncElements(k, xs[..i]), true, buf[..], pos)
      {
        ghost var mid, at := buf[..], pos;
        ok := WriteElement(k, xs[i]);
        EncodedThen(old(buf[..]), old(pos), EncElements(k, xs[..i]), mid, at, k.enc(xs[i]), ok, buf[..], pos);
        ElementsStep(k, xs, i);
        if !ok {
          EncodedPrefix(old(buf[..]), old(pos), k, xs, i + 1, buf[..], pos);
          return;
        }
      }
      assert xs[..|xs|] == xs;
    }

    /** One element, which is stored when it fits. */
    method WriteElement<T(!new)>(k: Codec<T>, x: T) returns (ok: bool)
      requires Valid() && !decode && Lawful(k)
      modifies this`pos, buf
      ensures Valid() && Encoded(old(buf[..]), old(pos), k.enc(x), ok, buf[..], pos)
    {
      var e := k.enc(x);
      ok := pos + |e| <= buf.Length;
      if ok {
        Store(e);
        WholeSum(pos, |e|);
        pos := pos + |e|;
      }
    }

    /** `libnfs_opaque_cred`, and `libnfs_opaque_verf` without GSS. */
    method AuthInfo(a: Auth) returns (ok: bool, v: Auth)
      requires Valid()
      modifies this`pos, this`lost, buf
      ensures (lost || Valid()) && (!decode ==> !lost)
      ensures decode && !lost ==> buf[..] == old(buf[..])
      ensures if decode then Decoded(DecAuth(old(buf[..]), old(pos)), lost, ok, v, pos)
              else (ok ==> v == a) && Encoded(old(buf[..]), old(pos), EncAuth(a), ok, buf[..], pos)
    {
      hide Encoded, Be32, Word, Whole, EncOpaque, DecOpaque;
      v := a;
      var flavor, body;
      ok, flavor := UInt(a.flavor);
      ghost var mid, at := buf[..], pos;
      if !ok {
        if !decode { EncodedStops(old(buf[..]), old(pos), Be32(a.flavor), mid, at, EncOpaque(a.body)); }
        return;
      }
      ok, body := Blobs(a.body);
      if lost {
        return;
      }
      v := Auth(flavor, body);
      if !decode {
        EncodedThen(old(buf[..]), old(pos), Be32(a.flavor), mid, at, EncOpaque(a.body), ok, buf[..], pos);
      }
    }

    /** A word of a longer message: `acc` is encoded already, `whole` is the message. */
    method Field(u: uint32, ghost b0: seq<byte>, ghost at: nat, ghost acc: seq<byte>, ghost whole: seq<byte>)
      returns (ok: bool, v: uint32)
      requires Valid() && (!decode ==> Encoded(b0, at, acc, true, buf[..], pos) && |acc| + 4 <= |whole|)
      modifies this`pos, buf
      ensures Valid() && (ok ==> pos == old(pos) + 4)
      ensures decode ==> buf[..] == old(buf[..]) && (ok <==> old(pos) + 4 <= buf.Length)
      ensures decode && ok ==> v == Word(buf[..], old(pos))
      ensures !decode && ok ==> v == u && Encoded(b0, at, acc + Be32(u), true, buf[..], pos)
      ensures !decode && !ok ==> v == u && Encoded(b0, at, whole, false, buf[..], pos)
    {
      hide Encoded, Be32, Word, Whole;
      ok, v := UInt(u);
      if !decode {
        EncodedThen(b0, at, acc, old(buf[..]), old(pos), Be32(u), ok, buf[..], pos);
        if !ok {
          EncodedLonger(b0, at, acc + Be32(u), buf[..], pos, whole);
        }
      }
    }

    /** The credential and the verifier of a CALL. */
    method AuthPair(cred: Auth, verf: Auth) returns (ok: bool, v: Auth, w: Auth)
      requires Valid()
      modifies this`pos, this`lost, buf
      ensures (lost || Valid()) && (!decode ==> !lost)
      ensures decode && !lost ==> buf[..] == old(buf[..])
      ensures if decode then Decoded(DecAuthPair(old(buf[..]), old(pos)), lost, ok, (v, w), pos)
              else (ok ==> v == cred && w == verf)
                   && Encoded(old(buf[..]), old(pos), EncAuth(cred) + EncAuth(verf), ok, buf[..], pos)
    {
      hide Encoded, Be32, Word, Whole, EncAuth, DecAuth;
      w := verf;
      ok, v := AuthInfo(cred);
      if lost {
        return;
      }
      ghost var mid, at := buf[..], pos;
      if !ok {
        if !decode { EncodedStops(old(buf[..]), old(pos), EncAuth(cred), mid, at, EncAuth(verf)); }
        return;
      }
      ok, w := AuthInfo(verf);
      if !lost && !decode {
        EncodedThen(old(buf[..]), old(pos), EncAuth(cred), mid, at, EncAuth(verf), ok, buf[..], pos);
      }
    }

    /** `libnfs_rpc_msg` and `libnfs_rpc_call_body`: the header of a CALL. */
    method CallMsg(c: Call) returns (ok: bool, v: Call)
      requires Valid()
      modifies this`pos, this`lost, buf
      ensures (lost || Valid()) && (!decode ==> !lost)
      ensures decode && !lost ==> buf[..] == old(buf[..])
      ensures if decode then Decoded(DecCall(old(buf[..]), old(pos)), lost, ok, v, pos)
              else (ok ==> v == c) && Encoded(old(buf[..]), old(pos), EncCall(c), ok, buf[..], pos)
    {
      hide Encoded, Be32, Word, Whole, EncAuth, DecAuth, EncCall;
      ghost var b0, at, whole := buf[..], pos, EncCall(c);
      CallFlat(c);
      EncodedEmpty(b0, at);
      v := c;
      var xid, direction, rpcvers, prog, vers, procedure;
      ghost var acc: seq<byte> := [];
      ok, xid := Field(c.xid, b0, at, acc, whole);
      if !ok { return; }
      acc := acc + Be32(c.xid);
      ok, direction := Field(CALL, b0, at, acc, whole);
      if !ok { return; }
      if direction != CALL {
        ok := false;
        return;
      }
      acc := acc + Be32(CALL);
      ok, rpcvers := Field(c.rpcvers, b0, at, acc, whole);
      if !ok { return; }
      acc := acc + Be32(c.rpcvers);
      ok, prog := Field(c.prog, b0, at, acc, whole);
      if !ok { return; }
      acc := acc + Be32(c.prog);
      ok, vers := Field(c.vers, b0, at, acc, whole);
      if !ok { return; }
      acc := acc + Be32(c.vers);
      ok, procedure := Field(c.procedure, b0, at, acc, whole);
      if !ok { return; }
      acc := acc + Be32(c.procedure);
      ghost var mid, here := buf[..], pos;
      var cred, verf;
      ok, cred, verf := AuthPair(c.cred, c.verf);
      v := Call(xid, rpcvers, prog, vers, procedure, cred, verf);
      if !lost && !decode {
        EncodedThen(b0, at, acc, mid, here, EncAuth(c.cred) + EncAuth(c.verf), ok, buf[..], pos);
      }
    }
  }

  function DecAuthPair(b: seq<byte>, at: nat): (r: Dec<(Auth, Auth)>)
  {
    match DecAuth(b, at)
    case Refused => Refused
    case Lost => Lost
    case Got(cred, mid) =>
      match DecAuth(b, mid)
      case Refused => Refused
      case Lost => Lost
      case Got(verf, end) => Got((cred, verf), end)
  }

  lemma CallFlat(c: Call)
    ensures |EncCall(c)| >= 24
    ensures EncCall(c) == [] + Be32(c.xid) + Be32(CALL) + Be32(c.rpcvers) + Be32(c.prog) + Be32(c.vers)
                          + Be32(c.procedure) + (EncAuth(c.cred) + EncAuth(c.verf))
  {
    hide Be32, EncAuth;
    var tail := EncAuth(c.cred) + EncAuth(c.verf);
    var t5 := Be32(c.procedure) + tail;
    var t4 := Be32(c.vers) + t5;
    var t3 := Be32(c.prog) + t4;
    var a2 := Be32(c.xid) + Be32(CALL);
    assert [] + Be32(c.xid) == Be32(c.xid);
    assert Be32(c.xid) + (Be32(CALL) + (Be32(c.rpcvers) + t3)) == a2 + (Be32(c.rpcvers) + t3)
           == (a2 + Be32(c.rpcvers)) + t3;
    var a3 := a2 + Be32(c.rpcvers);
    assert a3 + t3 == (a3 + Be32(c.prog)) + t4;
    var a4 := a3 + Be32(c.prog);
    assert a4 + t4 == (a4 + Be32(c.vers)) + t5;
    var a5 := a4 + Be32(c.vers);
    assert a5 + t5 == (a5 + Be32(c.procedure)) + tail;
  }

  /** What stops at a part stops at any longer whole. */
  lemma EncodedLonger(b0: seq<byte>, at: nat, e: seq<byte>, b1: seq<byte>, end: nat, whole: seq<byte>)
    requires Encoded(b0, at, e, false, b1, end) && |e| <= |whole|
    ensures Encoded(b0, at, whole, false, b1, end)
  {
  }

  /** The rest does not fit any more. */
  lemma EncodedOver(b0: seq<byte>, at: nat, e1: seq<byte>, b1: seq<byte>, mid: nat, e2: seq<byte>)
    requires Encoded(b0, at, e1, true, b1, mid) && mid + |e2| > |b1|
    ensures Encoded(b0, at, e1 + e2, false, b1, mid)
  {
  }

  lemma EncodedEmpty(b: seq<byte>, at: nat)
    requires at <= |b|
    ensures Encoded(b, at, [], true, b, at)
  {
  }

  lemma EncodedFrame(b0: seq<byte>, at: nat, e: seq<byte>, ok: bool, b1: seq<byte>, end: nat)
    requires Encoded(b0, at, e, ok, b1, end)
    ensures at <= |b0| == |b1| && b1[..at] == b0[..at]
  {
  }

  lemma NoElements<T>(k: Codec<T>, b: seq<byte>, at: nat)
    requires at <= |b|
    ensures Encoded(b, at, EncElements(k, []), true, b, at)
  {
  }

  lemma ElementsStep<T>(k: Codec<T>, xs: seq<T>, i: nat)
    requires i < |xs|
    ensures EncElements(k, xs[..i + 1]) == EncElements(k, xs[..i]) + k.enc(xs[i])
  {
    assert xs[..i + 1][..i] == xs[..i];
  }

  lemma {:induction false} ElementsGrow<T>(k: Codec<T>, xs: seq<T>, i: nat)
    requires i <= |xs|
    ensures |EncElements(k, xs[..i])| <= |EncElements(k, xs)|
    decreases |xs|
  {
    if i < |xs| {
      ElementsGrow(k, xs[..|xs| - 1], i);
      assert xs[..|xs| - 1][..i] == xs[..i];
    } else {
      assert xs[..i] == xs;
    }
  }

  /** Elements that do not fit stop the whole array. */
  lemma EncodedPrefix<T>(b0: seq<byte>, at: nat, k: Codec<T>, xs: seq<T>, i: nat, b1: seq<byte>, end: nat)
    requires i <= |xs| && Encoded(b0, at, EncElements(k, xs[..i]), false, b1, end)
    ensures Encoded(b0, at, EncElements(k, xs), false, b1, end)
  {
    hide EncElements;
    ElementsGrow(k, xs, i);
  }

  /** So does an element that does not decode. */
  lemma {:induction false} DecElementsStop<T>(k: Codec<T>, b: seq<byte>, at: nat, i: nat, n: nat)
    requires i <= n
    ensures DecElements(k, b, at, i).Refused? ==> DecElements(k, b, at, n).Refused?
    ensures DecElements(k, b, at, i).Lost? ==> DecElements(k, b, at, n).Lost?
    decreases n
  {
    if i < n {
      DecElementsStop(k, b, at, i, n - 1);
    }
  }

  function EncExportBody(dir: CStr, groups: Groups, next: Exports): (e: seq<byte>)
  {
    EncOpaque(dir) + (EncGroups(groups) + EncExports(next))
  }

  /** The decoder of an export node, its three fields in order. */
  function DecExportBody(b: seq<byte>, at: nat): (r: Dec<(CStr, Groups, Exports)>)
  {
    match DecGroupBody(b, at)
    case Refused => Refused
    case Lost => Lost
    case Got(head, mid) =>
      match DecExports(b, mid)
      case Refused => Refused
      case Lost => Lost
      case Got(next, end) => Got((head.0, head.1, next), end)
  }

  /** The decoder of a group node, its two fields in order. */
  function DecGroupBody(b: seq<byte>, at: nat): (r: Dec<(CStr, Groups)>)
  {
    match DecString(b, at)
    case Refused => Refused
    case Lost => Lost
    case Got(name, mid) =>
      match DecGroups(b, mid)
      case Refused => Refused
      case Lost => Lost
      case Got(next, end) => Got((name, next), end)
  }

  lemma EncodedNothing(b: seq<byte>, at: nat, e: seq<byte>)
    requires at <= |b| < at + |e|
    ensures Encoded(b, at, e, false, b, at)
  {
  }

  /** In an aligned buffer the padding of whatever fits, fits. */
  lemma Fits(pos: nat, n: nat, size: nat)
    requires Whole(pos) && Whole(size) && pos + n <= size
    ensures RoundUp4(pos + n) == pos + n + PadLen(n) <= size && Whole(RoundUp4(pos + n))
  {
    Padded(pos, n);
  }

  lemma Terminated(b: seq<byte>, at: nat, n: nat)
    requires at + n < |b| && b[at + n] == 0
    ensures CBytes(b[at..]) == CBytes(b[at..at + n])
  {
    InPlaceIsCopy(b[at..at + n], b[at + n + 1..]);
    assert b[at..] == b[at..at + n] + [0] + b[at + n + 1..];
  }

  // ---------------------------------------------------------------- encode, then decode

  /** An export list encoded by one codec is read back by another: same value, same end. */
  method ExportsThere(b: array<byte>, x: Exports) returns (ok: bool, back: bool, v: Exports, end: nat, end': nat)
    requires b.Length <= MAX_BUFFER && Whole(b.Length)
    modifies b
    ensures ok <==> |EncExports(x)| <= b.Length
    ensures ok ==> back && v == x && end == end' == |EncExports(x)|
  {
    hide EncExports, DecExports;
    var out := new Zdr(b, false);
    ok, v := out.ExportList(x);
    end, end', back := out.pos, 0, false;
    if ok {
      ExportsRoundTrip(b[..], 0, x);
      var inp := new Zdr(b, true);
      back, v := inp.ExportList(NoExport);
      end' := inp.pos;
    }
  }

  /** The same for a CALL header. */
  method CallThere(b: array<byte>, c: Call) returns (ok: bool, back: bool, v: Call, end: nat, end': nat)
    requires b.Length <= MAX_BUFFER && Whole(b.Length)
    modifies b
    ensures ok <==> |EncCall(c)| <= b.Length
    ensures ok ==> back && v == c && end == end' == |EncCall(c)|
  {
    hide EncCall, DecCall;
    var out := new Zdr(b, false);
    ok, v := out.CallMsg(c);
    end, end', back := out.pos, 0, false;
    if ok {
      CallRoundTrip(b[..], 0, c);
      var inp := new Zdr(b, true);
      back, v := inp.CallMsg(Call(0, 0, 0, 0, 0, Auth(0, []), Auth(0, [])));
      end' := inp.pos;
    }
  }
}
