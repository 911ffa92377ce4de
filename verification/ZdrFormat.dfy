/** The external data representation (RFC 4506) of the values below: encodings, decoders, round trips. */
module ZdrFormat {
  import opened Bytes

  /** A length that the codec's `int` casts leave alone. */
  type Blob = s: seq<byte> | |s| < 0x8000_0000

  /** The content of a C string. */
  type CStr = s: seq<byte> | |s| < 0x8000_0000 && 0 !in s

  type uint64 = x: int | 0 <= x < 0x1_0000_0000_0000_0000

  datatype Groups = NoGroup | GroupNode(name: CStr, next: Groups)
  datatype Exports = NoExport | ExportNode(dir: CStr, groups: Groups, next: Exports)

  datatype Auth = Auth(flavor: uint32, body: Blob)
  datatype Call = Call(
    xid: uint32, rpcvers: uint32, prog: uint32, vers: uint32, procedure: uint32, cred: Auth, verf: Auth)

  const CALL: uint32 := 0

  /** What decoding comes to: the bytes are refused; or the routine takes an integer for what it is not and
      goes on outside the bytes that belong to the item; or there is a value and a position behind it. */
  datatype Dec<+T> = Refused | Lost | Got(value: T, end: nat)

  /** `offsetof(struct zdr_mem, buf)` with pointers of eight bytes. */
  const ZDR_MEM_HEADER: nat := 12

  /** The largest buffer considered: positions and the blocks of its strings stay below 2^31. */
  const MAX_BUFFER: nat := 0x7fff_fff0

  /** The bounds test of the codec: the length is added to the position as a C `int`. */
  predicate PassesTest(pos: nat, n: uint32, size: nat)
  {
    pos + AsInt32(n) <= size
  }

  /** A length below 2^31 passes exactly when the bytes are there. A longer one always passes, and takes the
      position back to where it was, or before. */
  lemma LengthTest(pos: nat, n: uint32, size: nat)
    requires pos <= size
    ensures PassesTest(pos, n, size) <==> n >= 0x8000_0000 || pos + n <= size
    ensures n >= 0x8000_0000 && Whole(pos) ==> RoundUp4(pos + AsInt32(n)) <= pos
    ensures n >= 0x8000_0000 && Whole(pos) ==> (RoundUp4(pos + AsInt32(n)) < pos <==> n <= TWO_32 - 4)
  {
  }

  // ---------------------------------------------------------------- encodings

  function PadLen(n: nat): (k: nat)
    ensures k < 4 && (n + k) % 4 == 0
  {
    (4 - n % 4) % 4
  }

  function Zeros(n: nat): (z: seq<byte>)
    ensures |z| == n && forall i :: 0 <= i < n ==> z[i] == 0
  {
    seq(n, i => 0)
  }

  /** Section 4.10 of RFC 4506: length, bytes, zeros up to a multiple of four. */
  function EncOpaque(s: Blob): (e: seq<byte>)
    ensures |e| == 4 + |s| + PadLen(|s|)
  {
    Be32(|s|) + s + Zeros(PadLen(|s|))
  }

  function EncHyper(u: uint64): (e: seq<byte>)
    ensures |e| == 8
  {
    Be32(u / TWO_32) + Be32(u % TWO_32)
  }

  function EncGroups(g: Groups): (e: seq<byte>)
  {
    match g
    case NoGroup => Be32(0)
    case GroupNode(name, next) => Be32(1) + (EncOpaque(name) + EncGroups(next))
  }

  function EncExports(x: Exports): (e: seq<byte>)
  {
    match x
    case NoExport => Be32(0)
    case ExportNode(dir, groups, next) => Be32(1) + (EncOpaque(dir) + (EncGroups(groups) + EncExports(next)))
  }

  /** An element routine: what it encodes to, what it decodes, and the zeroed element it decodes into. */
  datatype Codec<!T> = Codec(enc: T -> seq<byte>, dec: (seq<byte>, nat) -> Dec<T>, zero: T)

  function EncElements<T>(k: Codec<T>, xs: seq<T>): (e: seq<byte>)
  {
    if xs == [] then [] else EncElements(k, xs[..|xs| - 1]) + k.enc(xs[|xs| - 1])
  }

  /** How often the element loop turns: its bound is the count converted to `int`. */
  function Turns(n: nat): (m: nat)
    ensures m <= n
  {
    if n < 0x8000_0000 then n else 0
  }

  /** The count, then as many elements as the loop gets to see. */
  function EncArray<T>(k: Codec<T>, xs: seq<T>): (e: seq<byte>)
    requires |xs| < TWO_32
  {
    Be32(|xs|) + EncElements(k, xs[..Turns(|xs|)])
  }

  function EncAuth(a: Auth): (e: seq<byte>)
  {
    Be32(a.flavor) + EncOpaque(a.body)
  }

  function EncCall(c: Call): (e: seq<byte>)
  {
    Be32(c.xid) + (Be32(CALL) + (Be32(c.rpcvers) + (Be32(c.prog) + (Be32(c.vers) + (Be32(c.procedure) +
    (EncAuth(c.cred) + EncAuth(c.verf)))))))
  }

  /** Everything encoded fills whole words. */
  predicate Whole(n: nat)
  {
    n % 4 == 0
  }

  lemma WholeSum(a: nat, b: nat)
    requires Whole(a) && Whole(b)
    ensures Whole(a + b)
  {
  }

  lemma WholeNext(a: nat)
    requires Whole(a)
    ensures Whole(a + 4)
  {
  }

  lemma WholeOpaque(s: Blob)
    ensures Whole(|EncOpaque(s)|)
  {
    hide EncOpaque, PadLen;
  }

  lemma {:induction false} WholeGroups(g: Groups)
    ensures Whole(|EncGroups(g)|)
  {
    hide EncOpaque, Be32;
    match g
    case NoGroup =>
    case GroupNode(name, next) =>
      WholeGroups(next);
      WholeOpaque(name);
      WholeSum(|EncOpaque(name)|, |EncGroups(next)|);
      assert |EncGroups(g)| == 4 + (|EncOpaque(name)| + |EncGroups(next)|);
  }

  lemma WholeAuth(a: Auth)
    ensures Whole(|EncAuth(a)|)
  {
    hide EncOpaque, Be32;
    WholeOpaque(a.body);
    assert |EncAuth(a)| == 4 + |EncOpaque(a.body)|;
  }

  // ---------------------------------------------------------------- decoders

  function DecWord(b: seq<byte>, at: nat): (r: Dec<uint32>)
    ensures if at + 4 <= |b| then r.Got? && r.end == at + 4 else r.Refused?
  {
    if at + 4 > |b| then Refused else Got(Word(b, at), at + 4)
  }

  function DecHyper(b: seq<byte>, at: nat): (r: Dec<uint64>)
    ensures if at + 8 <= |b| then r.Got? && r.end == at + 8 else r.Refused?
  {
    if at + 8 > |b| then Refused else Got(Word(b, at) * TWO_32 + Word(b, at + 4), at + 8)
  }

  function DecOpaque(b: seq<byte>, at: nat): (r: Dec<Blob>)
    ensures r.Got? ==> at + 4 <= r.end && r.end % 4 == 0 && at + 4 <= |b|
    ensures r.Lost? <==> at + 4 <= |b| && Word(b, at) >= 0x8000_0000
  {
    if at + 4 > |b| then Refused
    else
      var n := Word(b, at);
      if !PassesTest(at + 4, n, |b|) then Refused
      else if n >= 0x8000_0000 then Lost
      else Got(b[at + 4..at + 4 + n], RoundUp4(at + 4 + n))
  }

  /** The length word, then the padded bytes. */
  lemma OpaqueParts(s: Blob)
    ensures EncOpaque(s) == Be32(|s|) + (s + Zeros(PadLen(|s|)))
  {
    hide Be32, PadLen, Zeros;
    assert Be32(|s|) + s + Zeros(PadLen(|s|)) == Be32(|s|) + (s + Zeros(PadLen(|s|)));
  }

  /** Bytes up to the first zero: what a C reader sees. */
  function CBytes(s: seq<byte>): (c: seq<byte>)
    ensures |c| <= |s| && 0 !in c
  {
    if s == [] || s[0] == 0 then [] else [s[0]] + CBytes(s[1..])
  }

  function DecString(b: seq<byte>, at: nat): (r: Dec<CStr>)
    ensures r.Got? ==> at + 4 <= r.end && r.end % 4 == 0 && at + 4 <= |b|
    ensures r.Lost? <==> at + 4 <= |b| && Word(b, at) >= 0x8000_0000
  {
    match DecOpaque(b, at)
    case Refused => Refused
    case Lost => Lost
    case Got(s, end) => Got(CBytes(s), end)
  }

  function DecGroups(b: seq<byte>, at: nat): (r: Dec<Groups>)
    ensures r.Got? ==> at < r.end
    decreases |b| - at
  {
    if at + 4 > |b| then Refused
    else if Word(b, at) == 0 then Got(NoGroup, at + 4)
    else
      match DecString(b, at + 4)
      case Refused => Refused
      case Lost => Lost
      case Got(name, mid) =>
        match DecGroups(b, mid)
        case Refused => Refused
        case Lost => Lost
        case Got(next, end) => Got(GroupNode(name, next), end)
  }

  function DecExports(b: seq<byte>, at: nat): (r: Dec<Exports>)
    ensures r.Got? ==> at < r.end
    decreases |b| - at
  {
    if at + 4 > |b| then Refused
    else if Word(b, at) == 0 then Got(NoExport, at + 4)
    else
      match DecString(b, at + 4)
      case Refused => Refused
      case Lost => Lost
      case Got(dir, mid) =>
        match DecGroups(b, mid)
        case Refused => Refused
        case Lost => Lost
        case Got(groups, mid') =>
          match DecExports(b, mid')
          case Refused => Refused
          case Lost => Lost
          case Got(next, end) => Got(ExportNode(dir, groups, next), end)
  }

  /** `n` elements from `at`. */
  function DecElements<T>(k: Codec<T>, b: seq<byte>, at: nat, n: nat): (r: Dec<seq<T>>)
    ensures r.Got? ==> |r.value| == n
  {
    if n == 0 then Got([], at)
    else
      match DecElements(k, b, at, n - 1)
      case Refused => Refused
      case Lost => Lost
      case Got(xs, mid) =>
        match k.dec(b, mid)
        case Refused => Refused
        case Lost => Lost
        case Got(x, end) => Got(xs + [x], end)
  }

  function Repeat<T>(x: T, n: nat): (r: seq<T>)
    ensures |r| == n && forall i :: 0 <= i < n ==> r[i] == x
  {
    seq(n, i => x)
  }

  /** The `int` in which `zdr_malloc` forms the size of a block for `size` bytes is too small for it: the
      block is not there, or not large enough. */
  predicate BadBlock(size: nat)
  {
    size + ZDR_MEM_HEADER >= 0x8000_0000
  }

  /** Counts whose memory does not fit 32 bits are refused; the memory of the others is allocated first. */
  function DecArray<T>(k: Codec<T>, elsize: nat, b: seq<byte>, at: nat): (r: Dec<seq<T>>)
    requires elsize > 0
  {
    if at + 4 > |b| || Word(b, at) > (TWO_32 - 1) / elsize then Refused
    else if BadBlock(Word(b, at) * elsize) then Lost
    else DecElements(k, b, at + 4, Word(b, at))
  }

  function DecAuth(b: seq<byte>, at: nat): (r: Dec<Auth>)
    ensures r.Got? ==> at + 8 <= r.end && r.end % 4 == 0
  {
    if at + 4 > |b| then Refused
    else
      match DecOpaque(b, at + 4)
      case Refused => Refused
      case Lost => Lost
      case Got(body, end) => Got(Auth(Word(b, at), body), end)
  }

  /** A CALL; any other direction is not one. */
  function DecCall(b: seq<byte>, at: nat): (r: Dec<Call>)
  {
    if at + 24 > |b| || Word(b, at + 4) != CALL then Refused
    else
      match DecAuth(b, at + 24)
      case Refused => Refused
      case Lost => Lost
      case Got(cred, mid) =>
        match DecAuth(b, mid)
        case Refused => Refused
        case Lost => Lost
        case Got(verf, end) =>
          var c := Call(Word(b, at), Word(b, at + 8), Word(b, at + 12), Word(b, at + 16), Word(b, at + 20), cred, verf);
          Got(c, end)
  }

  // ---------------------------------------------------------------- round trips

  /** `e` lies in `b` at `at`. */
  ghost predicate Lies(b: seq<byte>, at: nat, e: seq<byte>)
  {
    at + |e| <= |b| && b[at..at + |e|] == e
  }

  lemma LiesParts(b: seq<byte>, at: nat, x: seq<byte>, y: seq<byte>)
    requires Lies(b, at, x + y)
    ensures Lies(b, at, x) && Lies(b, at + |x|, y)
  {
    assert b[at..at + |x|] == (x + y)[..|x|];
    assert b[at + |x|..at + |x| + |y|] == (x + y)[|x|..];
  }

  lemma WordLies(b: seq<byte>, at: nat, x: uint32)
    requires Lies(b, at, Be32(x))
    ensures at + 4 <= |b| && Word(b, at) == x
  {
    WordOfBe32(b[..at], x, b[at + 4..]);
    assert b == b[..at] + Be32(x) + b[at + 4..];
  }

  lemma {:induction false} CBytesWhole(s: seq<byte>)
    requires 0 !in s
    ensures CBytes(s) == s
  {
    if s != [] {
      CBytesWhole(s[1..]);
    }
  }

  /** A terminator right behind the bytes: reading in place sees what a terminated copy holds. */
  lemma {:induction false} InPlaceIsCopy(s: seq<byte>, more: seq<byte>)
    ensures CBytes(s + [0] + more) == CBytes(s) == CBytes(s + [0])
  {
    if s != [] && s[0] != 0 {
      InPlaceIsCopy(s[1..], more);
      assert (s + [0] + more)[1..] == s[1..] + [0] + more;
      assert (s + [0])[1..] == s[1..] + [0];
    }
  }

  lemma HyperRoundTrip(b: seq<byte>, at: nat, u: uint64)
    requires Lies(b, at, EncHyper(u))
    ensures DecHyper(b, at) == Got(u, at + 8)
  {
    LiesParts(b, at, Be32(u / TWO_32), Be32(u % TWO_32));
    WordLies(b, at, u / TWO_32);
    WordLies(b, at + 4, u % TWO_32);
  }

  /** Padding counted from the start of the item is alignment of the position. */
  lemma Padded(pos: nat, n: nat)
    requires Whole(pos)
    ensures RoundUp4(pos + n) == pos + n + PadLen(n)
  {
  }

  lemma OpaqueRoundTrip(b: seq<byte>, at: nat, s: Blob)
    requires Whole(at) && Lies(b, at, EncOpaque(s))
    ensures DecOpaque(b, at) == Got(s, at + |EncOpaque(s)|)
  {
    hide Be32, Word;
    LiesParts(b, at, Be32(|s|) + s, Zeros(PadLen(|s|)));
    LiesParts(b, at, Be32(|s|), s);
    WordLies(b, at, |s|);
    Padded(at + 4, |s|);
  }

  lemma StringRoundTrip(b: seq<byte>, at: nat, s: CStr)
    requires Whole(at) && Lies(b, at, EncOpaque(s))
    ensures DecString(b, at) == Got(s, at + |EncOpaque(s)|)
  {
    hide EncOpaque;
    OpaqueRoundTrip(b, at, s);
    CBytesWhole(s);
  }

  lemma {:induction false} GroupsRoundTrip(b: seq<byte>, at: nat, g: Groups)
    requires Whole(at) && Lies(b, at, EncGroups(g))
    ensures DecGroups(b, at) == Got(g, at + |EncGroups(g)|)
    decreases g
  {
    hide EncOpaque, DecString, Word, Be32, Lies, Whole;
    match g
    case NoGroup => WordLies(b, at, 0);
    case GroupNode(name, next) =>
      LiesParts(b, at, Be32(1), EncOpaque(name) + EncGroups(next));
      WordLies(b, at, 1);
      LiesParts(b, at + 4, EncOpaque(name), EncGroups(next));
      WholeNext(at);
      StringRoundTrip(b, at + 4, name);
      WholeOpaque(name);
      WholeSum(at + 4, |EncOpaque(name)|);
      GroupsRoundTrip(b, at + 4 + |EncOpaque(name)|, next);
  }

  /** Every export list with its nested groups comes back, with the position behind it. */
  lemma {:induction false} ExportsRoundTrip(b: seq<byte>, at: nat, x: Exports)
    requires Whole(at) && Lies(b, at, EncExports(x))
    ensures DecExports(b, at) == Got(x, at + |EncExports(x)|)
    decreases x
  {
    hide EncOpaque, DecString, EncGroups, DecGroups, Word, Be32, Lies, Whole;
    match x
    case NoExport => WordLies(b, at, 0);
    case ExportNode(dir, groups, next) =>
      var d, g := EncOpaque(dir), EncGroups(groups);
      LiesParts(b, at, Be32(1), d + (g + EncExports(next)));
      WordLies(b, at, 1);
      LiesParts(b, at + 4, d, g + EncExports(next));
      WholeNext(at);
      StringRoundTrip(b, at + 4, dir);
      WholeOpaque(dir);
      WholeSum(at + 4, |d|);
      LiesParts(b, at + 4 + |d|, g, EncExports(next));
      GroupsRoundTrip(b, at + 4 + |d|, groups);
      WholeGroups(groups);
      WholeSum(at + 4 + |d|, |g|);
      ExportsRoundTrip(b, at + 4 + |d| + |g|, next);
  }

  /** What the codec of an element must guarantee in an aligned buffer. */
  ghost predicate Lawful<T(!new)>(k: Codec<T>)
  {
    && (forall x: T :: Whole(|k.enc(x)|))
    && (forall b: seq<byte>, at: nat :: Whole(|b|) && Whole(at) && at <= |b| && k.dec(b, at).Got? ==>
          at <= k.dec(b, at).end <= |b| && Whole(k.dec(b, at).end))
  }

  ghost predicate RoundTrips<T(!new)>(k: Codec<T>)
  {
    forall b: seq<byte>, at: nat, x: T :: Whole(at) && Lies(b, at, k.enc(x)) ==>
      k.dec(b, at) == Got(x, at + |k.enc(x)|)
  }

  const WORD_CODEC: Codec<uint32> := Codec((x: uint32) => Be32(x), (b: seq<byte>, at: nat) => DecWord(b, at), 0)

  /** The element routine of arrays of words is such a codec. */
  lemma WordCodecLawful()
    ensures Lawful(WORD_CODEC) && RoundTrips(WORD_CODEC)
  {
    hide Be32, Word, Lies;
    forall b: seq<byte>, at: nat, x: uint32 | Lies(b, at, WORD_CODEC.enc(x))
      ensures WORD_CODEC.dec(b, at) == Got(x, at + |WORD_CODEC.enc(x)|)
    {
      WordLies(b, at, x);
    }
  }

  lemma {:induction false} WholeElements<T(!new)>(k: Codec<T>, xs: seq<T>)
    requires Lawful(k)
    ensures Whole(|EncElements(k, xs)|)
  {
    if xs != [] {
      WholeElements(k, xs[..|xs| - 1]);
      WholeSum(|EncElements(k, xs[..|xs| - 1])|, |k.enc(xs[|xs| - 1])|);
    }
  }

  lemma {:induction false} ElementsRoundTrip<T(!new)>(k: Codec<T>, b: seq<byte>, at: nat, xs: seq<T>)
    requires Lawful(k) && RoundTrips(k) && Whole(at) && Lies(b, at, EncElements(k, xs))
    ensures DecElements(k, b, at, |xs|) == Got(xs, at + |EncElements(k, xs)|)
    decreases |xs|
  {
    hide Lies, Whole;
    if xs != [] {
      var ys, x := xs[..|xs| - 1], xs[|xs| - 1];
      var e := EncElements(k, ys);
      LiesParts(b, at, e, k.enc(x));
      ElementsRoundTrip(k, b, at, ys);
      WholeElements(k, ys);
      WholeSum(at, |e|);
      assert xs == ys + [x];
    }
  }

  /** Arrays of any element come back if and only if the decoder's allocation does not overflow an `int`. */
  lemma ArrayRoundTrip<T(!new)>(k: Codec<T>, elsize: nat, b: seq<byte>, at: nat, xs: seq<T>)
    requires Lawful(k) && RoundTrips(k) && elsize > 0 && |xs| <= (TWO_32 - 1) / elsize
    requires Whole(at) && |xs| < TWO_32 && Lies(b, at, EncArray(k, xs))
    ensures DecArray(k, elsize, b, at) == Got(xs, at + |EncArray(k, xs)|)
       <==> |xs| * elsize + ZDR_MEM_HEADER < 0x8000_0000
    ensures DecArray(k, elsize, b, at).Lost? <==> |xs| * elsize + ZDR_MEM_HEADER >= 0x8000_0000
  {
    hide Lies, Whole, Be32, Word;
    var seen := xs[..Turns(|xs|)];
    LiesParts(b, at, Be32(|xs|), EncElements(k, seen));
    WordLies(b, at, |xs|);
    if !BadBlock(|xs| * elsize) {
      FewerThanBytes(|xs|, elsize);
      assert seen == xs;
      WholeNext(at);
      ElementsRoundTrip(k, b, at + 4, seen);
    }
  }

  lemma FewerThanBytes(n: nat, elsize: nat)
    requires elsize > 0
    ensures n <= n * elsize
  {
  }

  /** 2^30 elements of two bytes: the count is accepted, the allocation is not sound. */
  lemma ArrayTooLarge<T>(k: Codec<T>, b: seq<byte>, at: nat)
    requires at + 4 <= |b| && Word(b, at) == 0x4000_0000
    ensures DecArray(k, 2, b, at).Lost?
  {
  }

  lemma AuthRoundTrip(b: seq<byte>, at: nat, a: Auth)
    requires Whole(at) && Lies(b, at, EncAuth(a))
    ensures DecAuth(b, at) == Got(a, at + |EncAuth(a)|)
  {
    hide EncOpaque, DecOpaque;
    LiesParts(b, at, Be32(a.flavor), EncOpaque(a.body));
    WordLies(b, at, a.flavor);
    OpaqueRoundTrip(b, at + 4, a.body);
  }

  /** Takes a leading word off a longer encoding. */
  lemma WordThen(b: seq<byte>, at: nat, x: uint32, more: seq<byte>)
    requires Lies(b, at, Be32(x) + more)
    ensures at + 4 <= |b| && Word(b, at) == x && Lies(b, at + 4, more)
  {
    LiesParts(b, at, Be32(x), more);
    WordLies(b, at, x);
  }

  /** Every CALL header comes back, with the position behind it. */
  lemma CallRoundTrip(b: seq<byte>, at: nat, c: Call)
    requires Whole(at) && Lies(b, at, EncCall(c))
    ensures DecCall(b, at) == Got(c, at + |EncCall(c)|)
  {
    hide EncAuth, DecAuth, Be32, Word, Lies;
    var tail := EncAuth(c.cred) + EncAuth(c.verf);
    var t5 := Be32(c.procedure) + tail;
    var t4 := Be32(c.vers) + t5;
    var t3 := Be32(c.prog) + t4;
    var t2 := Be32(c.rpcvers) + t3;
    var t1 := Be32(CALL) + t2;
    WordThen(b, at, c.xid, t1);
    WordThen(b, at + 4, CALL, t2);
    WordThen(b, at + 8, c.rpcvers, t3);
    WordThen(b, at + 12, c.prog, t4);
    WordThen(b, at + 16, c.vers, t5);
    WordThen(b, at + 20, c.procedure, tail);
    LiesParts(b, at + 24, EncAuth(c.cred), EncAuth(c.verf));
    AuthRoundTrip(b, at + 24, c.cred);
    WholeAuth(c.cred);
    AuthRoundTrip(b, at + 24 + |EncAuth(c.cred)|, c.verf);
  }
}
