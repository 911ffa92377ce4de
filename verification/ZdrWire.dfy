/** The encodings, byte by byte: what a peer that knows only the standards finds on the wire. */
module ZdrWire {
  import opened Bytes
  import opened ZdrFormat

  /** Section 4.1 of RFC 4506: the most significant byte comes first. */
  lemma WordOrder()
    ensures Be32(0x0102_0304) == [1, 2, 3, 4] && Word([1, 2, 3, 4], 0) == 0x0102_0304
    ensures Be32(0) == [0, 0, 0, 0] && Be32(1) == [0, 0, 0, 1]
  {
    assert Word([1, 2, 3, 4], 0) == 1 * 0x100_0000 + 2 * 0x1_0000 + 3 * 0x100 + 4;
  }

  /** Section 4.5: eight bytes, again the most significant first. */
  lemma HyperOrder(u: uint64)
    ensures EncHyper(u) == [u / 0x100_0000_0000_0000, u / 0x1_0000_0000_0000 % 0x100,
                            u / 0x100_0000_0000 % 0x100, u / 0x1_0000_0000 % 0x100,
                            u / 0x100_0000 % 0x100, u / 0x1_0000 % 0x100, u / 0x100 % 0x100, u % 0x100]
  {
    hide Be32;
    HighDigits(u);
    LowDigits(u);
  }

  lemma HighDigits(u: uint64)
    ensures Be32(u / TWO_32) == [u / 0x100_0000_0000_0000, u / 0x1_0000_0000_0000 % 0x100,
                                 u / 0x100_0000_0000 % 0x100, u / 0x1_0000_0000 % 0x100]
  {
    var h := u / TWO_32;
    assert h / 0x100_0000 == u / 0x100_0000_0000_0000;
    assert h / 0x1_0000 == u / 0x1_0000_0000_0000;
    assert h / 0x100 == u / 0x100_0000_0000;
  }

  lemma LowDigits(u: uint64)
    ensures Be32(u % TWO_32) == [u / 0x100_0000 % 0x100, u / 0x1_0000 % 0x100, u / 0x100 % 0x100, u % 0x100]
  {
    hide Be32;
    var h, l := u / 0x1_0000_0000, u % 0x1_0000_0000;
    Digits(l);
    assert u == h * 0x1_0000_0000 + l;
    Low24(h, l);
    Low16(h, l);
    Low8(h, l);
    Low0(h, l);
  }

  lemma Digits(l: uint32)
    ensures Be32(l) == [l / 0x100_0000 % 0x100, l / 0x1_0000 % 0x100, l / 0x100 % 0x100, l % 0x100]
  {
  }

  /** Adding multiples of 256 does not change the last digit. */
  lemma LastDigit(k: nat, a: nat)
    ensures (k * 0x100 + a) % 0x100 == a % 0x100
  {
    assert k * 0x100 + a == (k + a / 0x100) * 0x100 + a % 0x100;
  }

  lemma Low24(h: nat, l: nat)
    ensures (h * 0x1_0000_0000 + l) / 0x100_0000 % 0x100 == l / 0x100_0000 % 0x100
  {
    var a, r := l / 0x100_0000, l % 0x100_0000;
    assert h * 0x1_0000_0000 + l == (h * 0x100 + a) * 0x100_0000 + r;
    LastDigit(h, a);
  }

  lemma Low16(h: nat, l: nat)
    ensures (h * 0x1_0000_0000 + l) / 0x1_0000 % 0x100 == l / 0x1_0000 % 0x100
  {
    var a, r := l / 0x1_0000, l % 0x1_0000;
    Quotient(h * 0x1_0000_0000 + l, h * 0x1_0000 + a, r);
    LastDigit(h * 0x100, a);
  }

  lemma Quotient(x: nat, q: nat, r: nat)
    requires x == q * 0x1_0000 + r && r < 0x1_0000
    ensures x / 0x1_0000 == q
  {
  }

  lemma Low8(h: nat, l: nat)
    ensures (h * 0x1_0000_0000 + l) / 0x100 % 0x100 == l / 0x100 % 0x100
  {
    var a, r := l / 0x100, l % 0x100;
    assert h * 0x1_0000_0000 + l == (h * 0x100_0000 + a) * 0x100 + r;
    LastDigit(h * 0x1_0000, a);
  }

  lemma Low0(h: nat, l: nat)
    ensures (h * 0x1_0000_0000 + l) % 0x100 == l % 0x100
  {
    LastDigit(h * 0x100_0000, l);
  }

  /** Section 4.10: the length, the bytes, and fewer than four zeros that fill up the last word. */
  lemma OpaqueLayout(s: Blob)
    ensures var e := EncOpaque(s);
            && Word(e, 0) == |s| && e[4..4 + |s|] == s && |e| % 4 == 0 && |e| < |s| + 8
            && forall i :: 4 + |s| <= i < |e| ==> e[i] == 0
  {
    hide Be32, Word;
    WordOfBe32([], |s|, s + Zeros(PadLen(|s|)));
    assert EncOpaque(s) == [] + Be32(|s|) + (s + Zeros(PadLen(|s|)));
  }

  /** A list of names: each is announced by the word 1, the end by the word 0. */
  function NamesBytes(names: seq<CStr>): (b: seq<byte>)
  {
    if names == [] then [0, 0, 0, 0] else [0, 0, 0, 1] + EncOpaque(names[0]) + NamesBytes(names[1..])
  }

  function GroupsOf(names: seq<CStr>): (g: Groups)
  {
    if names == [] then NoGroup else GroupNode(names[0], GroupsOf(names[1..]))
  }

  lemma {:induction false} GroupsOnTheWire(names: seq<CStr>)
    ensures EncGroups(GroupsOf(names)) == NamesBytes(names)
  {
    hide EncOpaque;
    WordOrder();
    if names != [] {
      GroupsOnTheWire(names[1..]);
      var n, rest := EncOpaque(names[0]), NamesBytes(names[1..]);
      assert [0, 0, 0, 1] + n + rest == [0, 0, 0, 1] + (n + rest);
    }
  }

  /** An export list of section 5.2.5 of RFC 1813: directory, groups, and the next node. */
  function ExportsBytes(xs: seq<(CStr, seq<CStr>)>): (b: seq<byte>)
  {
    if xs == [] then [0, 0, 0, 0]
    else [0, 0, 0, 1] + EncOpaque(xs[0].0) + NamesBytes(xs[0].1) + ExportsBytes(xs[1..])
  }

  function ExportsOf(xs: seq<(CStr, seq<CStr>)>): (x: Exports)
  {
    if xs == [] then NoExport else ExportNode(xs[0].0, GroupsOf(xs[0].1), ExportsOf(xs[1..]))
  }

  lemma {:induction false} ExportsOnTheWire(xs: seq<(CStr, seq<CStr>)>)
    ensures EncExports(ExportsOf(xs)) == ExportsBytes(xs)
  {
    hide EncOpaque, EncGroups, NamesBytes;
    WordOrder();
    if xs != [] {
      ExportsOnTheWire(xs[1..]);
      GroupsOnTheWire(xs[0].1);
      var d, g, rest := EncOpaque(xs[0].0), NamesBytes(xs[0].1), ExportsBytes(xs[1..]);
      assert [0, 0, 0, 1] + d + g + rest == [0, 0, 0, 1] + (d + (g + rest));
    }
  }

  /** Section 9 of RFC 5531: xid, CALL, RPC version, program, version, procedure, credential, verifier. */
  lemma CallOnTheWire(c: Call)
    ensures var b := EncCall(c);
            && Word(b, 0) == c.xid && Word(b, 4) == 0 && Word(b, 8) == c.rpcvers && Word(b, 12) == c.prog
            && Word(b, 16) == c.vers && Word(b, 20) == c.procedure && Word(b, 24) == c.cred.flavor
            && Lies(b, 28, EncOpaque(c.cred.body))
            && Word(b, 28 + |EncOpaque(c.cred.body)|) == c.verf.flavor
            && Lies(b, 32 + |EncOpaque(c.cred.body)|, EncOpaque(c.verf.body))
            && |b| == 32 + |EncOpaque(c.cred.body)| + |EncOpaque(c.verf.body)|
  {
    hide EncOpaque, EncAuth, Be32, Word, Lies;
    var b := EncCall(c);
    var tail := EncAuth(c.cred) + EncAuth(c.verf);
    var t5 := Be32(c.procedure) + tail;
    var t4 := Be32(c.vers) + t5;
    var t3 := Be32(c.prog) + t4;
    var t2 := Be32(c.rpcvers) + t3;
    assert Lies(b, 0, b) by { WholeLies(b); }
    WordThen(b, 0, c.xid, Be32(CALL) + t2);
    WordThen(b, 4, CALL, t2);
    WordThen(b, 8, c.rpcvers, t3);
    WordThen(b, 12, c.prog, t4);
    WordThen(b, 16, c.vers, t5);
    WordThen(b, 20, c.procedure, tail);
    LiesParts(b, 24, EncAuth(c.cred), EncAuth(c.verf));
    AuthParts(b, 24, c.cred);
    AuthParts(b, 24 + |EncAuth(c.cred)|, c.verf);
  }

  lemma WholeLies(b: seq<byte>)
    ensures Lies(b, 0, b)
  {
    assert b[0..|b|] == b;
  }

  lemma AuthParts(b: seq<byte>, at: nat, a: Auth)
    requires Lies(b, at, EncAuth(a))
    ensures Word(b, at) == a.flavor && Lies(b, at + 4, EncOpaque(a.body)) && |EncAuth(a)| == 4 + |EncOpaque(a.body)|
  {
    hide EncOpaque, Be32, Word, Lies;
    WordThen(b, at, a.flavor, EncOpaque(a.body));
  }

  /** An array: the count, then the elements one after the other. */
  lemma {:induction false} ElementsOnTheWire<T>(k: Codec<T>, xs: seq<T>, ys: seq<T>)
    ensures EncElements(k, xs + ys) == EncElements(k, xs) + EncElements(k, ys)
    ensures forall x :: EncElements(k, [x]) == k.enc(x)
    decreases |ys|
  {
    if ys == [] {
      assert xs + ys == xs;
    } else {
      var init, y := ys[..|ys| - 1], ys[|ys| - 1];
      assert (xs + ys)[..|xs + ys| - 1] == xs + init;
      ElementsOnTheWire(k, xs, init);
      assert EncElements(k, xs + ys) == EncElements(k, xs + init) + k.enc(y);
    }
    forall x ensures EncElements(k, [x]) == k.enc(x) {
      assert [x][..0] == [] && EncElements(k, []) == [];
    }
  }

  lemma ArrayOnTheWire<T>(k: Codec<T>, xs: seq<T>)
    requires |xs| < 0x8000_0000
    ensures EncArray(k, xs) == Be32(|xs|) + EncElements(k, xs)
  {
    assert xs[..|xs|] == xs;
  }
}
