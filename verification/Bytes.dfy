/** Octets, 32-bit words in network order, and total slicing helpers. */
module Bytes {

  type byte = x: int | 0 <= x < 256

  /** The largest READ or WRITE that is issued or answered. */
  const NFS_MAX_XFER_SIZE: nat := 4 * 1024 * 1024

  const TWO_32: int := 0x1_0000_0000

  type uint32 = x: int | 0 <= x < TWO_32

  datatype Option<+T> = None | Some(value: T)

  function Min(a: int, b: int): (m: int)
  {
    if a <= b then a else b
  }

  /** The value a C `uint32_t` holds after an arithmetic result `x` is stored in it. */
  function Wrap32(x: int): (r: uint32)
  {
    x % TWO_32
  }

  /** The value a C `int` holds after a 64-bit unsigned value is stored in it. */
  function AsInt32(x: nat): (r: int)
    ensures r <= x
  {
    var low := x % TWO_32;
    if low < 0x8000_0000 then low else low - TWO_32
  }

  /** The next multiple of four, where a padded item ends. */
  function RoundUp4(n: int): (r: int)
    ensures n <= r < n + 4 && r % 4 == 0
  {
    (n + 3) / 4 * 4
  }

  function Take<T>(s: seq<T>, n: nat): (r: seq<T>)
    ensures |r| == Min(n, |s|)
  {
    if n <= |s| then s[..n] else s
  }

  function Drop<T>(s: seq<T>, n: nat): (r: seq<T>)
    ensures |r| == |s| - Min(n, |s|)
  {
    if n <= |s| then s[n..] else []
  }

  /** `htonl` followed by a store of the four bytes. */
  function Be32(x: uint32): (b: seq<byte>)
    ensures |b| == 4
  {
    [x / 0x100_0000, x / 0x1_0000 % 0x100, x / 0x100 % 0x100, x % 0x100]
  }

  /** `ntohl` of the word stored at offset `at`; bytes past the end read as zero. */
  function Word(b: seq<byte>, at: nat): (x: uint32)
  {
    if at + 4 <= |b|
    then (b[at] as int) * 0x100_0000 + (b[at + 1] as int) * 0x1_0000 + (b[at + 2] as int) * 0x100 + b[at + 3]
    else 0
  }

  /** Storing a word in network order and loading it again gives the word back. */
  lemma WordOfBe32(pre: seq<byte>, x: uint32, post: seq<byte>)
    ensures Word(pre + Be32(x) + post, |pre|) == x
  {
    var all := pre + Be32(x) + post;
    assert all[|pre|] == x / 0x100_0000;
    assert all[|pre| + 1] == x / 0x1_0000 % 0x100;
    assert all[|pre| + 2] == x / 0x100 % 0x100;
    assert all[|pre| + 3] == x % 0x100;
    assert x / 0x100 / 0x100 == x / 0x1_0000;
    assert x / 0x1_0000 / 0x100 == x / 0x100_0000;
  }

  function Concat<T>(ss: seq<seq<T>>): (r: seq<T>)
  {
    if ss == [] then [] else ss[0] + Concat(ss[1..])
  }

  lemma {:induction false} ConcatAppend<T>(a: seq<seq<T>>, b: seq<seq<T>>)
    ensures Concat(a + b) == Concat(a) + Concat(b)
  {
    if a == [] {
      assert a + b == b;
    } else {
      assert (a + b)[1..] == a[1..] + b;
      ConcatAppend(a[1..], b);
    }
  }

  lemma ConcatSnoc<T>(a: seq<seq<T>>, x: seq<T>)
    ensures Concat(a + [x]) == Concat(a) + x
  {
    ConcatAppend(a, [x]);
    assert Concat([x]) == x + Concat([]);
  }

  ghost predicate NoDuplicates<T(!new)>(s: seq<T>)
  {
    forall i, j :: 0 <= i < j < |s| ==> s[i] != s[j]
  }
}
