/** The scatter cursor of a zero-copy READ (`struct rpc_iovec_cursor`).

    User memory is one array of bytes and an iovec is a range of it. The meaning of a
    cursor is the flat sequence of addresses that remain to be filled: every operation of
    the cursor is a slice of that sequence, however the buffers are cut into iovecs. */
module Iovec {
  import opened Bytes

  datatype Iovec = Iovec(base: nat, len: nat)

  function Range(base: nat, len: nat): (r: seq<nat>)
    ensures |r| == len
  {
    seq(len, i requires 0 <= i < len => base + i)
  }

  /** The addresses covered by a vector of buffers, in the order `readv` fills them. */
  function Addresses(v: seq<Iovec>): (r: seq<nat>)
  {
    if v == [] then [] else Range(v[0].base, v[0].len) + Addresses(v[1..])
  }

  /** Stores `data[i]` at address `at[i]`; addresses outside memory are ignored. */
  function Scatter(mem: seq<byte>, at: seq<nat>, data: seq<byte>): (r: seq<byte>)
    ensures |r| == |mem|
    decreases |data|
  {
    if at == [] || data == [] then mem
    else Scatter(if at[0] < |mem| then mem[at[0] := data[0]] else mem, at[1..], data[1..])
  }

  /** The bytes memory holds at the given addresses. */
  function Gather(mem: seq<byte>, at: seq<nat>): (r: seq<byte>)
    ensures |r| == |at|
  {
    seq(|at|, i requires 0 <= i < |at| => if at[i] < |mem| then mem[at[i]] else 0)
  }

  ghost predicate InMemory(mem: seq<byte>, at: seq<nat>)
  {
    forall i :: 0 <= i < |at| ==> at[i] < |mem|
  }

  /** Two stores in a row are one store of the concatenation. */
  lemma {:induction false} ScatterAppend(mem: seq<byte>, a: seq<nat>, b: seq<nat>, x: seq<byte>, y: seq<byte>)
    requires |a| == |x|
    ensures Scatter(Scatter(mem, a, x), b, y) == Scatter(mem, a + b, x + y)
    decreases |x|
  {
    if a == [] {
      assert a + b == b && x + y == y;
    } else {
      assert (a + b)[1..] == a[1..] + b && (x + y)[1..] == x[1..] + y;
      ScatterAppend(if a[0] < |mem| then mem[a[0] := x[0]] else mem, a[1..], b, x[1..], y);
    }
  }

  lemma ScatterSlices(mem: seq<byte>, at: seq<nat>, src: seq<byte>, done: nat, n: nat)
    requires done + n <= |src| <= |at|
    ensures Scatter(Scatter(mem, at[..done], src[..done]), at[done..][..n], src[done..done + n])
         == Scatter(mem, at[..done + n], src[..done + n])
  {
    ScatterAppend(mem, at[..done], at[done..][..n], src[..done], src[done..done + n]);
    assert src[..done] + src[done..done + n] == src[..done + n];
    assert at[..done] + at[done..][..n] == at[..done + n];
  }

  /** An address that is not stored to keeps its byte. */
  lemma {:induction false} ScatterFrame(mem: seq<byte>, at: seq<nat>, data: seq<byte>, k: nat)
    requires k < |mem| && k !in at
    ensures Scatter(mem, at, data)[k] == mem[k]
    decreases |data|
  {
    if at != [] && data != [] {
      ScatterFrame(if at[0] < |mem| then mem[at[0] := data[0]] else mem, at[1..], data[1..], k);
    }
  }

  /** With pairwise distinct addresses, what was stored is what is read back. */
  lemma {:induction false} GatherScatter(mem: seq<byte>, at: seq<nat>, data: seq<byte>)
    requires |at| == |data| && NoDuplicates(at) && InMemory(mem, at)
    ensures Gather(Scatter(mem, at, data), at) == data
    decreases |data|
  {
    if at != [] {
      var mem' := mem[at[0] := data[0]];
      GatherScatter(mem', at[1..], data[1..]);
      ScatterFrame(mem', at[1..], data[1..], at[0]);
      var r := Scatter(mem, at, data);
      forall i | 0 <= i < |at| ensures Gather(r, at)[i] == data[i] {
        if i > 0 {
          assert Gather(r, at[1..])[i - 1] == data[1..][i - 1];
          assert at[1..][i - 1] == at[i];
        }
      }
    }
  }

  lemma GatherAppend(mem: seq<byte>, a: seq<nat>, b: seq<nat>)
    ensures Gather(mem, a + b) == Gather(mem, a) + Gather(mem, b)
  {
  }

  /** Storing elsewhere does not change what is read. */
  lemma GatherFrame(mem: seq<byte>, at: seq<nat>, data: seq<byte>, a: seq<nat>)
    requires forall i :: 0 <= i < |a| ==> a[i] !in at
    ensures Gather(Scatter(mem, at, data), a) == Gather(mem, a)
  {
    hide Scatter;
    forall i | 0 <= i < |a| ensures Gather(Scatter(mem, at, data), a)[i] == Gather(mem, a)[i] {
      if a[i] < |mem| {
        ScatterFrame(mem, at, data, a[i]);
      }
    }
  }

  lemma {:induction false} AddressesAppend(a: seq<Iovec>, b: seq<Iovec>)
    ensures Addresses(a + b) == Addresses(a) + Addresses(b)
  {
    if a == [] {
      assert a + b == b;
    } else {
      assert (a + b)[1..] == a[1..] + b;
      AddressesAppend(a[1..], b);
    }
  }

  lemma AddressesNone()
    ensures Addresses([]) == []
  {
  }

  lemma RangeSplit(base: nat, len: nat, k: nat)
    requires k <= len
    ensures Range(base, len) == Range(base, k) + Range(base + k, len - k)
  {
  }

  /** Splits the first iovec off a vector. */
  lemma AddressesHead(v: seq<Iovec>)
    requires v != []
    ensures Addresses(v) == Range(v[0].base, v[0].len) + Addresses(v[1..])
  {
  }

  /** Where a vector is cut: either all of `v[i]` fits below `newLen` or its first part ends there. */
  lemma ShrinkStep(v: seq<Iovec>, i: nat, newLen: nat)
    requires i < |v| && |Addresses(v[..i])| <= newLen
    ensures var done := |Addresses(v[..i])|;
            && |Addresses(v[..i + 1])| == done + v[i].len
            && v[..i + 1] == v[..i] + [v[i]]
            && (v[i].len >= newLen - done ==>
                  |Addresses(v)| >= newLen
                  && Addresses(v[..i] + [v[i].(len := newLen - done)]) == Addresses(v)[..newLen])
  {
    var done := |Addresses(v[..i])|;
    assert v == v[..i] + v[i..] && v[..i + 1] == v[..i] + [v[i]];
    AddressesAppend(v[..i], v[i..]);
    AddressesAppend(v[..i], [v[i]]);
    AddressesHead(v[i..]);
    if v[i].len >= newLen - done {
      RangeSplit(v[i].base, v[i].len, newLen - done);
      var cut := v[i].(len := newLen - done);
      AddressesAppend(v[..i], [cut]);
      assert Addresses([cut]) == Range(cut.base, cut.len) + Addresses([]);
    }
  }

  /** Storing `data` over a range of addresses overwrites that slice of memory. */
  lemma {:induction false} ScatterRange(mem: seq<byte>, base: nat, data: seq<byte>)
    requires base + |data| <= |mem|
    ensures Scatter(mem, Range(base, |data|), data) == mem[..base] + data + mem[base + |data|..]
    decreases |data|
  {
    var at := Range(base, |data|);
    if data == [] {
      assert mem == mem[..base] + [] + mem[base..];
    } else {
      var mem' := mem[base := data[0]];
      assert at[1..] == Range(base + 1, |data| - 1);
      ScatterRange(mem', base + 1, data[1..]);
      assert mem'[..base + 1] + data[1..] + mem'[base + |data|..] == mem[..base] + data + mem[base + |data|..];
    }
  }

  class IovecCursor {
    /** First half: the working iovecs. Second half: the reference copy. */
    const slots: array<Iovec>
    const iovcntRef: nat
    var iov: nat
    var iovcnt: nat
    var remainingSize: nat

    ghost predicate Valid()
      reads this, slots
    {
      && slots.Length == 2 * iovcntRef
      && iov + iovcnt <= iovcntRef
      && remainingSize == |Remaining()|
    }

    /** The addresses still to be filled. */
    ghost function Remaining(): (r: seq<nat>)
      requires slots.Length == 2 * iovcntRef && iov + iovcnt <= iovcntRef
      reads this, slots
    {
      Addresses(slots[iov..iov + iovcnt])
    }

    /** The addresses the caller supplied. */
    ghost function Reference(): (r: seq<nat>)
      requires slots.Length == 2 * iovcntRef
      reads slots
    {
      Addresses(slots[iovcntRef..])
    }

    ghost predicate NonEmptyBuffers()
      requires slots.Length == 2 * iovcntRef && iov + iovcnt <= iovcntRef
      reads this, slots
    {
      forall i :: iov <= i < iov + iovcnt ==> slots[i].len > 0
    }

    /** The assertion at the end of every cursor operation in the C code. It holds exactly
        when no buffer is left or some byte is left, so it can only fail on empty buffers. */
    lemma CountAgreesWithSize()
      requires Valid()
      ensures NonEmptyBuffers() ==> ((iovcnt == 0) <==> (remainingSize == 0))
      ensures ((iovcnt == 0) <==> (remainingSize == 0))
          <==> (iovcnt == 0 || Remaining() != [])
    {
      if iovcnt > 0 {
        AddressesHead(slots[iov..iov + iovcnt]);
      }
    }

    constructor (buffers: seq<Iovec>)
      ensures Valid() && fresh(slots)
      ensures Remaining() == Reference() == Addresses(buffers)
    {
      var n := |buffers|;
      var s := new Iovec[2 * n](_ => Iovec(0, 0));
      var size := 0;
      for i := 0 to n
        invariant size == |Addresses(buffers[..i])|
        invariant forall k :: 0 <= k < i ==> s[k] == buffers[k]
        invariant forall k :: n <= k < n + i ==> s[k] == buffers[k - n]
      {
        assert buffers[..i + 1] == buffers[..i] + [buffers[i]];
        AddressesAppend(buffers[..i], [buffers[i]]);
        s[i], s[n + i] := buffers[i], buffers[i];
        size := size + buffers[i].len;
      }
      assert buffers[..n] == buffers && s[0..n] == buffers && s[n..] == buffers;
      slots, iovcntRef, iov, iovcnt, remainingSize := s, n, 0, n, size;
    }

    /** Skips `len` bytes that `readv` already stored. */
    method Advance(len: nat)
      requires Valid() && len <= remainingSize
      modifies this, slots
      ensures Valid() && Reference() == old(Reference())
      ensures Remaining() == old(Remaining())[len..]
    {
      var left := len;
      assert old(Remaining())[0..] == old(Remaining());
      while left > 0
        invariant 0 <= left <= len && Valid() && left <= remainingSize
        invariant Remaining() == old(Remaining())[len - left..]
        invariant slots[iovcntRef..] == old(slots[iovcntRef..])
        decreases left, iovcnt
      {
        left := Step(left);
      }
    }

    /** One turn of the loops of `rpc_advance_cursor` and `rpc_memcpy_cursor`: consumes up to
        `left` bytes of the first iovec and returns how many are still to be consumed. */
    method Step(left: nat) returns (rest: nat)
      requires Valid() && 0 < left <= remainingSize
      modifies this, slots
      ensures Valid() && slots[iovcntRef..] == old(slots[iovcntRef..])
      ensures rest < left || (rest == left && iovcnt < old(iovcnt))
      ensures rest <= remainingSize
      ensures Remaining() == old(Remaining())[left - rest..]
      ensures old(iovcnt) > 0 && left - rest == Min(left, old(slots[iov].len))
    {
      hide Addresses, Range;
      ghost var before := slots[iov..iov + iovcnt];
      AddressesNone();
      AddressesHead(before);
      var first := slots[iov];
      if first.len > left {
        RangeSplit(first.base, first.len, left);
        slots[iov] := Iovec(first.base + left, first.len - left);
        remainingSize := remainingSize - left;
        rest := 0;
        assert slots[iov..iov + iovcnt][1..] == before[1..];
        AddressesHead(slots[iov..iov + iovcnt]);
      } else {
        rest := left - first.len;
        remainingSize := remainingSize - first.len;
        iov, iovcnt := iov + 1, iovcnt - 1;
        assert slots[iov..iov + iovcnt] == before[1..];
      }
    }

    /** Copies `src` to the next addresses and moves past them. */
    method Memcpy(mem: array<byte>, src: seq<byte>)
      requires Valid() && |src| <= remainingSize && InMemory(mem[..], Remaining())
      requires mem as object != slots as object && mem as object != this
      modifies this, slots, mem
      ensures Valid() && Reference() == old(Reference())
      ensures Remaining() == old(Remaining())[|src|..]
      ensures mem[..] == Scatter(old(mem[..]), old(Remaining())[..|src|], src)
    {
      var done := 0;
      ghost var at := Remaining();
      while done < |src|
        invariant 0 <= done <= |src| <= |at| && Valid()
        invariant Remaining() == at[done..]
        invariant slots[iovcntRef..] == old(slots[iovcntRef..])
        invariant mem[..] == Scatter(old(mem[..]), at[..done], src[..done])
        decreases |src| - done, iovcnt
      {
        var n := CopyStep(mem, src[done..]);
        assert src[done..][..n] == src[done..done + n];
        ScatterSlices(old(mem[..]), at, src, done, n);
        done := done + n;
      }
      assert src[..done] == src;
    }

    /** One turn of the loop of `rpc_memcpy_cursor`: fills the first buffer as far as `src` goes. */
    method CopyStep(mem: array<byte>, src: seq<byte>) returns (n: nat)
      requires Valid() && 0 < |src| <= remainingSize && InMemory(mem[..], Remaining())
      requires mem as object != slots as object && mem as object != this
      modifies this, slots, mem
      ensures Valid() && slots[iovcntRef..] == old(slots[iovcntRef..])
      ensures n <= |src| && (n > 0 || iovcnt < old(iovcnt))
      ensures Remaining() == old(Remaining())[n..]
      ensures mem[..] == Scatter(old(mem[..]), old(Remaining())[..n], src[..n])
    {
      AddressesHead(slots[iov..iov + iovcnt]);
      n := if slots[iov].len > |src| then |src| else slots[iov].len;
      RangeSplit(slots[iov].base, slots[iov].len, n);
      CopyIn(mem, slots[iov].base, src[..n], Remaining());
      var rest := Step(|src|);
    }

    /** `memcpy` into the first buffer. */
    method CopyIn(mem: array<byte>, base: nat, data: seq<byte>, ghost at: seq<nat>)
      requires |data| <= |at| && at[..|data|] == Range(base, |data|) && InMemory(mem[..], at)
      modifies mem
      ensures mem[..] == Scatter(old(mem[..]), at[..|data|], data)
    {
      if |data| == 0 { return; }
      assert at[|data| - 1] == Range(base, |data|)[|data| - 1];
      assert forall i | 0 <= i < |mem[..]| :: mem[..][i] == mem[i];
      ScatterRange(mem[..], base, data);
      for i := 0 to |data|
        invariant mem[..] == old(mem[..])[..base] + data[..i] + old(mem[..])[base + i..]
      {
        mem[base + i] := data[i];
      }
      assert data[..|data|] == data;
    }

    /** Cuts the cursor down to `newLen` bytes if it is longer. */
    method Shrink(newLen: nat)
      requires Valid()
      modifies this, slots
      ensures Valid() && Reference() == old(Reference())
      ensures Remaining() == Take(old(Remaining()), newLen)
    {
      if remainingSize <= newLen { return; }
      iovcnt := ShrinkBuffers(newLen);
      remainingSize := newLen;
    }

    /** The loop of `rpc_shrink_cursor`: returns how many iovecs hold the first `newLen` bytes
        after shortening the last of them. */
    method ShrinkBuffers(newLen: nat) returns (i: nat)
      requires Valid() && newLen < remainingSize
      modifies slots
      ensures i <= iovcnt && slots[iovcntRef..] == old(slots[iovcntRef..])
      ensures Addresses(slots[iov..iov + i]) == old(Remaining())[..newLen]
    {
      hide Addresses;
      AddressesNone();
      ghost var v := slots[iov..iov + iovcnt];
      assert slots[iov..iov + 0] == [] && v[..0] == [];
      i := 0;
      var done := 0;
      while i < iovcnt && done < newLen
        invariant 0 <= i <= iovcnt && done <= newLen
        invariant slots[iovcntRef..] == old(slots[iovcntRef..])
        invariant done < newLen ==> slots[iov..iov + iovcnt] == v && done == |Addresses(v[..i])|
        invariant done == newLen ==> Addresses(slots[iov..iov + i]) == Addresses(v)[..newLen]
      {
        done := ShrinkTurn(i, done, newLen, v);
        i := i + 1;
      }
      assert v[..|v|] == v;
    }

    /** One turn of that loop: all of the iovec is kept, or it is cut. */
    method ShrinkTurn(i: nat, done: nat, newLen: nat, ghost v: seq<Iovec>) returns (done': nat)
      requires slots.Length == 2 * iovcntRef && iov + iovcnt <= iovcntRef && i < iovcnt && done < newLen
      requires slots[iov..iov + iovcnt] == v && done == |Addresses(v[..i])| && newLen < |Addresses(v)|
      modifies slots
      ensures done' <= newLen && slots[iovcntRef..] == old(slots[iovcntRef..])
      ensures done' < newLen ==> slots[iov..iov + iovcnt] == v && done' == |Addresses(v[..i + 1])|
      ensures done' == newLen ==> Addresses(slots[iov..iov + i + 1]) == Addresses(v)[..newLen]
    {
      hide Addresses;
      ShrinkStep(v, i, newLen);
      assert slots[iov + i] == v[i];
      assert slots[iov..iov + i] == slots[iov..iov + iovcnt][..i];
      if slots[iov + i].len <= newLen - done {
        done' := done + slots[iov + i].len;
        assert slots[iov..iov + i + 1] == slots[iov..iov + iovcnt][..i + 1];
      } else {
        CutBuffer(i, newLen - done);
        done' := newLen;
      }
    }

    method CutBuffer(i: nat, len: nat)
      requires slots.Length == 2 * iovcntRef && iov + iovcnt <= iovcntRef && i < iovcnt
      modifies slots
      ensures slots[iovcntRef..] == old(slots[iovcntRef..])
      ensures slots[iov..iov + i + 1] == old(slots[iov..iov + i]) + [old(slots[iov + i]).(len := len)]
    {
      slots[iov + i] := slots[iov + i].(len := len);
    }

    /** Restores the cursor to the buffers the caller supplied. */
    method Reset()
      requires Valid()
      modifies this, slots
      ensures Valid() && Reference() == old(Reference())
      ensures Remaining() == Reference()
    {
      iovcnt := iovcntRef;
      iov := 0;
      remainingSize := 0;
      var i := 0;
      while i < iovcntRef
        invariant 0 <= i <= iovcntRef && iov == 0 && iovcnt == iovcntRef
        invariant slots[iovcntRef..] == old(slots[iovcntRef..])
        invariant slots[..i] == slots[iovcntRef..iovcntRef + i]
        invariant remainingSize == |Addresses(slots[..i])|
      {
        ghost var done := slots[..i];
        slots[i] := slots[iovcntRef + i];
        remainingSize := remainingSize + slots[i].len;
        assert slots[..i + 1] == done + [slots[i]];
        AddressesAppend(done, [slots[i]]);
        i := i + 1;
      }
      assert slots[0..iovcntRef] == slots[..iovcntRef] == slots[iovcntRef..iovcntRef + iovcntRef] == slots[iovcntRef..];
    }
  }
}
