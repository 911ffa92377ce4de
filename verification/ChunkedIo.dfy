/** Reads that are cut into READs of at most `readmax` bytes, and writes that go on after short replies. */
module ChunkedIo {
  import opened Bytes

  const NFS_MIN_XFER_SIZE: nat := 8192

  const EFAULT: int := 14
  const EINTR: int := 4

  // ---------------------------------------------------------------- transfer sizes

  function Max(a: int, b: int): (m: int)
  {
    if a >= b then a else b
  }

  /** `nfs_set_readmax` and `nfs_set_writemax`: whole pages within the limits, never zero. */
  function AdjustMax(n: nat): (r: nat)
    ensures NFS_MIN_XFER_SIZE <= r <= NFS_MAX_XFER_SIZE && r % 4096 == 0
    ensures NFS_MIN_XFER_SIZE <= n <= NFS_MAX_XFER_SIZE ==> r <= n < r + 4096
    ensures n <= 8192 ==> r == 8192
    ensures n >= 4 * 1024 * 1024 ==> r == 4 * 1024 * 1024
  {
    Max(Min(n, NFS_MAX_XFER_SIZE), NFS_MIN_XFER_SIZE) / 4096 * 4096
  }

  // ---------------------------------------------------------------- READ

  /** Bytes of the file from `offset`. */
  function Left(file: seq<byte>, offset: nat): (n: nat)
  {
    if offset <= |file| then |file| - offset else 0
  }

  /** One READ of `count` bytes; the server may stop after `limit`. */
  function ReadAt(file: seq<byte>, offset: nat, count: nat, limit: nat): (data: seq<byte>)
    ensures |data| <= count && |data| <= Left(file, offset)
    ensures limit >= count ==> |data| == Min(count, Left(file, offset))
  {
    var n := Min(Min(count, limit), Left(file, offset));
    if n == 0 then [] else file[offset..offset + n]
  }

  /** The answer to a READ: at most so many bytes, or a failure with a negative status. */
  datatype ReadReply = Sent(limit: nat) | Failed(status: int)

  /** How the k-th call is answered. */
  type Script = nat -> ReadReply

  ghost predicate Full(script: Script, readmax: nat)
  {
    forall k :: script(k).Sent? ==> script(k).limit >= readmax
  }

  ghost predicate NegativeFailures(script: Script)
  {
    forall k :: script(k).Failed? ==> script(k).status < 0
  }

  /** `calls` READs were made, of which only the last can have failed; one callback, with its status or
      with the number of bytes read. */
  ghost predicate Outcome(script: Script, calls: nat, failed: bool, total: nat, callbacks: seq<int>)
  {
    && calls > 0 && failed == script(calls - 1).Failed? && (forall k :: 0 <= k < calls - 1 ==> script(k).Sent?)
    && callbacks == [if script(calls - 1).Failed? then script(calls - 1).status else AsInt32(total)]
  }

  /** The open file's position. */
  class OpenFile {
    var offset: nat

    constructor (offset: nat)
      ensures this.offset == offset
    {
      this.offset := offset;
    }
  }

  /** One READ, its data put straight into the caller's buffer at `at`; the callback's status. */
  method OneRead(file: seq<byte>, buf: array<byte>, at: nat, count: nat, offset: nat, answer: ReadReply)
    returns (status: int)
    requires at + count <= buf.Length
    modifies buf
    ensures answer.Failed? ==> status == answer.status && buf[..] == old(buf[..])
    ensures answer.Sent? ==>
              var data := ReadAt(file, offset, count, answer.limit);
              status == |data| && buf[..] == old(buf[..])[..at] + data + old(buf[..])[at + |data|..]
  {
    if answer.Failed? {
      return answer.status;
    }
    var data := ReadAt(file, offset, count, answer.limit);
    forall i | 0 <= i < |data| {
      buf[at + i] := data[i];
    }
    status := |data|;
    assert buf[..] == old(buf[..])[..at] + data + old(buf[..])[at + |data|..];
  }

  /** `struct rw_data`. */
  class RwData {
    const buf: array<byte>
    const count: nat
    var at: nat
    var remaining: nat
    var offset: nat
    var callbacks: seq<int>

    constructor (buf: array<byte>, count: nat, offset: nat)
      requires count <= buf.Length
      ensures this.buf == buf && this.count == count && this.offset == offset
      ensures at == 0 && remaining == count && callbacks == []
    {
      this.buf, this.count, this.offset := buf, count, offset;
      at, remaining, callbacks := 0, count, [];
    }

    ghost predicate Valid(start: nat)
      reads this
    {
      count <= buf.Length && at + remaining == count && offset == start + at
    }

    /** `r_cb`: the data of one READ is in; is another one issued? */
    method RCb(status: int, readmax: nat, ghost start: nat) returns (again: bool)
      requires Valid(start) && callbacks == [] && status <= remaining
      modifies this
      ensures Valid(start)
      ensures status < 0 ==> callbacks == [status] && !again && at == old(at)
      ensures status >= 0 ==> at == old(at) + status
      ensures status >= 0 ==> again == (remaining > 0 && status >= readmax)
      ensures status >= 0 ==> callbacks == if again then [] else [AsInt32(at)]
    {
      if status < 0 {
        callbacks := callbacks + [status];
        return false;
      }
      at := at + status;
      offset := offset + status;
      remaining := remaining - status;
      if remaining == 0 || status < readmax {
        callbacks := callbacks + [AsInt32(count - remaining)];
        return false;
      }
      again := true;
    }
  }

  /** `buf` holds `n` bytes of the file from `start`, and beyond them what it held before. */
  ghost predicate Filled(file: seq<byte>, start: nat, before: seq<byte>, n: nat, now: seq<byte>)
  {
    && n <= |before| == |now| && n <= Left(file, start)
    && (forall i :: 0 <= i < n ==> now[i] == file[start + i])
    && now[n..] == before[n..]
  }

  lemma FilledMore(file: seq<byte>, start: nat, before: seq<byte>, n: nat, mid: seq<byte>, count: nat, limit: nat,
                   now: seq<byte>)
    requires Filled(file, start, before, n, mid)
    requires var data := ReadAt(file, start + n, count, limit);
             n + |data| <= |mid| && now == mid[..n] + data + mid[n + |data|..]
    ensures Filled(file, start, before, n + |ReadAt(file, start + n, count, limit)|, now)
  {
    var data := ReadAt(file, start + n, count, limit);
    assert now[n + |data|..] == mid[n + |data|..] == mid[n..][|data|..] == before[n..][|data|..];
    forall i | 0 <= i < n + |data| ensures now[i] == file[start + i] {
      assert i >= n ==> now[i] == data[i - n];
    }
  }

  lemma FilledNone(file: seq<byte>, start: nat, b: seq<byte>)
    ensures Filled(file, start, b, 0, b)
  {
  }

  lemma FilledLeft(file: seq<byte>, start: nat, before: seq<byte>, n: nat, now: seq<byte>)
    requires Filled(file, start, before, n, now)
    ensures n <= Left(file, start)
  {
  }

  /** The k-th READ asks for the k-th stretch of `readmax` bytes, or what is left of the count. */
  ghost predicate InSteps(asked: seq<(nat, nat)>, calls: nat, start: nat, count: nat, readmax: nat)
  {
    |asked| == calls && forall k :: 0 <= k < calls ==>
      k * readmax <= count && asked[k] == (start + k * readmax, Min(readmax, count - k * readmax))
  }

  lemma OneStep(start: nat, count: nat, readmax: nat)
    requires count < readmax
    ensures InSteps([(start, count)], 1, start, count, readmax)
  {
  }

  lemma NextStep(asked: seq<(nat, nat)>, calls: nat, start: nat, count: nat, readmax: nat)
    requires InSteps(asked, calls, start, count, readmax) && calls * readmax <= count
    ensures var next := (start + calls * readmax, Min(readmax, count - calls * readmax));
            InSteps(asked + [next], calls + 1, start, count, readmax)
  {
  }

  lemma NoStep(start: nat, count: nat, readmax: nat)
    ensures InSteps([], 0, start, count, readmax)
  {
  }

  lemma NextMultiple(k: nat, m: nat)
    ensures (k + 1) * m == k * m + m
  {
  }

  lemma AnswerAt(script: Script, readmax: nat, k: nat)
    requires NegativeFailures(script)
    ensures Full(script, readmax) && script(k).Sent? ==> script(k).limit >= readmax
    ensures script(k).Failed? ==> script(k).status < 0
  {
  }

  /** The chain of READs for a count of at least `readmax`. One callback; a prefix of the file's bytes;
      all that one READ would give when the server is short only at the end of the file. */
  method ReadChain(file: seq<byte>, buf: array<byte>, count: nat, start: nat, readmax: nat, script: Script)
    returns (callbacks: seq<int>, failed: bool, total: nat, calls: nat, ghost asked: seq<(nat, nat)>)
    requires 0 < readmax <= NFS_MAX_XFER_SIZE && count <= buf.Length && NegativeFailures(script)
    modifies buf
    ensures Filled(file, start, old(buf[..]), total, buf[..]) && total <= count
    ensures Outcome(script, calls, failed, total, callbacks)
    ensures Full(script, readmax) && !failed ==> total == Min(count, if start < |file| then |file| - start else 0)
    ensures InSteps(asked, calls, start, count, readmax)
  {
    hide ReadAt, Filled, AsInt32, Full, NegativeFailures, InSteps;
    NoStep(start, count, readmax);
    var rw := new RwData(buf, count, start);
    FilledNone(file, start, buf[..]);
    var cnt := Min(count, readmax);
    var again := true;
    calls, failed, asked := 0, false, [];
    while again
      invariant InSteps(asked, calls, start, count, readmax)
      invariant again ==> rw.at == calls * readmax
      invariant rw.Valid(start) && rw.buf == buf && rw.count == count
      invariant Filled(file, start, old(buf[..]), rw.at, buf[..])
      invariant again ==> rw.callbacks == [] && cnt == Min(rw.remaining, readmax) && (rw.remaining > 0 || count == 0)
      invariant again ==> forall k :: 0 <= k < calls ==> script(k).Sent?
      invariant !again ==> Outcome(script, calls, failed, rw.at, rw.callbacks)
      invariant !again && !failed && Full(script, readmax) ==> rw.at == Min(count, Left(file, start))
      decreases again, rw.remaining
    {
      ghost var mid, n := buf[..], rw.at;
      NextStep(asked, calls, start, count, readmax);
      asked := asked + [(rw.offset, cnt)];
      var status := OneRead(file, buf, rw.at, cnt, rw.offset, script(calls));
      AnswerAt(script, readmax, calls);
      failed := script(calls).Failed?;
      if !failed {
        FilledMore(file, start, old(buf[..]), n, mid, cnt, script(calls).limit, buf[..]);
        FilledLeft(file, start, old(buf[..]), n + status, buf[..]);
      }
      again := rw.RCb(status, readmax, start);
      cnt := Min(rw.remaining, readmax);
      NextMultiple(calls, readmax);
      calls := calls + 1;
    }
    callbacks, total := rw.callbacks, rw.at;
  }

  /** `_nfs_pread_async`. With `update` the open file's position follows the data, but only below
      `readmax`. */
  method Pread(fh: OpenFile, file: seq<byte>, buf: array<byte>, count: nat, start: nat, readmax: nat,
               script: Script, update: bool)
    returns (callbacks: seq<int>, failed: bool, total: nat, calls: nat, ghost asked: seq<(nat, nat)>)
    requires 0 < readmax <= NFS_MAX_XFER_SIZE && count <= buf.Length && NegativeFailures(script)
    modifies buf, fh
    ensures Filled(file, start, old(buf[..]), total, buf[..]) && total <= count
    ensures Outcome(script, calls, failed, total, callbacks)
    ensures Full(script, readmax) && !failed ==> total == Min(count, if start < |file| then |file| - start else 0)
    ensures InSteps(asked, calls, start, count, readmax)
    ensures fh.offset == if update && !failed && count < readmax then start + total else old(fh.offset)
  {
    hide ReadAt, Filled, AsInt32, Full, NegativeFailures, InSteps;
    if count < readmax {
      asked := [(start, count)];
      OneStep(start, count, readmax);
      FilledNone(file, start, buf[..]);
      var status := OneRead(file, buf, 0, count, start, script(0));
      AnswerAt(script, readmax, 0);
      calls, total, failed := 1, 0, script(0).Failed?;
      if failed {
        return [status], failed, total, calls, asked;
      }
      total := status;
      SmallStatus(total);
      FilledMore(file, start, old(buf[..]), 0, old(buf[..]), count, script(0).limit, buf[..]);
      if update {
        fh.offset := start + total;
      }
      return [status], failed, total, calls, asked;
    }
    callbacks, failed, total, calls, asked := ReadChain(file, buf, count, start, readmax, script);
  }

  /** `nfs_read_async`: after a successful read the position has moved by what was read if and only if
      the count was below `readmax` or nothing was read. */
  method Read(fh: OpenFile, file: seq<byte>, buf: array<byte>, count: nat, readmax: nat, script: Script)
    returns (callbacks: seq<int>, failed: bool, total: nat, calls: nat)
    requires 0 < readmax <= NFS_MAX_XFER_SIZE && count <= buf.Length && NegativeFailures(script)
    modifies buf, fh
    ensures Filled(file, old(fh.offset), old(buf[..]), total, buf[..]) && total <= count
    ensures Outcome(script, calls, failed, total, callbacks)
    ensures Full(script, readmax) && !failed ==>
              total == Min(count, if old(fh.offset) < |file| then |file| - old(fh.offset) else 0)
    ensures !failed ==> (fh.offset == old(fh.offset) + total <==> count < readmax || total == 0)
    ensures failed ==> fh.offset == old(fh.offset)
  {
    ghost var asked;
    callbacks, failed, total, calls, asked := Pread(fh, file, buf, count, fh.offset, readmax, script, true);
  }

  // ---------------------------------------------------------------- WRITE

  /** The file after `data` is written at `offset`; a gap is filled with zeros. */
  function WriteAt(file: seq<byte>, offset: nat, data: seq<byte>): (r: seq<byte>)
  {
    if data == [] then file
    else
      Upto(file, offset) + data + Drop(file, offset + |data|)
  }

  /** The file up to `offset`, with zeros where it ends before. */
  function Upto(file: seq<byte>, offset: nat): (r: seq<byte>)
    ensures |r| == offset
  {
    if offset <= |file| then file[..offset] else file + seq(offset - |file|, i => 0)
  }

  /** Byte for byte: the data where it was written, the old file around it, and zeros in a gap. */
  lemma WriteAtBytes(file: seq<byte>, offset: nat, data: seq<byte>, i: nat)
    requires data != [] && i < |WriteAt(file, offset, data)|
    ensures |WriteAt(file, offset, data)| == Max(|file|, offset + |data|)
    ensures WriteAt(file, offset, data)[i] == if offset <= i < offset + |data| then data[i - offset]
                                              else if i < |file| then file[i]
                                              else 0
  {
  }

  lemma UptoWritten(file: seq<byte>, offset: nat, a: seq<byte>, n: nat)
    requires a != []
    ensures Upto(WriteAt(file, offset, a), offset + |a|) == Upto(file, offset) + a
    ensures n >= offset + |a| ==> Drop(WriteAt(file, offset, a), n) == Drop(file, n)
  {
    var mid := WriteAt(file, offset, a);
    assert mid[..offset + |a|] == Upto(file, offset) + a;
  }

  /** Two writes end to end are one write. */
  lemma WriteAtTwice(file: seq<byte>, offset: nat, a: seq<byte>, b: seq<byte>)
    ensures WriteAt(WriteAt(file, offset, a), offset + |a|, b) == WriteAt(file, offset, a + b)
  {
    hide Upto, Drop;
    if a == [] {
      assert a + b == b;
    } else if b == [] {
      assert a + b == a;
    } else {
      UptoWritten(file, offset, a, offset + |a| + |b|);
      assert Upto(file, offset) + a + b == Upto(file, offset) + (a + b);
    }
  }

  /** The k-th WRITE reply: the transport failed, the server refused, or it took at most so many bytes. */
  datatype WriteReply = Lost | Cancelled | Refused(errno: int) | Took(n: nat)

  /** `nfs_cb_data` and the `nfs_mcb_data` of the one WRITE that is under way. */
  class WriteOp {
    const fh: OpenFile
    const usrbuf: seq<byte>
    const offset: nat
    const updatePos: bool
    var maxOffset: nat
    var callOffset: nat
    var callCount: nat
    var error: int
    var cancel: bool
    var callbacks: seq<int>

    /** `nfs3_pwrite_async_internal`: the count is cut to `writemax`, so its loop issues one WRITE. */
    constructor (fh: OpenFile, usrbuf: seq<byte>, count: nat, offset: nat, writemax: nat, updatePos: bool)
      requires count <= |usrbuf|
      ensures this.fh == fh && this.usrbuf == usrbuf && this.offset == offset && this.updatePos == updatePos
      ensures maxOffset == callOffset == offset && callCount == Min(count, writemax)
      ensures error == 0 && !cancel && callbacks == []
    {
      this.fh, this.usrbuf, this.offset, this.updatePos := fh, usrbuf, offset, updatePos;
      maxOffset, callOffset, callCount := offset, offset, Min(count, writemax);
      error, cancel, callbacks := 0, false, [];
    }

    /** The part of the user's buffer that the current call carries. */
    function Payload(): (data: seq<byte>)
      requires offset <= callOffset && callOffset - offset + callCount <= |usrbuf|
      reads this
      ensures |data| == callCount
    {
      usrbuf[callOffset - offset..callOffset - offset + callCount]
    }

    /** `nfs3_pwrite_mcb`: `count` bytes were taken, or the call failed. True if the rest is sent again. */
    method Mcb(reply: WriteReply) returns (again: bool)
      requires callbacks == [] && error == 0 && !cancel && offset <= callOffset && maxOffset == offset
      requires reply.Took? ==> reply.n <= callCount
      requires reply.Refused? ==> reply.errno < 0
      modifies this, fh
      ensures fh.offset == if updatePos && !again && reply.Took? && reply.n == old(callCount)
                           then (if reply.n > 0 then old(callOffset) + reply.n else offset)
                           else old(fh.offset)
      ensures again <==> reply.Took? && 0 < reply.n < old(callCount)
      ensures again ==> callOffset == old(callOffset) + reply.n && callCount == old(callCount) - reply.n
      ensures again ==> callbacks == [] && error == 0 && !cancel && maxOffset == offset
      ensures !again && reply.Took? && reply.n == old(callCount) ==>
                callbacks == [AsInt32(if reply.n > 0 then old(callOffset) + reply.n - offset else 0)]
      ensures !again && !(reply.Took? && reply.n == old(callCount)) ==>
                callbacks == [match reply
                              case Lost => -EFAULT
                              case Cancelled => -EINTR
                              case Refused(e) => e
                              case Took(_) => -EFAULT]
    {
      match reply {
        case Lost => error := -EFAULT;
        case Cancelled => cancel := true;
        case Refused(e) => error := e;
        case Took(n) =>
          if n < callCount {
            if n == 0 {
              error := -EFAULT;
            } else {
              callOffset, callCount := callOffset + n, callCount - n;
              return true;
            }
          }
          if n > 0 && maxOffset < callOffset + n {
            maxOffset := callOffset + n;
          }
      }
      again := false;
      if error != 0 {
        callbacks := callbacks + [error];
      } else if cancel {
        callbacks := callbacks + [-EINTR];
      } else {
        if updatePos {
          fh.offset := maxOffset;
        }
        callbacks := callbacks + [AsInt32(maxOffset - offset)];
      }
    }

    /** The server answers the call under way, having written what it takes, and the callback runs. */
    method Turn(reply: WriteReply, file: seq<byte>, ghost file0: seq<byte>, ghost done: nat)
      returns (again: bool, file': seq<byte>, taken: nat)
      requires callbacks == [] && error == 0 && !cancel && maxOffset == offset && callOffset == offset + done
      requires done + callCount <= |usrbuf| && file == WriteAt(file0, offset, usrbuf[..done])
      requires (reply.Took? ==> reply.n <= callCount) && (reply.Refused? ==> reply.errno < 0)
      requires done + callCount <= NFS_MAX_XFER_SIZE && (callCount > 0 || done == 0)
      modifies this, fh
      ensures taken == (if reply.Took? then reply.n else 0) && done + taken <= |usrbuf|
      ensures file' == WriteAt(file0, offset, usrbuf[..done + taken])
      ensures again <==> reply.Took? && 0 < reply.n < old(callCount)
      ensures again ==> callbacks == [] && error == 0 && !cancel && maxOffset == offset
      ensures again ==> callOffset == offset + done + taken && callCount == old(callCount) - taken
      ensures !again ==> |callbacks| == 1
      ensures !again && reply.Took? && reply.n == old(callCount) ==> callbacks[0] == done + taken
      ensures !again && !(reply.Took? && reply.n == old(callCount)) ==> callbacks[0] < 0
      ensures fh.offset == if updatePos && !again && callbacks[0] >= 0 then offset + done + taken else old(fh.offset)
    {
      hide WriteAt, AsInt32;
      taken := if reply.Took? then reply.n else 0;
      var payload := Payload();
      TakenPart(usrbuf, done, callCount, taken);
      Taken(file0, usrbuf, offset, done, taken);
      file' := WriteAt(file, callOffset, payload[..taken]);
      SmallStatus(done + taken);
      SmallStatus(0);
      again := Mcb(reply);
    }
  }

  /** A prefix of what a call carries. */
  lemma TakenPart(usrbuf: seq<byte>, at: nat, count: nat, n: nat)
    requires at + count <= |usrbuf| && n <= count
    ensures usrbuf[at..at + count][..n] == usrbuf[at..at + n]
  {
  }

  /** The server takes at most as many bytes as it is offered. */
  function Honest(reply: WriteReply, offered: nat): (r: WriteReply)
  {
    if reply.Took? then Took(Min(reply.n, offered)) else reply
  }

  /** Every reply takes something. */
  ghost predicate Progress(script: nat -> WriteReply)
  {
    forall k :: script(k).Took? && script(k).n > 0
  }

  ghost predicate Negative(script: nat -> WriteReply)
  {
    forall k :: script(k).Refused? ==> script(k).errno < 0
  }

  lemma ReplyAt(script: nat -> WriteReply, k: nat, offered: nat)
    requires Negative(script)
    ensures var r := Honest(script(k), offered);
            && (r.Refused? ==> r.errno < 0) && (r.Took? ==> r.n <= offered)
            && (Progress(script) ==> r.Took? && (offered > 0 ==> r.n > 0))
  {
    assert Progress(script) ==> script(k).Took? && script(k).n > 0;
  }

  /** What the server does with a call: it writes the part of the payload that it takes. */
  lemma Taken(file: seq<byte>, usrbuf: seq<byte>, start: nat, done: nat, n: nat)
    requires done + n <= |usrbuf|
    ensures WriteAt(WriteAt(file, start, usrbuf[..done]), start + done, usrbuf[done..done + n])
            == WriteAt(file, start, usrbuf[..done + n])
  {
    hide WriteAt;
    WriteAtTwice(file, start, usrbuf[..done], usrbuf[done..done + n]);
    assert usrbuf[..done] + usrbuf[done..done + n] == usrbuf[..done + n];
  }

  lemma WriteNothing(file: seq<byte>, start: nat, usrbuf: seq<byte>)
    ensures file == WriteAt(file, start, usrbuf[..0])
  {
  }

  lemma SmallStatus(n: nat)
    requires n <= NFS_MAX_XFER_SIZE
    ensures AsInt32(n) == n
  {
  }

  /** A `pwrite` under any replies: one callback; the server's file is always the old one with a prefix of
      the data written at `start`, and the whole clamped data exactly when success is reported. Then, and
      only then, a position that is to be updated moves to the end of the data. */
  method Pwrite(fh: OpenFile, file: seq<byte>, usrbuf: seq<byte>, count: nat, start: nat, writemax: nat,
                script: nat -> WriteReply, updatePos: bool)
    returns (status: int, file': seq<byte>, done: nat)
    requires count <= |usrbuf| && writemax <= NFS_MAX_XFER_SIZE && Negative(script)
    modifies fh
    ensures done <= Min(count, writemax) && file' == WriteAt(file, start, usrbuf[..done])
    ensures status >= 0 ==> done == Min(count, writemax) == status
    ensures Progress(script) ==> status >= 0
    ensures fh.offset == if updatePos && status >= 0 then start + status else old(fh.offset)
  {
    hide WriteAt, AsInt32, Progress, Negative, Honest;
    var op := new WriteOp(fh, usrbuf, count, start, writemax, updatePos);
    var total := op.callCount;
    file' := file;
    done := 0;
    WriteNothing(file, start, usrbuf);
    SmallStatus(total);
    SmallStatus(0);
    var k := 0;
    var again := true;
    while again
      invariant op.fh == fh && op.usrbuf == usrbuf && op.offset == start && op.updatePos == updatePos
      invariant done <= total && file' == WriteAt(file, start, usrbuf[..done])
      invariant again ==> op.callbacks == [] && op.error == 0 && !op.cancel && op.maxOffset == start
      invariant again ==> op.callOffset == start + done && op.callCount == total - done
      invariant again && total > 0 ==> done < total
      invariant again ==> fh.offset == old(fh.offset)
      invariant !again ==> |op.callbacks| == 1 && (op.callbacks[0] >= 0 ==> done == total == op.callbacks[0])
      invariant !again && Progress(script) ==> op.callbacks[0] >= 0
      invariant !again ==>
                  fh.offset == if updatePos && op.callbacks[0] >= 0 then start + total else old(fh.offset)
      decreases again, total - done
    {
      var taken;
      again, file', taken := op.Turn(Honest(script(k), op.callCount), file', file, done) by {
        ReplyAt(script, k, op.callCount);
      }
      ReplyAt(script, k, total - done);
      done := done + taken;
      k := k + 1;
    }
    status := op.callbacks[0];
  }
}
