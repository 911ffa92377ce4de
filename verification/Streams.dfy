/** Machines that consume a byte stream in pieces of a size they ask for. If absorbing a piece in
    two parts is the same as absorbing it whole, the way the stream is cut cannot be observed. */
module Streams {
  import opened Bytes

  /** `need` is how many bytes the machine waits for, zero once it has stopped; `step` consumes at
      most that many. */
  datatype Machine<!S> = Machine(need: S -> nat, step: (S, seq<byte>) -> S)

  /** Reading `a` and then `c` is reading both, and `a` alone only lowers what is needed. */
  ghost predicate SplitLaw<S>(m: Machine<S>, s: S, a: seq<byte>, c: seq<byte>)
  {
    0 < |a| && 0 < |c| && |a| + |c| <= m.need(s) ==>
      m.need(m.step(s, a)) == m.need(s) - |a| && m.step(m.step(s, a), c) == m.step(s, a + c)
  }

  ghost predicate Splittable<S(!new)>(m: Machine<S>)
  {
    forall s: S, a: seq<byte>, c: seq<byte> :: SplitLaw(m, s, a, c)
  }

  /** The machine fed from a stream, taking as much as it asks for each time. */
  function Feed<S>(m: Machine<S>, s: S, stream: seq<byte>): (r: S)
    decreases |stream|
  {
    if stream == [] || m.need(s) == 0 then s
    else
      var k := Min(m.need(s), |stream|);
      Feed(m, m.step(s, stream[..k]), stream[k..])
  }

  /** The machine fed from a stream that arrives in the given pieces. */
  function FeedPieces<S>(m: Machine<S>, s: S, pieces: seq<seq<byte>>): (r: S)
    decreases |pieces|
  {
    if pieces == [] then s else FeedPieces(m, Feed(m, s, pieces[0]), pieces[1..])
  }

  /** A stream may be cut anywhere. */
  lemma {:induction false} FeedSplit<S(!new)>(m: Machine<S>, s: S, a: seq<byte>, b: seq<byte>)
    requires Splittable(m)
    ensures Feed(m, Feed(m, s, a), b) == Feed(m, s, a + b)
    decreases |a|
  {
    var need := m.need(s);
    if a == [] {
      assert a + b == b;
    } else if need != 0 && need <= |a| {
      assert (a + b)[..need] == a[..need] && (a + b)[need..] == a[need..] + b;
      FeedSplit(m, m.step(s, a[..need]), a[need..], b);
    } else if need != 0 {
      assert a[..|a|] == a && a[|a|..] == [];
      if b == [] {
        assert a + b == a;
        FeedPart(m, s, a, [0]);
      } else {
        var k := Min(need - |a|, |b|);
        FeedPart(m, s, a, b[..k]);
        assert (a + b)[..|a| + k] == a + b[..k] && (a + b)[|a| + k..] == b[k..];
      }
    }
  }

  lemma FeedPart<S(!new)>(m: Machine<S>, s: S, a: seq<byte>, c: seq<byte>)
    requires Splittable(m) && 0 < |a| && 0 < |c| && |a| + |c| <= m.need(s)
    ensures Feed(m, s, a) == m.step(s, a) && m.need(m.step(s, a)) == m.need(s) - |a|
    ensures m.step(m.step(s, a), c) == m.step(s, a + c)
  {
    assert SplitLaw(m, s, a, c);
    assert a[..|a|] == a && a[|a|..] == [];
  }

  /** The state after a stream depends only on its bytes, never on how they were delivered. */
  lemma {:induction false} SplitIndependence<S(!new)>(m: Machine<S>, s: S, pieces: seq<seq<byte>>)
    requires Splittable(m)
    ensures FeedPieces(m, s, pieces) == Feed(m, s, Concat(pieces))
    decreases |pieces|
  {
    if pieces != [] {
      SplitIndependence(m, Feed(m, s, pieces[0]), pieces[1..]);
      FeedSplit(m, s, pieces[0], Concat(pieces[1..]));
    }
  }

  lemma FeedOnce<S>(m: Machine<S>, s: S, c: seq<byte>)
    requires 1 <= |c| <= m.need(s)
    ensures Feed(m, s, c) == m.step(s, c)
  {
    assert c[..|c|] == c && c[|c|..] == [];
  }

  /** One complete piece takes the machine to `next`. */
  lemma FeedPiece<S>(m: Machine<S>, s: S, piece: seq<byte>, rest: seq<byte>, next: S)
    requires |piece| == m.need(s) > 0 && next == m.step(s, piece)
    ensures Feed(m, s, piece + rest) == Feed(m, next, rest)
  {
    assert (piece + rest)[..|piece|] == piece && (piece + rest)[|piece|..] == rest;
  }
}
