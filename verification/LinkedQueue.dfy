/** The singly linked PDU queues (`struct rpc_queue`), relinked in place, behave like the sequences
    that the rest of the model uses. */
module LinkedQueue {
  import opened Bytes
  import opened Transport

  class Node {
    var pdu: Pdu
    var next: Node?

    constructor (pdu: Pdu)
      ensures this.pdu == pdu && next == null
    {
      this.pdu, next := pdu, null;
    }
  }

  class RpcQueue {
    var head: Node?
    var tail: Node?
    ghost var nodes: seq<Node>

    ghost predicate Valid()
      reads this, nodes
    {
      && (forall i, j :: 0 <= i < j < |nodes| ==> nodes[i] != nodes[j])
      && (forall i {:trigger nodes[i].next} :: 0 <= i < |nodes| ==>
            nodes[i].next == if i + 1 < |nodes| then nodes[i + 1] else null)
      && (if nodes == [] then head == null && tail == null else head == nodes[0] && tail == nodes[|nodes| - 1])
    }

    ghost function Contents(): (q: seq<Pdu>)
      reads this, nodes
    {
      seq(|nodes|, i requires 0 <= i < |nodes| reads this, nodes => nodes[i].pdu)
    }

    constructor ()
      ensures Valid() && Contents() == []
    {
      head, tail, nodes := null, null, [];
    }

    /** `rpc_enqueue`. */
    method Enqueue(n: Node)
      requires Valid() && n !in nodes
      modifies this, nodes, n`next
      ensures Valid() && nodes == old(nodes) + [n]
      ensures Contents() == old(Contents()) + [n.pdu]
    {
      if head == null {
        head := n;
      } else {
        tail.next := n;
      }
      tail := n;
      n.next := null;
      nodes := nodes + [n];
    }

    /** `rpc_return_to_outqueue`: right after the head, which may be half-sent. */
    method ReturnAfterHead(n: Node)
      requires Valid() && n !in nodes
      modifies this, nodes, n
      ensures Valid() && nodes == if old(nodes) == [] then [n] else [old(nodes)[0], n] + old(nodes)[1..]
      ensures Contents() == AfterHead(old(Contents()), Rewound(old(n.pdu)))
    {
      ghost var q := Contents();
      n.pdu := n.pdu.(out := n.pdu.out.(numDone := 0), inp := n.pdu.inp.(todo := n.pdu.inp.addrs));
      if head == null {
        head, tail := n, n;
        n.next := null;
        nodes := [n];
      } else if head == tail {
        assert |nodes| == 1;
        head.next := n;
        tail := n;
        n.next := null;
        nodes := [nodes[0], n];
      } else {
        n.next := head.next;
        head.next := n;
        nodes := [nodes[0], n] + nodes[1..];
      }
      assert Contents() == AfterHead(q, n.pdu);
    }

    /** Takes out the node at position `i`, whose predecessor, if any, is `prev`. */
    method Unlink(ghost i: nat, prev: Node?, n: Node)
      requires Valid() && i < |nodes| && nodes[i] == n && (if i == 0 then prev == null else prev == nodes[i - 1])
      modifies this, nodes
      ensures Valid() && nodes == RemoveAt(old(nodes), i) && n.next == null && n.pdu == old(n.pdu)
      ensures Contents() == RemoveAt(old(Contents()), i)
    {
      ghost var q, before := Contents(), nodes;
      if n == head {
        head := n.next;
      }
      if n == tail {
        tail := prev;
      }
      if prev != null {
        prev.next := n.next;
      }
      n.next := null;
      nodes := nodes[..i] + nodes[i + 1..];
      assert forall k | 0 <= k < |nodes| :: nodes[k] == before[if k < i then k else k + 1];
      assert Contents() == RemoveAt(q, i);
    }

    /** `rpc_remove_pdu_from_queue`. */
    method Remove(n: Node) returns (found: bool)
      requires Valid()
      modifies this, nodes
      ensures Valid() && found == (n in old(nodes))
      ensures !found ==> nodes == old(nodes) && Contents() == old(Contents())
      ensures found ==> exists i :: 0 <= i < |old(nodes)| && old(nodes)[i] == n
                                    && nodes == RemoveAt(old(nodes), i) && Contents() == RemoveAt(old(Contents()), i)
    {
      if head == null { return false; }
      if head == n {
        Unlink(0, null, n);
        assert old(nodes)[0] == n;
        return true;
      }
      var p := head;
      ghost var k := 0;
      while p.next != null && p.next != n
        invariant 0 <= k < |nodes| && p == nodes[k] && n !in nodes[..k + 1]
        decreases |nodes| - k
      {
        p := p.next;
        k := k + 1;
        assert nodes[..k + 1] == nodes[..k] + [nodes[k]];
      }
      if p.next == null {
        assert nodes[..k + 1] == nodes;
        return false;
      }
      assert nodes[k + 1] == n;
      Unlink(k + 1, p, n);
      return true;
    }

    /** The search loop of `rpc_find_pdu` on one queue. */
    method FindXid(xid: uint32) returns (found: Node?)
      requires Valid()
      modifies this, nodes
      ensures Valid()
      ensures var i := IndexOf(old(Contents()), xid);
              if i < |old(Contents())|
              then found == old(nodes)[i] && found.pdu == old(Contents())[i] && found.next == null
                   && Contents() == RemoveAt(old(Contents()), i)
              else found == null && nodes == old(nodes) && Contents() == old(Contents())
    {
      var prev: Node?, p := null, head;
      ghost var k := 0;
      ghost var q := Contents();
      while p != null && p.pdu.xid != xid
        invariant 0 <= k <= |nodes| && Valid() && Contents() == q && nodes == old(nodes)
        invariant p == if k < |nodes| then nodes[k] else null
        invariant prev == if k == 0 then null else nodes[k - 1]
        invariant IndexOf(q, xid) == k + IndexOf(q[k..], xid)
        decreases |nodes| - k
      {
        assert q[k] == nodes[k].pdu && q[k..][1..] == q[k + 1..];
        prev, p := p, p.next;
        k := k + 1;
      }
      if p != null {
        assert q[k] == nodes[k].pdu && IndexOf(q, xid) == k;
        Unlink(k, prev, p);
      }
      found := p;
    }
  }
}
