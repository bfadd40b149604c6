// The transmit queue: a singly linked list kept in priority order, first come first
// served within a priority.
module PrioFid {
  import opened Sequences
  import opened RleFormat

  // ---------- The queue as a sequence of headers ----------

  predicate Sorted(q: seq<Hdr>) {
    forall i, j | 0 <= i < j < |q| :: q[i].prio <= q[j].prio
  }

  // Position of the first packet of a worse priority.
  function FirstAbove(q: seq<Hdr>, prio: nat): (k: nat)
    ensures k <= |q|
    ensures k < |q| ==> prio < q[k].prio
    ensures forall i | 0 <= i < k :: q[i].prio <= prio
  {
    if q == [] || prio < q[0].prio then 0 else 1 + FirstAbove(q[1..], prio)
  }

  function Insert(q: seq<Hdr>, h: Hdr): (r: seq<Hdr>) {
    var k := FirstAbove(q, h.prio);
    q[..k] + [h] + q[k..]
  }

  function OfPrio(q: seq<Hdr>, prio: nat): (r: seq<Hdr>) {
    if q == [] then []
    else (if q[0].prio == prio then [q[0]] else []) + OfPrio(q[1..], prio)
  }

  lemma {:induction false} OfPrioAppend(q: seq<Hdr>, r: seq<Hdr>, prio: nat)
    ensures OfPrio(q + r, prio) == OfPrio(q, prio) + OfPrio(r, prio)
  {
    if q == [] {
      assert q + r == r;
    } else {
      assert (q + r)[1..] == q[1..] + r;
      OfPrioAppend(q[1..], r, prio);
      Associate(if q[0].prio == prio then [q[0]] else [], OfPrio(q[1..], prio), OfPrio(r, prio));
    }
  }

  lemma {:induction false} OfPrioAbsent(q: seq<Hdr>, prio: nat)
    requires forall i | 0 <= i < |q| :: q[i].prio != prio
    ensures OfPrio(q, prio) == []
  {
    if q != [] {
      OfPrioAbsent(q[1..], prio);
    }
  }

  lemma {:induction false} FirstAboveIs(q: seq<Hdr>, prio: nat, k: nat)
    requires k <= |q| && (forall i | 0 <= i < k :: q[i].prio <= prio) && (k < |q| ==> prio < q[k].prio)
    ensures FirstAbove(q, prio) == k
  {
    if 0 < k {
      FirstAboveIs(q[1..], prio, k - 1);
    }
  }

  lemma InsertSorted(q: seq<Hdr>, h: Hdr)
    requires Sorted(q)
    ensures Sorted(Insert(q, h))
  {
    var k, r := FirstAbove(q, h.prio), Insert(q, h);
    forall i, j | 0 <= i < j < |r| ensures r[i].prio <= r[j].prio {
      InsertedAt(q, h, k, r, i);
      InsertedAt(q, h, k, r, j);
    }
  }

  lemma InsertedAt(q: seq<Hdr>, h: Hdr, k: nat, r: seq<Hdr>, i: nat)
    requires k <= |q| && r == q[..k] + [h] + q[k..] && i < |r|
    ensures r[i] == if i < k then q[i] else if i == k then h else q[i - 1]
  {
  }

  lemma AroundInsert(front: seq<Hdr>, h: Hdr, back: seq<Hdr>, prio: nat)
    ensures OfPrio(front + [h] + back, prio) == OfPrio(front, prio) + (if prio == h.prio then [h]
            else []) + OfPrio(back, prio)
    ensures OfPrio(front + back, prio) == OfPrio(front, prio) + OfPrio(back, prio)
  {
    OfPrioAppend(front + [h], back, prio);
    OfPrioAppend(front, [h], prio);
    OfPrioAppend(front, back, prio);
    assert OfPrio([h], prio) == (if prio == h.prio then [h] else []) + OfPrio([h][1..], prio);
  }

  // Insertion keeps the queue sorted, puts the packet behind every waiting packet of its
  // own priority, and moves no other packet relative to the rest.
  lemma InsertIsStable(q: seq<Hdr>, h: Hdr, prio: nat)
    requires Sorted(q)
    ensures Sorted(Insert(q, h))
    ensures OfPrio(Insert(q, h), prio) == OfPrio(q, prio) + if prio == h.prio then [h] else []
  {
    InsertSorted(q, h);
    var k := FirstAbove(q, h.prio);
    assert q == q[..k] + q[k..];
    AroundInsert(q[..k], h, q[k..], prio);
    if prio == h.prio {
      OfPrioAbsent(q[k..], prio);
    }
  }

  // ---------- The linked list ----------

  // The part of a packet's header that fragmentation rewrites.
  class RleHeader {
    var total: nat
    var flags: Flags
    var psize: nat
  }

  class Packet {
    const uid: nat
    const prio: nat
    const size: nat
    const alpduHdr: nat
    const rle: RleHeader
    var next: Packet?

    constructor (uid: nat, prio: nat, size: nat, alpduHdr: nat)
      ensures this.uid == uid && this.prio == prio && this.size == size && this.alpduHdr == alpduHdr
      ensures next == null && fresh(rle)
    {
      this.uid, this.prio, this.size, this.alpduHdr, next := uid, prio, size, alpduHdr, null;
      rle := new RleHeader;
    }

    ghost function Header(): (h: Hdr)
      reads rle
    {
      Hdr(uid, prio, size + alpduHdr, rle.total, rle.flags, rle.psize)
    }

    // init_packet; false where the source aborts.
    method InitPacket() returns (ok: bool)
      modifies rle
      ensures ok <==> InitHeader(uid, prio, size, alpduHdr).Some?
      ensures ok ==> Header() == InitHeader(uid, prio, size, alpduHdr).value
    {
      rle.total := size + alpduHdr;
      if prio > 7 {
        return false;
      }
      rle.flags := Flags(true, true);
      rle.psize := rle.total;
      return true;
    }
  }

  ghost function Rles(ns: seq<Packet>): (os: set<RleHeader>) {
    set n | n in ns :: n.rle
  }

  // Headers of a chain of packets; links do not matter.
  ghost function HeadersOf(ns: seq<Packet>): (q: seq<Hdr>)
    reads Rles(ns)
    ensures |q| == |ns| && forall i | 0 <= i < |q| :: q[i] == ns[i].Header()
  {
    seq(|ns|, i requires 0 <= i < |ns| reads Rles(ns) => ns[i].Header())
  }

  // The chain with p at the first position of a worse priority.
  lemma Inserted(ns: seq<Packet>, k: nat, p: Packet)
    requires k <= |ns| && (forall i | 0 <= i < k :: ns[i].prio <= p.prio) && (k < |ns| ==> p.prio < ns[k].prio)
    ensures var r := ns[..k] + [p] + ns[k..];
            && HeadersOf(r) == Insert(HeadersOf(ns), p.Header())
            && forall x :: x in r <==> x == p || x in ns
  {
    var r, q := ns[..k] + [p] + ns[k..], HeadersOf(ns);
    FirstAboveIs(q, p.prio, k);
    assert HeadersOf(r) == q[..k] + [p.Header()] + q[k..];
    assert ns == ns[..k] + ns[k..];
  }

  ghost predicate Distinct(ns: seq<Packet>) {
    forall i, j | 0 <= i < j < |ns| :: ns[i] != ns[j]
  }

  ghost predicate Link(ns: seq<Packet>, i: nat)
    requires i < |ns|
    reads ns
  {
    ns[i].next == if i + 1 < |ns| then ns[i + 1] else null
  }

  ghost predicate Linked(ns: seq<Packet>)
    reads ns
  {
    forall i | 0 <= i < |ns| :: Link(ns, i)
  }

  lemma DistinctInsert(ns: seq<Packet>, k: nat, p: Packet)
    requires Distinct(ns) && p !in ns && k <= |ns|
    ensures Distinct(ns[..k] + [p] + ns[k..])
  {
    var r := ns[..k] + [p] + ns[k..];
    forall i, j | 0 <= i < j < |r| ensures r[i] != r[j] {
      if i < k <= j {
        assert r[i] == ns[i] && ns[i] in ns;
      }
    }
  }

  // Once the node before position k points at p and p at the node after, p is part of
  // the chain.
  lemma LinkedInsert(ns: seq<Packet>, k: nat, p: Packet)
    requires k <= |ns|
    requires forall i | 0 <= i < |ns| && i != k - 1 :: Link(ns, i)
    requires 0 < k ==> ns[k - 1].next == p
    requires p.next == if k < |ns| then ns[k] else null
    ensures Linked(ns[..k] + [p] + ns[k..])
  {
    var r := ns[..k] + [p] + ns[k..];
    forall i | 0 <= i < |r| ensures Link(r, i) {
      if i < k {
        assert i < k - 1 ==> Link(ns, i);
      } else if i > k {
        assert Link(ns, i - 1);
      }
    }
  }

  lemma LinkedTail(ns: seq<Packet>)
    requires ns != [] && Linked(ns)
    ensures Linked(ns[1..])
  {
    forall i | 0 <= i < |ns[1..]| ensures Link(ns[1..], i) {
      assert Link(ns, i + 1);
    }
  }

  class PacketQueueFid {
    var head: Packet?
    var tail: Packet?
    var len: nat
    var bytes: int
    ghost var nodes: seq<Packet>

    constructor ()
      ensures Valid() && nodes == []
    {
      head, tail, len, bytes, nodes := null, null, 0, 0, [];
    }

    ghost predicate Valid()
      reads this, nodes
    {
      && len == |nodes| && bytes == TotalSize(nodes)
      && Distinct(nodes) && Linked(nodes)
      && if nodes == [] then head == null && tail == null else head == nodes[0] && tail == nodes[|nodes| - 1]
    }

    method Enque(p: Packet) returns (oldTail: Packet?)
      requires Valid() && p !in nodes && p.next == null && Sorted(HeadersOf(nodes))
      modifies this, p, nodes
      ensures Valid() && oldTail == old(tail)
      ensures HeadersOf(nodes) == Insert(HeadersOf(old(nodes)), p.Header())
      ensures forall x :: x in nodes <==> x == p || x in old(nodes)
    {
      oldTail := tail;
      ghost var ns, q := nodes, HeadersOf(nodes);
      ghost var k := |ns|;
      // An empty queue, or none of a worse priority: the packet becomes the last.
      if tail == null || tail.prio <= p.prio {
        assert forall i | 0 <= i < k :: ns[i].prio == q[i].prio <= q[|q| - 1].prio;
        Append(p);
      } else {
        k := InsertInside(p);
      }
      Inserted(ns, k, p);
    }

    method Append(p: Packet)
      requires Valid() && p !in nodes && p.next == null
      modifies this, nodes
      ensures Valid() && nodes == old(nodes)[..|old(nodes)|] + [p] + old(nodes)[|old(nodes)|..]
    {
      ghost var n := |nodes|;
      TotalSizeInsert(nodes, n, p);
      DistinctInsert(nodes, n, p);
      len := len + 1;
      bytes := bytes + p.size;
      if tail == null {
        head := p;
      } else {
        tail.next := p;
      }
      tail := p;
      forall i | 0 <= i < n && i != n - 1 ensures Link(nodes, i) {
        assert nodes[i] != nodes[n - 1] && old(Link(nodes, i));
      }
      LinkedInsert(nodes, n, p);
      nodes := nodes[..n] + [p] + nodes[n..];
    }

    method InsertInside(p: Packet) returns (ghost k: nat)
      requires Valid() && p !in nodes && p.next == null && tail != null && p.prio < tail.prio
      modifies this, p, nodes
      ensures Valid() && k < |old(nodes)| && nodes == old(nodes)[..k] + [p] + old(nodes)[k..]
      ensures p.prio < old(nodes)[k].prio && forall i | 0 <= i < k :: old(nodes)[i].prio <= p.prio
    {
      var prev: Packet?, curr: Packet? := null, head;
      k := 0;
      while curr.prio <= p.prio
        invariant k < |nodes| && curr == nodes[k]
        invariant prev == if k == 0 then null else nodes[k - 1]
        invariant forall i | 0 <= i < k :: nodes[i].prio <= p.prio
        decreases |nodes| - k
      {
        assert Link(nodes, k);
        prev := curr;
        curr := curr.next;
        k := k + 1;
      }
      ghost var ns := nodes;
      TotalSizeInsert(ns, k, p);
      DistinctInsert(ns, k, p);
      len := len + 1;
      bytes := bytes + p.size;
      if prev != null {
        prev.next := p;
      } else {
        head := p;
      }
      p.next := curr;
      forall i | 0 <= i < |ns| && i != k - 1 ensures Link(ns, i) {
        assert ns[i] != p && ns[i] != prev && old(Link(ns, i));
      }
      LinkedInsert(ns, k, p);
      nodes := ns[..k] + [p] + ns[k..];
    }

    // Removes the packet at the head.
    method RemoveHead() returns (p: Packet)
      requires Valid() && nodes != []
      modifies this
      ensures Valid() && p == old(nodes)[0] && nodes == old(nodes)[1..]
      ensures HeadersOf(nodes) == HeadersOf(old(nodes))[1..]
    {
      LinkedTail(nodes);
      assert Link(nodes, 0);
      p := head;
      head := p.next;
      if head == null {
        tail := null;
      }
      len := len - 1;
      bytes := bytes - p.size;
      nodes := nodes[1..];
    }
  }

  ghost function TotalSize(ps: seq<Packet>): nat {
    if ps == [] then 0 else ps[0].size + TotalSize(ps[1..])
  }

  lemma {:induction false} TotalSizeInsert(ps: seq<Packet>, k: nat, p: Packet)
    requires k <= |ps|
    ensures TotalSize(ps[..k] + [p] + ps[k..]) == TotalSize(ps) + p.size
  {
    var r := ps[..k] + [p] + ps[k..];
    if k == 0 {
      assert r[1..] == ps;
    } else {
      assert r[1..] == ps[1..][..k - 1] + [p] + ps[1..][k - 1..];
      TotalSizeInsert(ps[1..], k - 1, p);
    }
  }
}
