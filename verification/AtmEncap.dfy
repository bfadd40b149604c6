// The ATM encapsulator object: its reassembly buffer is a singly linked list from which a
// last cell unlinks the cells of its circuit in place.
module AtmEncap {
  import opened Atm

  class Packet {
    const addr: nat
    const pt: bool
    const uid: nat
    const length: nat
    var next: Packet?

    constructor (c: Cell)
      ensures AsCell() == c && next == null
    {
      addr, pt, uid, length, next := c.vc, c.last, c.pkt.uid, c.pkt.size, null;
    }

    ghost function AsCell(): Cell {
      Cell(addr, pt, Pkt(uid, length))
    }
  }

  ghost function CellsOf(ns: seq<Packet>): (cs: seq<Cell>)
    ensures |cs| == |ns| && forall i | 0 <= i < |cs| :: cs[i] == ns[i].AsCell()
  {
    seq(|ns|, i requires 0 <= i < |ns| => ns[i].AsCell())
  }

  ghost predicate Distinct(ns: seq<Packet>) {
    forall i, j | 0 <= i < j < |ns| :: ns[i] != ns[j]
  }

  ghost predicate Link(ns: seq<Packet>, i: nat)
    requires i < |ns|
    reads ns
  {
    ns[i].next == if i + 1 < |ns| then ns[i + 1] else null
  }

  // A list from first: distinct packets, each linked to the one after it.
  ghost predicate List(first: Packet?, ns: seq<Packet>)
    reads ns
  {
    && Distinct(ns) && first == (if ns == [] then null else ns[0])
    && forall i | 0 <= i < |ns| :: Link(ns, i)
  }

  // A list with the packet after its first part taken out.
  lemma ListWithout(kept: seq<Packet>, gone: Packet, rest: seq<Packet>)
    requires Distinct(kept + [gone] + rest)
    requires forall i | 0 <= i < |kept| - 1 :: kept[i].next == kept[i + 1]
    requires kept != [] ==> kept[|kept| - 1].next == if rest == [] then null else rest[0]
    requires forall i | 0 <= i < |rest| :: Link(rest, i)
    ensures List(if kept + rest == [] then null else (kept + rest)[0], kept + rest)
  {
    var all, ns := kept + [gone] + rest, kept + rest;
    forall i, j | 0 <= i < j < |ns| ensures ns[i] != ns[j] {
      assert ns[i] == all[if i < |kept| then i else i + 1] && ns[j] == all[if j < |kept| then j else j + 1];
    }
    forall i | 0 <= i < |ns| ensures Link(ns, i) {
      if i >= |kept| {
        assert Link(rest, i - |kept|);
      }
    }
  }

  class AtmLL {
    const id: nat
    var buffer: Packet?
    ghost var nodes: seq<Packet>
    var sentUp: nat
    var sentDown: nat

    constructor (id: nat)
      ensures Valid() && Buffered() == [] && this.id == id
    {
      this.id, buffer, nodes, sentUp, sentDown := id, null, [], 0, 0;
    }

    ghost predicate Valid()
      reads this, nodes
    {
      List(buffer, nodes)
    }

    ghost function Buffered(): seq<Cell>
      reads this
    {
      CellsOf(nodes)
    }

    // send_frags: all cells of a packet, or none if the queue, with length packets in it,
    // has no room for them.
    method SendFrags(p: Pkt, flow: nat, length: nat, limit: nat) returns (cs: seq<Cell>)
      modifies this`sentDown
      ensures cs == if length + Frags(p.size) >= limit then [] else Cells(Address(id, flow), p)
      ensures sentDown == old(sentDown) + if cs == [] then 0 else 1
    {
      var psize := p.size + ATM_TRL_LEN;
      var frags := (psize + 47) / 48;
      cs := [];
      if length + frags >= limit {
        return;
      }
      sentDown := sentDown + 1;
      var i := 0;
      while i < frags
        invariant i <= frags == Frags(p.size) && cs == Cells(Address(id, flow), p)[..i]
      {
        cs := cs + [Cell(id * ATM_PRIO_NO + flow, i == frags - 1, p)];
        i := i + 1;
      }
    }

    // Number of packets dropped.
    method Reset() returns (dropped: nat)
      requires Valid()
      modifies this
      ensures Valid() && Buffered() == [] && dropped == |old(Buffered())| && sentUp == sentDown == 0
    {
      var p := buffer;
      dropped := 0;
      while p != null
        invariant dropped <= |nodes| && p == if dropped < |nodes| then nodes[dropped] else null
        decreases |nodes| - dropped
      {
        assert Link(nodes, dropped);
        p := p.next;
        dropped := dropped + 1;
      }
      buffer, nodes, sentUp, sentDown := null, [], 0, 0;
    }

    // sendUp.
    method SendUp(p: Packet) returns (ps: seq<Pkt>)
      requires Valid() && p !in nodes
      modifies this, p, nodes
      ensures Valid() && (Buffered(), ps) == RxNext(old(Buffered()), p.AsCell())
      ensures sentUp == old(sentUp) + |ps| && sentDown == old(sentDown)
      ensures forall n | n in nodes :: n == p || n in old(nodes)
    {
      if !p.pt {
        Push(p);
        return [];
      }
      var len := Unlink(p.addr);
      var frags := (p.length + ATM_TRL_LEN + 47) / 48;
      if len == frags {
        sentUp := sentUp + 1;
        return [Pkt(p.uid, p.length)];
      }
      return [];
    }

    method Push(p: Packet)
      requires Valid() && p !in nodes
      modifies this, p
      ensures Valid() && Buffered() == [p.AsCell()] + old(Buffered()) && nodes == [p] + old(nodes)
      ensures sentUp == old(sentUp) && sentDown == old(sentDown)
    {
      p.next := buffer;
      buffer := p;
      ghost var ns := nodes;
      nodes := [p] + nodes;
      forall i | 0 <= i < |nodes| ensures Link(nodes, i) {
        assert i > 0 ==> old(Link(ns, i - 1));
      }
    }

    // Takes the cells of a circuit out of the buffer; one more than their number.
    method Unlink(paddr: nat) returns (len: nat)
      requires Valid()
      modifies this`buffer, this`nodes, nodes
      ensures Valid() && Buffered() == Without(old(Buffered()), paddr)
      ensures len == 1 + |OfVc(old(Buffered()), paddr)|
      ensures forall n | n in nodes :: n in old(nodes)
    {
      ghost var kept;
      len, kept := Sweep(paddr);
      nodes := kept;
    }

    // The loop, which leaves the list kept.
    method Sweep(paddr: nat) returns (len: nat, ghost kept: seq<Packet>)
      requires Valid()
      modifies this`buffer, nodes
      ensures List(buffer, kept) && Swept(nodes, kept, paddr, len)
    {
      len, kept := 1, [];
      var q, qq: Packet? := buffer, null;
      ghost var was, rest := nodes, nodes;
      SweepBegins(nodes, paddr);
      while q != null
        invariant nodes == was && At(q, qq, kept, rest) && Sweeping(was, kept, rest, paddr, len)
        decreases |rest|
      {
        q, qq, len, kept, rest := Visit(q, qq, paddr, len, was, kept, rest);
      }
      SweepEnds(was, kept, paddr, len);
      assert kept + rest == kept;
    }

    // The list is kept + rest; qq is the last packet kept and q the first of the rest.
    ghost predicate At(q: Packet?, qq: Packet?, kept: seq<Packet>, rest: seq<Packet>)
      reads this`buffer, kept + rest
    {
      && List(buffer, kept + rest)
      && q == (if rest == [] then null else rest[0])
      && qq == (if kept == [] then null else kept[|kept| - 1])
    }

    // The loop body.
    method Visit(q: Packet, qq: Packet?, paddr: nat, len: nat, ghost was: seq<Packet>, ghost kept: seq<Packet>,
                 ghost rest: seq<Packet>)
      returns (q': Packet?, qq': Packet?, len': nat, ghost kept': seq<Packet>, ghost rest': seq<Packet>)
      requires rest != [] && At(q, qq, kept, rest) && Sweeping(was, kept, rest, paddr, len)
      modifies this`buffer, was
      ensures nodes == old(nodes)
      ensures At(q', qq', kept', rest') && Sweeping(was, kept', rest', paddr, len') && |rest'| < |rest|
    {
      OneMoreSwept(was, kept, rest, paddr, len);
      rest' := rest[1..];
      if q.addr == paddr {
        DropAfter(q, qq, kept, rest);
        q', qq', len', kept' := q.next, qq, len + 1, kept;
      } else {
        KeepHead(kept, rest);
        assert Link(kept + rest, |kept|);
        q', qq', len', kept' := q.next, q, len, kept + [rest[0]];
      }
    }

    // Unlinks q, which follows qq.
    method DropAfter(q: Packet, qq: Packet?, ghost kept: seq<Packet>, ghost rest: seq<Packet>)
      requires rest != [] && At(q, qq, kept, rest)
      modifies this`buffer, qq
      ensures At(q.next, qq, kept, rest[1..])
    {
      assert Link(kept + rest, |kept|);
      assert kept + rest == kept + [q] + rest[1..];
      if qq == null {
        buffer := q.next;
      } else {
        qq.next := q.next;
      }
      ghost var rest' := rest[1..];
      forall j | 0 <= j < |kept| - 1 ensures kept[j].next == kept[j + 1] {
        assert old(Link(kept + rest, j)) && (kept + rest)[j] != (kept + rest)[|kept| - 1];
      }
      forall j | 0 <= j < |rest'| ensures Link(rest', j) {
        assert old(Link(kept + rest, |kept| + 1 + j)) && (kept + rest)[|kept| + 1 + j] == rest'[j];
        assert qq != null ==> (kept + rest)[|kept| + 1 + j] != (kept + rest)[|kept| - 1];
      }
      ListWithout(kept, q, rest');
    }
  }

  lemma KeepHead(kept: seq<Packet>, rest: seq<Packet>)
    requires rest != []
    ensures (kept + [rest[0]]) + rest[1..] == kept + rest
  {
  }

  // Of the packets visited, those kept are the ones of other circuits, and len is one
  // more than the number of the others.
  ghost predicate Swept(visited: seq<Packet>, kept: seq<Packet>, paddr: nat, len: nat) {
    && CellsOf(kept) == Without(CellsOf(visited), paddr)
    && len == 1 + |OfVc(CellsOf(visited), paddr)|
    && forall n | n in kept :: n in visited
  }

  // The list was, with rest still to be visited.
  ghost predicate Sweeping(was: seq<Packet>, kept: seq<Packet>, rest: seq<Packet>, paddr: nat, len: nat) {
    && |rest| <= |was| && was[|was| - |rest|..] == rest
    && Swept(was[..|was| - |rest|], kept, paddr, len)
  }

  lemma SweepBegins(was: seq<Packet>, paddr: nat)
    ensures Sweeping(was, [], was, paddr, 1) && [] + was == was
  {
    assert was[..0] == [];
  }

  lemma SweepEnds(was: seq<Packet>, kept: seq<Packet>, paddr: nat, len: nat)
    requires Sweeping(was, kept, [], paddr, len)
    ensures Swept(was, kept, paddr, len)
  {
    assert was[..|was|] == was;
  }

  lemma OneMoreSwept(was: seq<Packet>, kept: seq<Packet>, rest: seq<Packet>, paddr: nat, len: nat)
    requires rest != [] && Sweeping(was, kept, rest, paddr, len)
    ensures if rest[0].addr == paddr then Sweeping(was, kept, rest[1..], paddr, len + 1)
            else Sweeping(was, kept + [rest[0]], rest[1..], paddr, len)
    ensures kept != [] ==> kept[|kept| - 1] in was
  {
    var i := |was| - |rest|;
    assert was[i] == rest[0] && was[..i + 1] == was[..i] + [was[i]] && was[i + 1..] == rest[1..];
    var a, b := CellsOf(was[..i]), CellsOf(was[..i + 1]);
    assert b[..|b| - 1] == a && b[|b| - 1] == was[i].AsCell();
    assert CellsOf(kept + [was[i]]) == CellsOf(kept) + [was[i].AsCell()];
    assert kept != [] ==> kept[|kept| - 1] in kept;
  }
}
