// ATM segmentation and reassembly: packets cut into cells, one buffer shared by all
// virtual circuits, and what loss does.
module Atm {
  const ATM_TRL_LEN: nat := 8
  const ATM_PRIO_NO: nat := 8

  datatype Pkt = Pkt(uid: nat, size: nat)

  // A cell of circuit vc; last is the pt bit, pkt the packet it was cut from.
  datatype Cell = Cell(vc: nat, last: bool, pkt: Pkt)

  // Cells a packet takes, with the trailer.
  function Frags(size: nat): (n: nat)
    ensures n >= 1 && 48 * (n - 1) < size + 8 <= 48 * n
  {
    (size + ATM_TRL_LEN + 47) / 48
  }

  function Address(id: nat, flow: nat): nat {
    id * ATM_PRIO_NO + flow
  }

  // Circuits of different senders or flows are kept apart for flows below ATM_PRIO_NO, and
  // for no larger range.
  lemma AddressesAreDistinct(flows: nat)
    ensures flows <= 8 <==>
              forall id: nat, flow: nat, id': nat, flow': nat | flow < flows && flow' < flows &&
                     Address(id, flow) == Address(id', flow') ::
                id == id' && flow == flow'
  {
    if flows > ATM_PRIO_NO {
      assert Address(0, ATM_PRIO_NO) == Address(1, 0);
    }
  }

  // The cells of a packet on a circuit.
  function Cells(vc: nat, p: Pkt): (cs: seq<Cell>)
    ensures |cs| == Frags(p.size)
    ensures forall i | 0 <= i < |cs| :: cs[i] == Cell(vc, i == |cs| - 1, p)
  {
    seq(Frags(p.size), i => Cell(vc, i == Frags(p.size) - 1, p))
  }

  // ---------- The reassembly buffer ----------

  // Cells of a circuit, and the others, in order.
  function OfVc(cs: seq<Cell>, vc: nat): (ds: seq<Cell>) {
    if cs == [] then []
    else OfVc(cs[..|cs| - 1], vc) + if cs[|cs| - 1].vc == vc then [cs[|cs| - 1]] else []
  }

  function Without(cs: seq<Cell>, vc: nat): (ds: seq<Cell>) {
    if cs == [] then []
    else Without(cs[..|cs| - 1], vc) + if cs[|cs| - 1].vc == vc then [] else [cs[|cs| - 1]]
  }

  // sendUp: a cell that is not the last of its packet is put in front of the buffer; a
  // last one clears its circuit and is sent up as the packet if the cells add up.
  function RxNext(buffer: seq<Cell>, c: Cell): (r: (seq<Cell>, seq<Pkt>)) {
    if !c.last then ([c] + buffer, [])
    else (Without(buffer, c.vc), if |OfVc(buffer, c.vc)| + 1 == Frags(c.pkt.size) then [c.pkt] else [])
  }

  datatype Delivery = Delivery(vc: nat, pkt: Pkt)

  function Tagged(vc: nat, ps: seq<Pkt>): (ds: seq<Delivery>)
    requires |ps| <= 1
  {
    if ps == [] then [] else [Delivery(vc, ps[0])]
  }

  // A stream of cells of all circuits.
  function RxRun(buffer: seq<Cell>, cs: seq<Cell>): (r: (seq<Cell>, seq<Delivery>)) {
    if cs == [] then (buffer, [])
    else
      var c := cs[|cs| - 1];
      var (b, ds) := RxRun(buffer, cs[..|cs| - 1]);
      var (b', ps) := RxNext(b, c);
      (b', ds + Tagged(c.vc, ps))
  }

  ghost function On(ds: seq<Delivery>, vc: nat): (ps: seq<Pkt>) {
    if ds == [] then []
    else On(ds[..|ds| - 1], vc) + if ds[|ds| - 1].vc == vc then [ds[|ds| - 1].pkt] else []
  }

  lemma OnTagged(ds: seq<Delivery>, vc': nat, ps: seq<Pkt>, vc: nat)
    requires |ps| <= 1
    ensures On(ds + Tagged(vc', ps), vc) == On(ds, vc) + if vc' == vc then ps else []
  {
    if ps == [] {
      assert ds + Tagged(vc', ps) == ds;
    } else {
      assert (ds + Tagged(vc', ps))[..|ds|] == ds;
    }
  }

  lemma {:induction false} OfVcAppend(cs: seq<Cell>, ds: seq<Cell>, vc: nat)
    ensures OfVc(cs + ds, vc) == OfVc(cs, vc) + OfVc(ds, vc)
  {
    if ds == [] {
      assert cs + ds == cs;
    } else {
      assert (cs + ds)[..|cs + ds| - 1] == cs + ds[..|ds| - 1];
      OfVcAppend(cs, ds[..|ds| - 1], vc);
    }
  }

  // Clearing a circuit takes away its cells, and only those.
  lemma {:induction false} WithoutIsExact(cs: seq<Cell>, vc: nat, other: nat)
    ensures OfVc(Without(cs, vc), other) == if other == vc then [] else OfVc(cs, other)
    ensures |Without(cs, vc)| + |OfVc(cs, vc)| == |cs|
  {
    if cs != [] {
      var n := |cs| - 1;
      WithoutIsExact(cs[..n], vc, other);
      var d := if cs[n].vc == vc then [] else [cs[n]];
      OfVcAppend(Without(cs[..n], vc), d, other);
      assert OfVc(d, other) == if cs[n].vc != vc && cs[n].vc == other then [cs[n]] else [] by {
        assert d != [] ==> d[..0] == [];
      }
    }
  }

  // ---------- One circuit ----------

  // All that matters of a circuit is how many of its cells are buffered.
  function VcNext(n: nat, c: Cell): (r: (nat, seq<Pkt>)) {
    if !c.last then (n + 1, [])
    else (0, if n + 1 == Frags(c.pkt.size) then [c.pkt] else [])
  }

  function VcRun(n: nat, cs: seq<Cell>): (r: (nat, seq<Pkt>)) {
    if cs == [] then (n, [])
    else
      var (m, ps) := VcRun(n, cs[..|cs| - 1]);
      var (m', qs) := VcNext(m, cs[|cs| - 1]);
      (m', ps + qs)
  }

  lemma {:induction false} VcRunAppend(n: nat, cs: seq<Cell>, ds: seq<Cell>)
    ensures var (m, ps) := VcRun(n, cs); var (l, qs) := VcRun(m, ds); VcRun(n, cs + ds) == (l, ps + qs)
  {
    var (m, ps) := VcRun(n, cs);
    if ds == [] {
      assert cs + ds == cs && ps + [] == ps;
    } else {
      var k := |ds| - 1;
      assert (cs + ds)[..|cs| + k] == cs + ds[..k];
      VcRunAppend(n, cs, ds[..k]);
      var (l, qs) := VcRun(m, ds[..k]);
      assert ps + (qs + VcNext(l, ds[k]).1) == (ps + qs) + VcNext(l, ds[k]).1;
    }
  }

  // The circuits do not interfere, although they share the buffer.
  lemma {:induction false} CircuitsAreSeparate(buffer: seq<Cell>, cs: seq<Cell>, vc: nat)
    ensures var (b, ds) := RxRun(buffer, cs);
            (|OfVc(b, vc)|, On(ds, vc)) == VcRun(|OfVc(buffer, vc)|, OfVc(cs, vc))
  {
    if cs != [] {
      var n := |cs| - 1;
      CircuitsAreSeparate(buffer, cs[..n], vc);
      var (b, ds) := RxRun(buffer, cs[..n]);
      OneMoreCell(|OfVc(buffer, vc)|, OfVc(cs[..n], vc), cs[n], vc);
      CellOnCircuit(b, ds, cs[n], vc);
    }
  }

  lemma CellOnCircuit(b: seq<Cell>, ds: seq<Delivery>, c: Cell, vc: nat)
    ensures var (b', ps) := RxNext(b, c);
            (|OfVc(b', vc)|, On(ds + Tagged(c.vc, ps), vc)) ==
            if c.vc == vc then (VcNext(|OfVc(b, vc)|, c).0, On(ds, vc) + VcNext(|OfVc(b, vc)|, c).1)
            else (|OfVc(b, vc)|, On(ds, vc))
  {
    var ps := RxNext(b, c).1;
    OnTagged(ds, c.vc, ps, vc);
    assert On(ds, vc) + [] == On(ds, vc);
    if c.last {
      WithoutIsExact(b, c.vc, vc);
    } else {
      PushedCell(b, c, vc);
    }
  }

  lemma PushedCell(b: seq<Cell>, c: Cell, vc: nat)
    ensures |OfVc([c] + b, vc)| == |OfVc(b, vc)| + if c.vc == vc then 1 else 0
  {
    OfVcAppend([c], b, vc);
    assert [c][..0] == [];
  }

  lemma OneMoreCell(n: nat, own: seq<Cell>, c: Cell, vc: nat)
    ensures var (m, ps) := VcRun(n, own);
            VcRun(n, own + if c.vc == vc then [c] else []) ==
            if c.vc == vc then (VcNext(m, c).0, ps + VcNext(m, c).1) else (m, ps)
  {
    if c.vc == vc {
      assert (own + [c])[..|own|] == own;
    } else {
      assert own + [] == own;
    }
  }

  // The cells of packets one after another.
  ghost function Stream(vc: nat, ps: seq<Pkt>): (cs: seq<Cell>) {
    if ps == [] then [] else Stream(vc, ps[..|ps| - 1]) + Cells(vc, ps[|ps| - 1])
  }

  lemma {:induction false} CellsPrefix(n: nat, vc: nat, p: Pkt, k: nat)
    requires k < Frags(p.size)
    ensures VcRun(n, Cells(vc, p)[..k]) == (n + k, [])
  {
    var cs := Cells(vc, p)[..k];
    if k > 0 {
      CellsPrefix(n, vc, p, k - 1);
      assert cs[..k - 1] == Cells(vc, p)[..k - 1];
      assert cs[k - 1] == Cell(vc, false, p);
      assert VcRun(n, cs).1 == [] + [];
    }
  }

  // A packet received whole leaves its circuit clean, and is sent up exactly when the
  // circuit was clean before.
  lemma WholePacket(n: nat, vc: nat, p: Pkt)
    ensures VcRun(n, Cells(vc, p)) == (0, if n == 0 then [p] else [])
  {
    var k := Frags(p.size) - 1;
    CellsPrefix(n, vc, p, k);
    assert Cells(vc, p)[k] == Cell(vc, true, p);
    assert [] + VcNext(n + k, Cells(vc, p)[k]).1 == VcNext(n + k, Cells(vc, p)[k]).1;
  }

  lemma {:induction false} StreamDelivers(vc: nat, ps: seq<Pkt>)
    ensures VcRun(0, Stream(vc, ps)) == (0, ps)
  {
    if ps != [] {
      var n := |ps| - 1;
      StreamDelivers(vc, ps[..n]);
      WholePacket(0, vc, ps[n]);
      VcRunAppend(0, Stream(vc, ps[..n]), Cells(vc, ps[n]));
      assert ps[..n] + [ps[n]] == ps;
    }
  }

  // In any interleaving of circuits in which the cells of one are those of packets ps, in
  // order, exactly these packets are delivered on it, in order and with their sizes.
  lemma RoundTrip(cs: seq<Cell>, vc: nat, ps: seq<Pkt>)
    requires OfVc(cs, vc) == Stream(vc, ps)
    ensures On(RxRun([], cs).1, vc) == ps && OfVc(RxRun([], cs).0, vc) == []
  {
    CircuitsAreSeparate([], cs, vc);
    StreamDelivers(vc, ps);
  }

  // From any buffer at all, the last cell of a packet leaves its circuit clean: the
  // packets that follow are delivered whatever the other circuits do.
  lemma Recovery(buffer: seq<Cell>, c: Cell, cs: seq<Cell>, ps: seq<Pkt>)
    requires c.last && OfVc(cs, c.vc) == Stream(c.vc, ps)
    ensures On(RxRun(RxNext(buffer, c).0, cs).1, c.vc) == ps
  {
    WithoutIsExact(buffer, c.vc, c.vc);
    CircuitsAreSeparate(Without(buffer, c.vc), cs, c.vc);
    StreamDelivers(c.vc, ps);
  }

  // ---------- Loss ----------

  // got[k][i] holds when cell i of packet k arrives.
  ghost predicate Losses(ps: seq<Pkt>, got: seq<seq<bool>>) {
    |got| == |ps| && forall k | 0 <= k < |ps| :: |got[k]| == Frags(ps[k].size)
  }

  ghost function Kept(cs: seq<Cell>, got: seq<bool>): (ds: seq<Cell>)
    requires |got| == |cs|
  {
    if cs == [] then []
    else Kept(cs[..|cs| - 1], got[..|cs| - 1]) + if got[|cs| - 1] then [cs[|cs| - 1]] else []
  }

  ghost function Surviving(vc: nat, ps: seq<Pkt>, got: seq<seq<bool>>): (cs: seq<Cell>)
    requires Losses(ps, got)
  {
    if ps == [] then []
    else Surviving(vc, ps[..|ps| - 1], got[..|ps| - 1]) + Kept(Cells(vc, ps[|ps| - 1]), got[|ps| - 1])
  }

  ghost function Heard(got: seq<bool>): nat {
    if got == [] then 0 else Heard(got[..|got| - 1]) + if got[|got| - 1] then 1 else 0
  }

  ghost function Missing(got: seq<bool>): nat {
    if got == [] then 0 else Missing(got[..|got| - 1]) + if got[|got| - 1] then 0 else 1
  }

  lemma {:induction false} HeardAndMissing(got: seq<bool>)
    ensures Heard(got) + Missing(got) == |got|
    ensures Missing(got) == 0 <==> forall i | 0 <= i < |got| :: got[i]
  {
    if got != [] {
      HeardAndMissing(got[..|got| - 1]);
    }
  }

  ghost predicate EndHeard(got: seq<bool>) {
    got != [] && got[|got| - 1]
  }

  // Cells of earlier packets still buffered when packet number |got| begins: those that
  // arrived since the last time the end of a packet did.
  ghost function Stale(got: seq<seq<bool>>): nat {
    if got == [] then 0
    else if EndHeard(got[|got| - 1]) then 0
    else Stale(got[..|got| - 1]) + Heard(got[|got| - 1])
  }

  // Packet k is sent up: its end arrives, and as many stale cells are buffered as cells
  // of its own are missing.
  ghost predicate SentUp(got: seq<seq<bool>>, k: nat)
    requires k < |got|
  {
    EndHeard(got[k]) && Stale(got[..k]) == Missing(got[k])
  }

  ghost function PacketsSentUp(ps: seq<Pkt>, got: seq<seq<bool>>, n: nat): (qs: seq<Pkt>)
    requires |got| == |ps| && n <= |ps|
  {
    if n == 0 then [] else PacketsSentUp(ps, got, n - 1) + if SentUp(got, n - 1) then [ps[n - 1]] else []
  }

  lemma {:induction false} KeptPrefix(n: nat, vc: nat, p: Pkt, got: seq<bool>, k: nat)
    requires |got| == Frags(p.size) && k < |got|
    ensures VcRun(n, Kept(Cells(vc, p)[..k], got[..k])) == (n + Heard(got[..k]), [])
  {
    if k > 0 {
      var cs := Cells(vc, p)[..k];
      KeptPrefix(n, vc, p, got, k - 1);
      assert cs[..k - 1] == Cells(vc, p)[..k - 1] && got[..k][..k - 1] == got[..k - 1];
      assert cs[k - 1] == Cell(vc, false, p);
      assert got[..k][k - 1] == got[k - 1];
      LastKept(n, cs, got[..k]);
      assert [] + VcNext(n, cs[k - 1]).1 == [];
    }
  }

  lemma LastKept(n: nat, cs: seq<Cell>, got: seq<bool>)
    requires |got| == |cs| > 0
    ensures var k := |cs| - 1;
            var (m, ps) := VcRun(n, Kept(cs[..k], got[..k]));
            VcRun(n, Kept(cs, got)) == if got[k] then (VcNext(m, cs[k]).0, ps + VcNext(m, cs[k]).1) else (m, ps)
  {
    var k := |cs| - 1;
    var ds := Kept(cs[..k], got[..k]);
    if got[k] {
      assert (ds + [cs[k]])[..|ds|] == ds;
    } else {
      assert ds + [] == ds;
    }
  }

  lemma KeptPacket(n: nat, vc: nat, p: Pkt, got: seq<bool>)
    requires |got| == Frags(p.size)
    ensures VcRun(n, Kept(Cells(vc, p), got)) ==
            if EndHeard(got) then (0, if n == Missing(got) then [p] else []) else (n + Heard(got), [])
  {
    var k := |got| - 1;
    var cs := Cells(vc, p);
    KeptPrefix(n, vc, p, got, k);
    assert cs[..k] == Cells(vc, p)[..k];
    LastKept(n, cs, got);
    HeardAndMissing(got);
    assert cs[k] == Cell(vc, true, p);
    LastCell(n + Heard(got[..k]), cs[k]);
  }

  lemma LastCell(m: nat, c: Cell)
    requires c.last
    ensures VcNext(m, c) == (0, [] + VcNext(m, c).1)
    ensures VcNext(m, c).1 == if m + 1 == Frags(c.pkt.size) then [c.pkt] else []
  {
    assert [] + VcNext(m, c).1 == VcNext(m, c).1;
  }

  lemma {:induction false} SurvivingRun(vc: nat, ps: seq<Pkt>, got: seq<seq<bool>>)
    requires Losses(ps, got)
    ensures VcRun(0, Surviving(vc, ps, got)) == (Stale(got), PacketsSentUp(ps, got, |ps|))
  {
    if ps != [] {
      var n := |ps| - 1;
      SurvivingRun(vc, ps[..n], got[..n]);
      KeptPacket(Stale(got[..n]), vc, ps[n], got[n]);
      VcRunAppend(0, Surviving(vc, ps[..n], got[..n]), Kept(Cells(vc, ps[n]), got[n]));
      SentUpPrefix(ps, got, n);
    }
  }

  lemma {:induction false} SentUpPrefix(ps: seq<Pkt>, got: seq<seq<bool>>, m: nat)
    requires |got| == |ps| && m < |ps|
    ensures PacketsSentUp(ps[..|ps| - 1], got[..|ps| - 1], m) == PacketsSentUp(ps, got, m)
  {
    if m > 0 {
      SentUpPrefix(ps, got, m - 1);
      assert got[..|ps| - 1][..m - 1] == got[..m - 1];
    }
  }

  // Under any loss of cells and any interleaving, the packets delivered on a circuit are
  // those whose end arrives with as many stale cells buffered as they miss.
  lemma DeliveredUnderLoss(cs: seq<Cell>, vc: nat, ps: seq<Pkt>, got: seq<seq<bool>>)
    requires Losses(ps, got) && OfVc(cs, vc) == Surviving(vc, ps, got)
    ensures On(RxRun([], cs).1, vc) == PacketsSentUp(ps, got, |ps|)
  {
    CircuitsAreSeparate([], cs, vc);
    SurvivingRun(vc, ps, got);
  }

  ghost predicate Whole(got: seq<bool>) {
    forall i | 0 <= i < |got| :: got[i]
  }

  // Delivery is exact for a packet, that is, it is delivered if and only if all its cells
  // arrive, when no stale cell is buffered; otherwise only if its end is lost or the
  // cells it misses, at least one, differ in number from the stale ones.
  lemma ExactUnlessStale(got: seq<seq<bool>>, k: nat)
    requires k < |got| && got[k] != []
    ensures (SentUp(got, k) <==> Whole(got[k])) <==>
              Stale(got[..k]) == 0 || !EndHeard(got[k]) || Missing(got[k]) !in {0, Stale(got[..k])}
  {
    HeardAndMissing(got[k]);
  }

  // The end of the packet before is enough to leave nothing stale.
  lemma ExactAfterEnd(got: seq<seq<bool>>, k: nat)
    requires k < |got| && got[k] != [] && (k == 0 || EndHeard(got[k - 1]))
    ensures SentUp(got, k) <==> Whole(got[k])
  {
    ExactUnlessStale(got, k);
    assert k > 0 ==> got[..k][k - 1] == got[k - 1];
  }

  // Exactness can fail: the first packet loses its last cell, the second its first two,
  // and the second is delivered.
  lemma CellsOfTwoPacketsCanAddUp(vc: nat)
    ensures var ps := [Pkt(0, 100), Pkt(1, 150)];
            var got := [[true, true, false], [false, false, true, true]];
            Losses(ps, got) && PacketsSentUp(ps, got, 2) == [Pkt(1, 150)] && !Whole(got[1])
  {
    var ps, got := [Pkt(0, 100), Pkt(1, 150)], [[true, true, false], [false, false, true, true]];
    assert Frags(100) == 3 && Frags(150) == 4;
    assert got[0][..2] == [true, true] && [true, true][..1] == [true] && [true][..0] == [];
    assert got[1][..3] == [false, false, true] && [false, false, true][..2] == [false, false];
    assert [false, false][..1] == [false] && [false][..0] == [];
    assert got[..1] == [got[0]] && [got[0]][..0] == [] && got[..0] == [];
    assert Stale([got[0]]) == 2 && Missing(got[1]) == 2;
    assert SentUp(got, 1) && !SentUp(got, 0);
    assert !got[1][0];
  }
}
