// Whole runs of a sender: packets arrive and bursts are sent in any order and size.
module RleChannel {
  import opened Optional
  import opened RleFormat
  import opened PrioFid
  import opened RleSender
  import opened RleReceiver
  import opened RleLossy

  datatype Event = Arrive(h: Hdr) | Slot(bs: nat)

  // wire lists every fragment sent, arrived every packet accepted by the queue.
  datatype Sender = Sender(q: seq<Hdr>, next: seq<nat>, wire: seq<Frag>, arrived: seq<Hdr>)

  // Packets come from init_packet; a burst has room for a fragment header.
  ghost predicate ValidEvent(e: Event) {
    match e
    case Arrive(h) => WholeHdr(h)
    case Slot(bs) => FHS <= bs
  }

  ghost predicate ValidEvents(es: seq<Event>) {
    forall k | 0 <= k < |es| :: ValidEvent(es[k])
  }

  ghost function Act(s: Sender, e: Event): (s': Sender)
    requires ValidSender(s.q, s.next) && ValidEvent(e)
    ensures ValidSender(s'.q, s'.next)
  {
    match e
    case Arrive(h) =>
      InsertKeeps(s.q, s.next, h);
      s.(q := Insert(s.q, h), arrived := s.arrived + [h])
    case Slot(bs) =>
      var r := Fill(s.q, s.next, bs);
      s.(q := r.q, next := r.next, wire := s.wire + r.frags)
  }

  ghost function Run(es: seq<Event>): (s: Sender)
    requires ValidEvents(es)
    ensures ValidSender(s.q, s.next)
  {
    if es == [] then Sender([], seq(8, i => 0), [], [])
    else Act(Run(es[..|es| - 1]), es[|es| - 1])
  }

  // ---------- The sender keeps to the grammar ----------

  // The stream of fid so far is accepted, ending where the queue says the sender is.
  ghost predicate OnTrack(s: Sender, fid: nat, n: nat)
    requires fid < 8
  {
    |s.next| == 8 && s.next[fid] == n % 256 && TxRun(Idle(0), OnFid(s.wire, fid)) == Some(TxOf(s.q, fid, n))
  }

  lemma {:induction false} PartSentSplit(a: seq<Hdr>, b: seq<Hdr>, fid: nat)
    ensures PartSent(a + b, fid) == if PartSent(a, fid).Some? then PartSent(a, fid) else PartSent(b, fid)
  {
    if a == [] {
      assert a + b == b;
    } else {
      assert (a + b)[1..] == a[1..] + b;
      PartSentSplit(a[1..], b, fid);
    }
  }

  lemma ArrivalKeepsPartSent(q: seq<Hdr>, h: Hdr, fid: nat)
    requires WholeHdr(h)
    ensures PartSent(Insert(q, h), fid) == PartSent(q, fid)
  {
    var k := FirstAbove(q, h.prio);
    PartSentSplit(q[..k] + [h], q[k..], fid);
    PartSentSplit(q[..k], [h], fid);
    PartSentSplit(q[..k], q[k..], fid);
    assert PartSent([h], fid) == PartSent([h][1..], fid) == None;
    assert q == q[..k] + q[k..];
  }

  lemma {:induction false} RunOnTrack(es: seq<Event>, fid: nat) returns (n: nat)
    requires ValidEvents(es) && fid < 8
    ensures OnTrack(Run(es), fid, n)
  {
    if es == [] {
      n := 0;
    } else {
      var s := Run(es[..|es| - 1]);
      n := RunOnTrack(es[..|es| - 1], fid);
      match es[|es| - 1]
      case Arrive(h) =>
        ArrivalKeepsPartSent(s.q, h, fid);
      case Slot(bs) =>
        var m := n;
        n := FillContinues(s.q, s.next, bs, fid, m);
        var r := Fill(s.q, s.next, bs);
        OnFidAppend(s.wire, r.frags, fid);
        TxRunAppend(Idle(0), OnFid(s.wire, fid), OnFid(r.frags, fid));
    }
  }

  // Every packet that came has left on the wire or is still queued, in the order of
  // arrival.
  ghost predicate Conserved(s: Sender, fid: nat) {
    Uids(OfPrio(s.arrived, fid)) == Ends(OnFid(s.wire, fid)) + Uids(OfPrio(s.q, fid))
  }

  lemma ArrivalConserves(s: Sender, h: Hdr, fid: nat)
    requires ValidSender(s.q, s.next) && WholeHdr(h) && Conserved(s, fid)
    ensures Conserved(Act(s, Arrive(h)), fid)
  {
    InsertIsStable(s.q, h, fid);
    AroundInsert(s.arrived, h, [], fid);
    assert s.arrived + [h] + [] == s.arrived + [h];
    var more := if fid == h.prio then [h] else [];
    UidsAppend(OfPrio(s.q, fid), more);
    UidsAppend(OfPrio(s.arrived, fid), more);
    assert OfPrio(s.arrived + [h], fid) == OfPrio(s.arrived, fid) + more;
    var ends, waiting := Ends(OnFid(s.wire, fid)), Uids(OfPrio(s.q, fid));
    assert (ends + waiting) + Uids(more) == ends + (waiting + Uids(more));
  }

  lemma SlotConserves(s: Sender, bs: nat, fid: nat)
    requires ValidSender(s.q, s.next) && FHS <= bs && Conserved(s, fid)
    ensures Conserved(Act(s, Slot(bs)), fid)
  {
    var r := Fill(s.q, s.next, bs);
    FillCompletes(s.q, s.next, bs, fid);
    OnFidAppend(s.wire, r.frags, fid);
    EndsAppend(OnFid(s.wire, fid), OnFid(r.frags, fid));
  }

  lemma {:induction false} RunConserves(es: seq<Event>, fid: nat)
    requires ValidEvents(es)
    ensures Conserved(Run(es), fid)
  {
    if es != [] {
      RunConserves(es[..|es| - 1], fid);
      match es[|es| - 1]
      case Arrive(h) => ArrivalConserves(Run(es[..|es| - 1]), h, fid);
      case Slot(bs) => SlotConserves(Run(es[..|es| - 1]), bs, fid);
    }
  }

  lemma {:induction false} UidsAppend(a: seq<Hdr>, b: seq<Hdr>)
    ensures Uids(a + b) == Uids(a) + Uids(b)
  {
    if a == [] {
      assert a + b == b;
    } else {
      assert (a + b)[1..] == a[1..] + b;
      UidsAppend(a[1..], b);
    }
  }

  // ---------- Bursts ----------

  // Every burst of a run adds to the wire fragments that fill it, unless the queue runs
  // empty, and no fragment begun with too little room; best priorities go first.
  lemma EveryBurst(es: seq<Event>, bs: nat) returns (fs: seq<Frag>)
    requires ValidEvents(es) && FHS <= bs
    ensures ValidEvents(es + [Slot(bs)]) && Run(es + [Slot(bs)]).wire == Run(es).wire + fs
    ensures StopsInTime(fs, bs) && (Carried(fs) + FHS + PHS <= bs ==> Run(es + [Slot(bs)]).q == [])
    ensures ByPriority(fs, Run(es + [Slot(bs)]).q)
  {
    var s := Run(es);
    assert (es + [Slot(bs)])[..|es|] == es;
    fs := Fill(s.q, s.next, bs).frags;
    PackingIsExact(s.q, s.next, bs);
    FillStopsInTime(s.q, s.next, bs);
    FillByPriority(s.q, s.next, bs);
  }

  // ---------- Overhead ----------

  lemma WaitsOn(arrived: seq<Hdr>, more: seq<Hdr>, h: Hdr)
    requires Waits(arrived, h)
    ensures Waits(arrived + more, h)
  {
    var a :| a in arrived && h.uid == a.uid && h.prio == a.prio && h.size == a.size;
    assert a in arrived + more;
  }

  lemma CountedOn(arrived: seq<Hdr>, more: seq<Hdr>, f: Frag)
    requires CountedOnce(arrived, f)
    ensures CountedOnce(arrived + more, f)
  {
    var a :| a in arrived && f.uid == a.uid && f.fid == a.prio &&
      f.total == a.size + if f.flags == Flags(true, true) then 0 else PHS + TS;
    assert a in arrived + more;
  }

  ghost predicate OverheadCounted(s: Sender) {
    AllCounted(s.arrived, s.wire) && AllWait(s.arrived, s.q)
  }

  lemma ArrivalCounts(s: Sender, h: Hdr)
    requires ValidSender(s.q, s.next) && WholeHdr(h) && OverheadCounted(s)
    ensures OverheadCounted(Act(s, Arrive(h)))
  {
    var s' := Act(s, Arrive(h));
    forall i | 0 <= i < |s'.q| ensures Waits(s'.arrived, s'.q[i]) {
      var k := FirstAbove(s.q, h.prio);
      if i == k {
        assert h in s'.arrived;
      } else {
        var j := if i < k then i else i - 1;
        assert s'.q[i] == s.q[j];
        WaitsOn(s.arrived, [h], s.q[j]);
      }
    }
    forall i | 0 <= i < |s'.wire| ensures CountedOnce(s'.arrived, s'.wire[i]) {
      CountedOn(s.arrived, [h], s.wire[i]);
    }
  }

  // Every fragment ever sent carries bytes of a packet that arrived, whose total length is
  // its size, plus the overhead of fragmentation, once, if it is split.
  lemma {:induction false} OverheadOnce(es: seq<Event>)
    requires ValidEvents(es)
    ensures OverheadCounted(Run(es))
  {
    if es != [] {
      var s := Run(es[..|es| - 1]);
      OverheadOnce(es[..|es| - 1]);
      match es[|es| - 1]
      case Arrive(h) => ArrivalCounts(s, h);
      case Slot(bs) => FillCounts(s.q, s.next, bs, s.arrived);
    }
  }

  // ---------- Round trip ----------

  // For any arrivals, priorities and burst sizes, over a lossless channel: the packets of
  // a priority that have arrived are those the receiver has sent up, in order, followed
  // by those still queued.
  lemma RoundTrip(es: seq<Event>, fid: nat, len: nat)
    requires ValidEvents(es) && fid < 8
    ensures var s := Run(es);
            Uids(OfPrio(s.arrived, fid)) == RxRun(Ctx(None, 0, len), OnFid(s.wire, fid)).1 + Uids(OfPrio(s.q, fid))
  {
    var s := Run(es);
    var n := RunOnTrack(es, fid);
    LosslessDelivery(Idle(0), Ctx(None, 0, len), OnFid(s.wire, fid));
    RunConserves(es, fid);
  }

  // The receiver mirrors the sender: after all fragments so far, its context expects the
  // sender's counter and holds the sender's part-sent packet with the bytes already sent.
  lemma ReceiverMirrorsSender(es: seq<Event>, fid: nat, len: nat)
    requires ValidEvents(es) && fid < 8
    ensures var s := Run(es); var c := RxRun(Ctx(None, 0, len), OnFid(s.wire, fid)).0;
            && c.exp == s.next[fid]
            && match PartSent(s.q, fid)
               case None => c.pkt == None
               case Some(h) => c.pkt == Some(h.uid) && c.len == h.total - h.psize
  {
    var s := Run(es);
    var n := RunOnTrack(es, fid);
    LosslessDelivery(Idle(0), Ctx(None, 0, len), OnFid(s.wire, fid));
  }

  // ---------- Losses ----------

  lemma {:induction false} TxAtIsTxRun(fs: seq<Frag>, k: nat)
    requires k <= |fs|
    ensures TxAt(fs, k) == TxRun(Idle(0), fs[..k])
  {
    if k > 0 {
      TxAtIsTxRun(fs, k - 1);
      assert fs[..k] == fs[..k - 1] + [fs[k - 1]];
      if TxRun(Idle(0), fs[..k - 1]).Some? {
        TxRunAppend(Idle(0), fs[..k - 1], [fs[k - 1]]);
        assert [fs[k - 1]][1..] == [];
      } else {
        TxRunFails(Idle(0), fs[..k - 1], [fs[k - 1]]);
      }
    }
  }

  lemma {:induction false} TxRunFails(tx: Tx, fs: seq<Frag>, gs: seq<Frag>)
    requires TxRun(tx, fs) == None
    ensures TxRun(tx, fs + gs) == None
    decreases fs
  {
    assert (fs + gs)[0] == fs[0] && (fs + gs)[1..] == fs[1..] + gs;
    if TxNext(tx, fs[0]).Some? {
      TxRunFails(TxNext(tx, fs[0]).value, fs[1..], gs);
    }
  }

  // The stream of every frag_id of every run is one to which the results on lost
  // fragments apply.
  lemma RunStreamIsValid(es: seq<Event>, fid: nat)
    requires ValidEvents(es) && fid < 8
    ensures ValidStream(OnFid(Run(es).wire, fid))
  {
    var fs := OnFid(Run(es).wire, fid);
    var n := RunOnTrack(es, fid);
    forall k | 0 <= k <= |fs| ensures TxAt(fs, k).Some? {
      TxAtIsTxRun(fs, k);
      if TxRun(Idle(0), fs[..k]) == None {
        assert fs == fs[..k] + fs[k..];
        TxRunFails(Idle(0), fs[..k], fs[k..]);
      }
    }
  }

  // ---------- A loss that leaves the receiver without a packet ----------

  // A packet of 7 bytes leaves in bursts of 6, 4 and 6 bytes, one of 9 bytes in bursts of
  // 10 and 6.
  ghost function TwoPackets(): seq<Event> {
    [Arrive(Hdr(1, 0, 7, 7, Flags(true, true), 7)), Slot(6), Slot(4), Slot(6),
     Arrive(Hdr(2, 0, 9, 9, Flags(true, true), 9)), Slot(10), Slot(6)]
  }

  ghost function TheirFragments(): seq<Frag> {
    [Frag(Flags(true, false), 4, 0, 0, 1, 10), Frag(Flags(false, false), 2, 0, 0, 1, 10),
     Frag(Flags(false, true), 4, 0, 0, 1, 10), Frag(Flags(true, false), 8, 0, 0, 2, 12),
     Frag(Flags(false, true), 4, 0, 1, 2, 12)]
  }

  // The sender with what it still needs to know of its past.
  ghost predicate At(es: seq<Event>, q: seq<Hdr>, next: seq<nat>, wire: seq<Frag>) {
    ValidEvents(es) && Run(es).q == q && Run(es).next == next && Run(es).wire == wire
  }

  lemma ArriveAlone(es: seq<Event>, h: Hdr, next: seq<nat>, wire: seq<Frag>)
    requires At(es, [], next, wire) && WholeHdr(h)
    ensures At(es + [Arrive(h)], [h], next, wire)
  {
    assert (es + [Arrive(h)])[..|es|] == es;
    assert Insert([], h) == [h];
  }

  // A burst that the one packet queued does not fit.
  lemma CutAlone(es: seq<Event>, h: Hdr, next: seq<nat>, wire: seq<Frag>, bs: nat)
    requires At(es, [h], next, wire) && (WholeHdr(h) || PartHdr(h)) && FHS <= bs < h.psize + FHS
    ensures At(es + [Slot(bs)], [Cut(h, bs - FHS).0], next, wire + [Cut(h, bs - FHS).1])
  {
    assert (es + [Slot(bs)])[..|es|] == es;
    assert [h][1..] == [];
  }

  // A burst that it fills.
  lemma RestAlone(es: seq<Event>, h: Hdr, next: seq<nat>, wire: seq<Frag>)
    requires At(es, [h], next, wire) && (WholeHdr(h) || PartHdr(h))
    ensures |next| == 8 && At(es + [Slot(h.psize + FHS)], [], Bump(next, h), wire + [Rest(h, next[h.prio])])
  {
    assert (es + [Slot(h.psize + FHS)])[..|es|] == es;
    assert [h][1..] == [];
  }

  lemma FirstPacketBegins() returns (es: seq<Event>)
    ensures es == TwoPackets()[..2]
    ensures At(es, [Hdr(1, 0, 7, 10, Flags(false, false), 6)], [0, 0, 0, 0, 0, 0, 0, 0], TheirFragments()[..1])
  {
    var zero := [0, 0, 0, 0, 0, 0, 0, 0];
    var h := Hdr(1, 0, 7, 7, Flags(true, true), 7);
    assert seq(8, i => 0) == zero;
    ArriveAlone([], h, zero, []);
    CutAlone([] + [Arrive(h)], h, zero, [], 6);
    es := [] + [Arrive(h)] + [Slot(6)];
    assert [] + [Cut(h, 4).1] == TheirFragments()[..1];
  }

  lemma FirstPacketLeaves() returns (es: seq<Event>)
    ensures es == TwoPackets()[..4] && At(es, [], [1, 0, 0, 0, 0, 0, 0, 0], TheirFragments()[..3])
  {
    var fs := TheirFragments();
    var zero := [0, 0, 0, 0, 0, 0, 0, 0];
    var h := Hdr(1, 0, 7, 10, Flags(false, false), 6);
    var es0 := FirstPacketBegins();
    CutAlone(es0, h, zero, fs[..1], 4);
    var h1, es1 := Cut(h, 2).0, es0 + [Slot(4)];
    assert fs[..1] + [Cut(h, 2).1] == fs[..2];
    RestAlone(es1, h1, zero, fs[..2]);
    es := es1 + [Slot(6)];
    assert fs[..2] + [Rest(h1, 0)] == fs[..3];
  }

  lemma SecondPacketLeaves() returns (es: seq<Event>)
    ensures es == TwoPackets() && ValidEvents(es) && Run(es).wire == TheirFragments()
  {
    var fs := TheirFragments();
    var one := [1, 0, 0, 0, 0, 0, 0, 0];
    var h := Hdr(2, 0, 9, 9, Flags(true, true), 9);
    var es0 := FirstPacketLeaves();
    ArriveAlone(es0, h, one, fs[..3]);
    var es1 := es0 + [Arrive(h)];
    CutAlone(es1, h, one, fs[..3], 10);
    var h1, es2 := Cut(h, 8).0, es1 + [Slot(10)];
    assert fs[..3] + [Cut(h, 8).1] == fs[..4];
    RestAlone(es2, h1, one, fs[..4]);
    es := es2 + [Slot(6)];
    assert fs[..4] + [Rest(h1, 1)] == fs;
  }

  lemma {:induction false} AllOnFid(fs: seq<Frag>, fid: nat)
    requires forall i | 0 <= i < |fs| :: fs[i].fid == fid
    ensures OnFid(fs, fid) == fs
  {
    if fs != [] {
      AllOnFid(fs[1..], fid);
    }
  }

  // If of what a sender writes the middle of the first packet and the first fragment of
  // the second are lost, the last fragment of the second reaches the accept branch with no
  // packet held: the first packet was dropped but its bytes stayed counted, and they make
  // up for those lost.
  lemma AcceptWithoutPacket(len: nat)
    ensures ValidEvents(TwoPackets())
    ensures var fs, ok := OnFid(Run(TwoPackets()).wire, 0), [true, false, true, false, true];
            |fs| == 5 && ValidStream(fs) && ShortGaps(fs, ok) && OutcomeAt(len, fs, ok, 4) == NoPacket
  {
    var es := SecondPacketLeaves();
    AllOnFid(TheirFragments(), 0);
    RunStreamIsValid(es, 0);
    FragmentsAddUp(len);
  }

  lemma FragmentsAddUp(len: nat)
    ensures var fs, ok := TheirFragments(), [true, false, true, false, true];
            |fs| == 5 && ShortGaps(fs, ok) && OutcomeAt(len, fs, ok, 4) == NoPacket
  {
    var fs, ok := TheirFragments(), [true, false, true, false, true];
    assert TxAt(fs, 1) == Some(Mid(0, 1, 10, 4));
    assert TxAt(fs, 2) == Some(Mid(0, 1, 10, 6));
    assert TxAt(fs, 3) == Some(Idle(1));
    assert TxAt(fs, 4) == Some(Mid(1, 2, 12, 8));
    assert CtxAt(len, fs, ok, 1) == Ctx(Some(1), 0, 4);
    assert CtxAt(len, fs, ok, 2) == Ctx(Some(1), 0, 4);
    assert RxNext(Ctx(Some(1), 0, 4), fs[2]).0 == Ctx(None, 1, 8);
    assert CtxAt(len, fs, ok, 3) == Ctx(None, 1, 8);
    assert CtxAt(len, fs, ok, 4) == Ctx(None, 1, 8);
  }
}
