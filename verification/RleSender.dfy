// Filling a burst from the head of the queue: values and their properties.
module RleSender {
  import opened Optional
  import opened RleFormat
  import opened PrioFid

  // Queue and sequence counters after a burst, its fragments, and the bytes left over.
  datatype Filled = Filled(q: seq<Hdr>, next: seq<nat>, frags: seq<Frag>, left: nat)

  ghost predicate ValidSender(q: seq<Hdr>, next: seq<nat>) {
    && |next| == 8
    && Sorted(q)
    && (forall i | 0 <= i < |q| :: WholeHdr(q[i]) || PartHdr(q[i]))
    && forall i, j | 0 <= i < j < |q| && PartHdr(q[j]) :: q[i].prio < q[j].prio
  }

  // The packet at the head cut to the room left in the burst.
  function Cut(h: Hdr, room: nat): (r: (Hdr, Frag))
    requires (WholeHdr(h) || PartHdr(h)) && room < h.psize
    ensures PartHdr(r.0) && r.0.prio == h.prio && r.0.uid == h.uid && r.0.size == h.size
  {
    var total := if h.flags.start then h.total + PHS + TS else h.total;
    var psize := if h.flags.start then total else h.psize;
    (h.(total := total, flags := Flags(false, false), psize := psize - room),
     Frag(Flags(h.flags.start, false), room, h.prio, 0, h.uid, total))
  }

  // The fragment carrying all that is left of the packet at the head.
  function Rest(h: Hdr, seqno: nat): Frag {
    Frag(Flags(h.flags.start, true), h.psize, h.prio, if h.flags.start then 0 else seqno, h.uid, h.total)
  }

  function Bump(next: seq<nat>, h: Hdr): (r: seq<nat>)
    requires |next| == 8 && h.prio < 8
    ensures |r| == 8
  {
    if h.flags.start then next else next[h.prio := (next[h.prio] + 1) % 256]
  }

  // The do-while of slotHandler, from a burst with bs bytes of room.
  ghost function Fill(q: seq<Hdr>, next: seq<nat>, bs: nat): (r: Filled)
    requires ValidSender(q, next) && FHS <= bs
    ensures ValidSender(r.q, r.next)
    decreases |q|
  {
    if q == [] then Filled(q, next, [], bs)
    else if bs < q[0].psize + FHS then
      var (h, f) := Cut(q[0], bs - FHS);
      CutKeeps(q, next, h);
      Filled([h] + q[1..], next, [f], 0)
    else
      var f := Rest(q[0], next[q[0].prio]);
      var next' := Bump(next, q[0]);
      var bs' := bs - (q[0].psize + FHS);
      if FHS + PHS <= bs' then
        var r := Fill(q[1..], next', bs');
        r.(frags := [f] + r.frags)
      else Filled(q[1..], next', [f], bs')
  }

  lemma CutKeeps(q: seq<Hdr>, next: seq<nat>, h: Hdr)
    requires ValidSender(q, next) && q != [] && PartHdr(h) && h.prio == q[0].prio
    ensures ValidSender([h] + q[1..], next)
  {
    var r := [h] + q[1..];
    forall i, j | 0 <= i < j < |r| ensures r[i].prio <= r[j].prio && (PartHdr(r[j]) ==> r[i].prio < r[j].prio) {
      assert r[i].prio == q[i].prio && r[j] == q[j];
    }
  }

  lemma InsertKeeps(q: seq<Hdr>, next: seq<nat>, h: Hdr)
    requires ValidSender(q, next) && WholeHdr(h)
    ensures ValidSender(Insert(q, h), next)
  {
    InsertSorted(q, h);
    var k, r := FirstAbove(q, h.prio), Insert(q, h);
    forall i | 0 <= i < |r| ensures WholeHdr(r[i]) || PartHdr(r[i]) {
      InsertedAt(q, h, k, r, i);
    }
    forall i, j | 0 <= i < j < |r| && PartHdr(r[j]) ensures r[i].prio < r[j].prio {
      InsertedAt(q, h, k, r, i);
      InsertedAt(q, h, k, r, j);
    }
  }

  // ---------- Packing ----------

  // Bytes a list of fragments takes up in a burst.
  ghost function Carried(fs: seq<Frag>): nat {
    if fs == [] then 0 else fs[0].len + FHS + Carried(fs[1..])
  }

  // A burst is packed exactly, and room for another fragment is left only when the queue
  // is empty.
  lemma {:induction false} PackingIsExact(q: seq<Hdr>, next: seq<nat>, bs: nat)
    requires ValidSender(q, next) && FHS <= bs
    ensures var r := Fill(q, next, bs);
            && Carried(r.frags) + r.left == bs
            && (FHS + PHS <= r.left ==> r.q == [])
            && (r.frags == [] <==> q == [])
    decreases |q|
  {
    if q != [] && q[0].psize + FHS <= bs {
      var bs' := bs - (q[0].psize + FHS);
      var next' := Bump(next, q[0]);
      var r := Fill(q, next, bs);
      if FHS + PHS <= bs' {
        PackingIsExact(q[1..], next', bs');
        assert r.frags[1..] == Fill(q[1..], next', bs').frags;
      }
    }
  }

  // Every fragment but the first of a burst began with room for two headers left; the
  // burst is over as soon as there is less.
  ghost predicate StopsInTime(fs: seq<Frag>, bs: nat) {
    && (forall i | 0 < i < |fs| :: Carried(fs[..i]) + FHS + PHS <= bs)
    && Carried(fs) <= bs
  }

  lemma {:induction false} FillStopsInTime(q: seq<Hdr>, next: seq<nat>, bs: nat)
    requires ValidSender(q, next) && FHS <= bs
    ensures StopsInTime(Fill(q, next, bs).frags, bs)
    decreases |q|
  {
    PackingIsExact(q, next, bs);
    if q != [] && q[0].psize + FHS <= bs {
      var bs' := bs - (q[0].psize + FHS);
      if FHS + PHS <= bs' {
        var f, rest := Rest(q[0], next[q[0].prio]), Fill(q[1..], Bump(next, q[0]), bs').frags;
        FillStopsInTime(q[1..], Bump(next, q[0]), bs');
        assert Fill(q, next, bs).frags == [f] + rest;
        forall i | 0 < i < |rest| + 1 ensures Carried(([f] + rest)[..i]) + FHS + PHS <= bs {
          assert ([f] + rest)[..i][1..] == rest[..i - 1];
        }
      }
    }
  }

  // In numbers: with 3 bytes left a burst is over, with 4 the next packet begins, and then
  // has 3 bytes of overhead.
  lemma ThreeBytesAreTooFew()
    ensures var q := [Hdr(1, 0, 6, 6, Flags(true, true), 6), Hdr(2, 0, 20, 20, Flags(true, true), 20)];
            var next := [0, 0, 0, 0, 0, 0, 0, 0];
            && ValidSender(q, next)
            && Fill(q, next, 11) == Filled(q[1..], next, [Frag(Flags(true, true), 6, 0, 0, 1, 6)], 3)
            && Fill(q, next, 12).left == 0 && Fill(q, next, 12).q == [Hdr(2, 0, 20, 23, Flags(false, false), 21)]
            && Fill(q, next, 12).frags ==
                 [Frag(Flags(true, true), 6, 0, 0, 1, 6), Frag(Flags(true, false), 2, 0, 0, 2, 23)]
  {
    var q := [Hdr(1, 0, 6, 6, Flags(true, true), 6), Hdr(2, 0, 20, 20, Flags(true, true), 20)];
    assert q[1..] == [q[1]] && [q[1]][1..] == [];
  }

  // ---------- Priorities ----------

  ghost predicate NoBetterThan(prio: nat, fs: seq<Frag>, q: seq<Hdr>) {
    (forall i | 0 <= i < |fs| :: prio <= fs[i].fid) && forall j | 0 <= j < |q| :: prio <= q[j].prio
  }

  // Better priorities first, and none while a better one waits.
  ghost predicate ByPriority(fs: seq<Frag>, q: seq<Hdr>) {
    forall i | 0 <= i < |fs| :: NoBetterThan(fs[i].fid, fs[i + 1..], q)
  }

  lemma {:induction false} FillNoBetter(q: seq<Hdr>, next: seq<nat>, bs: nat, prio: nat)
    requires ValidSender(q, next) && FHS <= bs && NoBetterThan(prio, [], q)
    ensures var r := Fill(q, next, bs); NoBetterThan(prio, r.frags, r.q)
    decreases |q|
  {
    if q != [] {
      var bs' := bs - (q[0].psize + FHS);
      if bs < q[0].psize + FHS {
        assert forall j | 0 < j < |q| :: ([Cut(q[0], bs - FHS).0] + q[1..])[j] == q[j];
      } else if FHS + PHS <= bs' {
        FillNoBetter(q[1..], Bump(next, q[0]), bs', prio);
      }
    }
  }

  lemma {:induction false} FillByPriority(q: seq<Hdr>, next: seq<nat>, bs: nat)
    requires ValidSender(q, next) && FHS <= bs
    ensures ByPriority(Fill(q, next, bs).frags, Fill(q, next, bs).q)
    decreases |q|
  {
    if q != [] {
      HeadIsBest(q, next);
      var bs' := bs - (q[0].psize + FHS);
      if bs < q[0].psize + FHS {
        AloneInFront(Cut(q[0], bs - FHS).1, [Cut(q[0], bs - FHS).0] + q[1..]);
      } else if FHS + PHS <= bs' {
        FillByPriority(q[1..], Bump(next, q[0]), bs');
        FillNoBetter(q[1..], Bump(next, q[0]), bs', q[0].prio);
        InFront(Rest(q[0], next[q[0].prio]), Fill(q[1..], Bump(next, q[0]), bs').frags,
                Fill(q[1..], Bump(next, q[0]), bs').q);
      } else {
        AloneInFront(Rest(q[0], next[q[0].prio]), q[1..]);
      }
    }
  }

  lemma HeadIsBest(q: seq<Hdr>, next: seq<nat>)
    requires ValidSender(q, next) && q != []
    ensures forall j | 0 <= j < |q| :: q[0].prio <= q[j].prio
  {
  }

  lemma AloneInFront(f: Frag, q: seq<Hdr>)
    requires forall j | 0 <= j < |q| :: f.fid <= q[j].prio
    ensures ByPriority([f], q)
  {
  }

  lemma InFront(f: Frag, fs: seq<Frag>, q: seq<Hdr>)
    requires NoBetterThan(f.fid, fs, q) && ByPriority(fs, q)
    ensures ByPriority([f] + fs, q)
  {
    var gs := [f] + fs;
    forall i | 0 <= i < |gs| ensures NoBetterThan(gs[i].fid, gs[i + 1..], q) {
      assert gs[i + 1..] == fs[i..];
      if 0 < i {
        assert NoBetterThan(fs[i - 1].fid, fs[i - 1 + 1..], q);
      }
    }
  }

  // ---------- Overhead ----------

  // Header h waits for packet a, of which part may have been sent.
  ghost predicate Waits(arrived: seq<Hdr>, h: Hdr) {
    exists a :: a in arrived && h.uid == a.uid && h.prio == a.prio && h.size == a.size
  }

  // Fragment f carries bytes of a packet that arrived, with the overhead of fragmentation
  // counted once if the packet is split, and not at all if it is sent whole.
  ghost predicate CountedOnce(arrived: seq<Hdr>, f: Frag) {
    exists a :: a in arrived && f.uid == a.uid && f.fid == a.prio &&
      f.total == a.size + if f.flags == Flags(true, true) then 0 else PHS + TS
  }

  ghost predicate AllWait(arrived: seq<Hdr>, q: seq<Hdr>) {
    forall i | 0 <= i < |q| :: Waits(arrived, q[i])
  }

  ghost predicate AllCounted(arrived: seq<Hdr>, fs: seq<Frag>) {
    forall i | 0 <= i < |fs| :: CountedOnce(arrived, fs[i])
  }

  lemma HeadCounts(q: seq<Hdr>, arrived: seq<Hdr>, room: nat, seqno: nat)
    requires q != [] && (WholeHdr(q[0]) || PartHdr(q[0])) && AllWait(arrived, q)
    ensures CountedOnce(arrived, Rest(q[0], seqno))
    ensures room < q[0].psize ==>
              AllCounted(arrived, [Cut(q[0], room).1]) && AllWait(arrived, [Cut(q[0], room).0] + q[1..])
  {
    assert Waits(arrived, q[0]);
    if room < q[0].psize {
      var (h, f) := Cut(q[0], room);
      assert CountedOnce(arrived, f) && Waits(arrived, h);
      assert forall i | 0 < i < |q| :: ([h] + q[1..])[i] == q[i];
    }
  }

  // A burst carries packets that wait, and leaves packets that wait.
  lemma {:induction false} FillCounts(q: seq<Hdr>, next: seq<nat>, bs: nat, arrived: seq<Hdr>)
    requires ValidSender(q, next) && FHS <= bs && AllWait(arrived, q)
    ensures var r := Fill(q, next, bs); AllCounted(arrived, r.frags) && AllWait(arrived, r.q)
    decreases |q|
  {
    if q != [] {
      HeadCounts(q, arrived, bs - FHS, next[q[0].prio]);
      var bs' := bs - (q[0].psize + FHS);
      var f := Rest(q[0], next[q[0].prio]);
      if FHS + PHS <= bs' {
        FillCounts(q[1..], Bump(next, q[0]), bs', arrived);
        OneMoreCounted(arrived, f, Fill(q[1..], Bump(next, q[0]), bs').frags);
      } else if 0 <= bs' {
        OneMoreCounted(arrived, f, []);
        assert [f] + [] == [f];
      }
    }
  }

  lemma OneMoreCounted(arrived: seq<Hdr>, f: Frag, fs: seq<Frag>)
    requires CountedOnce(arrived, f) && AllCounted(arrived, fs)
    ensures AllCounted(arrived, [f] + fs)
  {
  }

  // ---------- The stream of one frag_id ----------

  // The part-sent packet of a priority.
  ghost function PartSent(q: seq<Hdr>, fid: nat): (h: Option<Hdr>)
    ensures h.Some? ==> PartHdr(h.value) && h.value.prio == fid
  {
    if q == [] then None
    else if q[0].prio == fid && PartHdr(q[0]) then Some(q[0])
    else PartSent(q[1..], fid)
  }

  // Where the sender is in the stream of a frag_id of which it has completed n fragmented
  // packets.
  ghost function TxOf(q: seq<Hdr>, fid: nat, n: nat): Tx {
    match PartSent(q, fid)
    case None => Idle(n)
    case Some(h) => Mid(n, h.uid, h.total, h.total - h.psize)
  }

  lemma {:induction false} NoPartSent(q: seq<Hdr>, fid: nat)
    requires forall i | 0 <= i < |q| :: q[i].prio != fid || !PartHdr(q[i])
    ensures PartSent(q, fid) == None
  {
    if q != [] {
      NoPartSent(q[1..], fid);
    }
  }

  // Uids of a burst's completed packets are the packets taken off the head of the queue.
  ghost function Uids(q: seq<Hdr>): (us: seq<nat>) {
    if q == [] then [] else [q[0].uid] + Uids(q[1..])
  }

  // One burst continues the stream of every frag_id: its fragments are accepted by the
  // stream grammar from where the sender was to where it is now, and completed packets
  // are counted by the sequence counter.
  lemma {:induction false} FillContinues(q: seq<Hdr>, next: seq<nat>, bs: nat, fid: nat, n: nat) returns (n': nat)
    requires ValidSender(q, next) && FHS <= bs && fid < 8 && next[fid] == n % 256
    ensures var r := Fill(q, next, bs);
            && r.next[fid] == n' % 256
            && TxRun(TxOf(q, fid, n), OnFid(r.frags, fid)) == Some(TxOf(r.q, fid, n'))
    decreases |q|
  {
    n' := n;
    if q == [] {
    } else if bs < q[0].psize + FHS {
      CutContinues(q, next, bs, fid, n);
    } else {
      var h := q[0];
      var next' := Bump(next, h);
      var bs' := bs - (h.psize + FHS);
      n' := RestContinues(q, next, fid, n);
      if FHS + PHS <= bs' {
        var r := Fill(q, next, bs);
        var m := n';
        n' := FillContinues(q[1..], next', bs', fid, m);
        assert r.frags == [Rest(h, next[h.prio])] + Fill(q[1..], next', bs').frags;
        OnFidAppend([Rest(h, next[h.prio])], Fill(q[1..], next', bs').frags, fid);
        TxRunAppend(TxOf(q, fid, n), OnFid([Rest(h, next[h.prio])], fid), OnFid(Fill(q[1..], next', bs').frags, fid));
      }
    }
  }

  lemma CutContinues(q: seq<Hdr>, next: seq<nat>, bs: nat, fid: nat, n: nat)
    requires ValidSender(q, next) && FHS <= bs && q != [] && bs < q[0].psize + FHS
    ensures var (h, f) := Cut(q[0], bs - FHS);
            TxRun(TxOf(q, fid, n), OnFid([f], fid)) == Some(TxOf([h] + q[1..], fid, n))
  {
    var (h, f) := Cut(q[0], bs - FHS);
    assert ([h] + q[1..])[1..] == q[1..];
    assert [f][1..] == [];
    if q[0].prio == fid {
      if WholeHdr(q[0]) {
        NoPartSent(q, fid);
      }
    }
  }

  lemma RestContinues(q: seq<Hdr>, next: seq<nat>, fid: nat, n: nat) returns (n': nat)
    requires ValidSender(q, next) && q != [] && fid < 8 && next[fid] == n % 256
    ensures Bump(next, q[0])[fid] == n' % 256
    ensures TxRun(TxOf(q, fid, n), OnFid([Rest(q[0], next[q[0].prio])], fid)) == Some(TxOf(q[1..], fid, n'))
  {
    var f := Rest(q[0], next[q[0].prio]);
    assert [f][1..] == [];
    n' := n;
    if q[0].prio == fid {
      if WholeHdr(q[0]) {
        NoPartSent(q, fid);
      } else {
        n' := n + 1;
        assert (n % 256 + 1) % 256 == (n + 1) % 256;
      }
      NoPartSent(q[1..], fid);
    }
  }

  // Fragments fs complete, in order, exactly the packets of one priority that q has and
  // q' has not.
  ghost predicate Completes(q: seq<Hdr>, fs: seq<Frag>, q': seq<Hdr>, fid: nat) {
    Uids(OfPrio(q, fid)) == Ends(OnFid(fs, fid)) + Uids(OfPrio(q', fid))
  }

  lemma UidsOfPrio(q: seq<Hdr>, fid: nat)
    requires q != []
    ensures Uids(OfPrio(q, fid)) == (if q[0].prio == fid then [q[0].uid] else []) + Uids(OfPrio(q[1..], fid))
  {
    if q[0].prio == fid {
      assert OfPrio(q, fid) == [q[0]] + OfPrio(q[1..], fid);
      assert OfPrio(q, fid)[1..] == OfPrio(q[1..], fid);
    } else {
      assert OfPrio(q, fid) == OfPrio(q[1..], fid);
    }
  }

  lemma EndsOfOne(f: Frag, fs: seq<Frag>, fid: nat)
    ensures Ends(OnFid([f] + fs, fid)) == (if f.fid == fid && f.flags.end then [f.uid] else []) + Ends(OnFid(fs, fid))
  {
    OnFidAppend([f], fs, fid);
    assert [f][1..] == [];
    assert OnFid([f], fid) == if f.fid == fid then [f] else [];
    EndsAppend(OnFid([f], fid), OnFid(fs, fid));
  }

  lemma CutCompletes(q: seq<Hdr>, room: nat, fid: nat)
    requires q != [] && (WholeHdr(q[0]) || PartHdr(q[0])) && room < q[0].psize
    ensures var (h, f) := Cut(q[0], room); Completes(q, [f], [h] + q[1..], fid)
  {
    var (h, f) := Cut(q[0], room);
    EndsOfOne(f, [], fid);
    assert [f] + [] == [f] && ([h] + q[1..])[1..] == q[1..];
    UidsOfPrio(q, fid);
    UidsOfPrio([h] + q[1..], fid);
  }

  lemma RestCompletes(q: seq<Hdr>, seqno: nat, fs: seq<Frag>, q': seq<Hdr>, fid: nat)
    requires q != [] && Completes(q[1..], fs, q', fid)
    ensures Completes(q, [Rest(q[0], seqno)] + fs, q', fid)
  {
    EndsOfOne(Rest(q[0], seqno), fs, fid);
    UidsOfPrio(q, fid);
  }

  // The packets a burst completes are exactly those it takes off the queue, in order.
  lemma {:induction false} FillCompletes(q: seq<Hdr>, next: seq<nat>, bs: nat, fid: nat)
    requires ValidSender(q, next) && FHS <= bs
    ensures Completes(q, Fill(q, next, bs).frags, Fill(q, next, bs).q, fid)
    decreases |q|
  {
    if q == [] {
    } else if bs < q[0].psize + FHS {
      CutCompletes(q, bs - FHS, fid);
    } else {
      var seqno := next[q[0].prio];
      var bs' := bs - (q[0].psize + FHS);
      if FHS + PHS <= bs' {
        var r := Fill(q[1..], Bump(next, q[0]), bs');
        FillCompletes(q[1..], Bump(next, q[0]), bs', fid);
        RestCompletes(q, seqno, r.frags, r.q, fid);
      } else {
        assert Completes(q[1..], [], q[1..], fid);
        RestCompletes(q, seqno, [], q[1..], fid);
        assert [Rest(q[0], seqno)] + [] == [Rest(q[0], seqno)];
      }
    }
  }
}
