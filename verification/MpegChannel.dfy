// Sender, lossy channel and receiver together: any packets, any timer expiries, any lost
// cells, and any mixture of senders at the receiver.
module MpegChannel {
  import opened Optional
  import opened Sequences
  import opened MpegSender
  import opened MpegReceiver

  const N_QUEUES: nat := 100

  // ---------- What the sender writes ----------

  ghost predicate PieceOf(w: seq<Chunk>, p: Pkt, len: nat) {
    && Positive(w) && Total(w) == len
    && forall i | 0 <= i < |w| :: w[i].uid == p.uid && w[i].size == p.size
  }

  lemma {:induction false} ChunksAppend(cs: seq<Ts>, ds: seq<Ts>)
    ensures Chunks(cs + ds) == Chunks(cs) + Chunks(ds)
  {
    if ds == [] {
      assert cs + ds == cs;
    } else {
      assert (cs + ds)[..|cs + ds| - 1] == cs + ds[..|ds| - 1];
      ChunksAppend(cs, ds[..|ds| - 1]);
    }
  }

  lemma ChunksOfOne(c: Ts)
    ensures Chunks([c]) == c.chunks
  {
    assert [c][..0] == [];
  }

  lemma PieceOnward(p: Pkt, len: nat, w: seq<Chunk>, rest: nat)
    requires 0 < len && PieceOf(w, p, rest)
    ensures PieceOf([Chunk(p.uid, p.size, len)] + w, p, len + rest)
  {
    TotalAppend([Chunk(p.uid, p.size, len)], w);
    assert Total([Chunk(p.uid, p.size, len)]) == len;
  }

  // All fragments of a sender's cells, sent or still open.
  ghost function Written(s: Sent): seq<Chunk> {
    Chunks(s.out) + if s.open.Some? then s.open.value.chunks else []
  }

  lemma WrittenIsChunks(s: Sent)
    ensures Written(s) == Chunks(s.out + OpenCells(s.open))
  {
    ChunksAppend(s.out, OpenCells(s.open));
    if s.open.Some? {
      ChunksOfOne(s.open.value);
    }
  }

  // One more cell in front, whose last fragment is f.
  lemma WrittenAfter(cell: Ts, fs: seq<Chunk>, f: Chunk, s: Sent, v: seq<Chunk>)
    requires cell.chunks == fs + [f] && Written(s) == v
    ensures Written(s.(out := [cell] + s.out)) == fs + ([f] + v)
  {
    ChunksAppend([cell], s.out);
    ChunksOfOne(cell);
    Associate(cell.chunks, Chunks(s.out), if s.open.Some? then s.open.value.chunks else []);
    Associate(fs, [f], v);
  }

  // send_frags appends to the fragments of the open cell those of the packet, which add
  // up to its size with header and CRC.
  lemma {:induction false} SplitSpells(c: Ts, p: Pkt, psize: nat) returns (w: seq<Chunk>)
    requires Filling(c) && 0 < psize
    ensures PieceOf(w, p, psize) && Written(Split(c, p, psize)) == c.chunks + w
    decreases psize
  {
    if psize > c.space {
      var v := SplitSpells(NewCell(c.pid), p, psize - c.space);
      w := FullSpells(c, p, psize, Split(NewCell(c.pid), p, psize - c.space), v);
    } else {
      w := LastSpells(c, p, psize);
    }
  }

  lemma FullSpells(c: Ts, p: Pkt, psize: nat, s: Sent, v: seq<Chunk>) returns (w: seq<Chunk>)
    requires 0 < c.space < psize && s == Split(NewCell(c.pid), p, psize - c.space)
    requires PieceOf(v, p, psize - c.space) && Written(s) == v
    ensures PieceOf(w, p, psize) && Written(Split(c, p, psize)) == c.chunks + w
  {
    var f := Chunk(p.uid, p.size, c.space);
    w := [f] + v;
    PieceOnward(p, c.space, v, psize - c.space);
    WrittenAfter(Put(c, p, c.space), c.chunks, f, s, v);
  }

  lemma LastSpells(c: Ts, p: Pkt, psize: nat) returns (w: seq<Chunk>)
    requires Filling(c) && 0 < psize <= c.space
    ensures PieceOf(w, p, psize) && Written(Split(c, p, psize)) == c.chunks + w
  {
    w := [Chunk(p.uid, p.size, psize)];
    assert Total(w) == psize;
    var r := Split(c, p, psize);
    if r.open.None? {
      ChunksOfOne(r.out[0]);
      assert r.out == [r.out[0]];
    }
  }

  // The cells of a run, sent or open, list the fragments of one packet after another.
  lemma {:induction false} RunSpells(pid: nat, es: seq<Event>) returns (ws: seq<seq<Chunk>>)
    ensures Spell(ws, Arrivals(es)) && Written(Run(pid, es)) == Flatten(ws)
  {
    if es == [] {
      ws := [];
    } else {
      var n := |es| - 1;
      ws := RunSpells(pid, es[..n]);
      var s := Run(pid, es[..n]);
      var r := React(pid, s.open, es[n]);
      match es[n] {
        case Arrive(p) =>
          var c := if s.open.None? then FirstCell(pid) else s.open.value;
          var w := SplitSpells(c, p, p.size + ULE_HDR_AND_CRC);
          Onward(s, r, c.chunks, w);
          OneMoreWord(ws, Arrivals(es[..n]), w, p);
          ws := ws + [w];
        case Timer =>
          Flush(s, r);
          assert Arrivals(es) == Arrivals(es[..n]);
      }
    }
  }

  lemma OneMoreWord(ws: seq<seq<Chunk>>, ps: seq<Pkt>, w: seq<Chunk>, p: Pkt)
    requires Spell(ws, ps) && PieceOf(w, p, p.size + ULE_HDR_AND_CRC)
    ensures Spell(ws + [w], ps + [p]) && Flatten(ws + [w]) == Flatten(ws) + w
  {
    assert (ws + [w])[..|ws|] == ws;
  }

  // Cells written after those of s, continuing its open cell.
  lemma Onward(s: Sent, r: Sent, fs: seq<Chunk>, w: seq<Chunk>)
    requires fs == (if s.open.Some? then s.open.value.chunks else []) && Written(r) == fs + w
    ensures Written(r.(out := s.out + r.out)) == Written(s) + w
  {
    ChunksAppend(s.out, r.out);
    Associate(Chunks(s.out), Chunks(r.out), if r.open.Some? then r.open.value.chunks else []);
    Associate(Chunks(s.out), fs, w);
  }

  lemma Flush(s: Sent, r: Sent)
    requires r == if s.open.Some? then Sent(None, [s.open.value]) else Sent(None, [])
    ensures Written(r.(out := s.out + r.out)) == Written(s)
  {
    ChunksAppend(s.out, r.out);
    if s.open.Some? {
      ChunksOfOne(s.open.value);
    }
  }

  // ---------- Loss ----------

  // Every cell carrying a fragment of a packet has been sent and has arrived; cell k of
  // the cells sent arrives when ok[k] holds.
  ghost predicate Received(s: Sent, ok: seq<bool>, uid: nat)
    requires |ok| == |s.out|
  {
    && (forall k | 0 <= k < |s.out| && Carries(s.out[k], uid) :: ok[k])
    && (s.open.Some? ==> !Carries(s.open.value, uid))
  }

  // The packets received whole, in order.
  ghost function Survivors(ps: seq<Pkt>, s: Sent, ok: seq<bool>): (qs: seq<Pkt>)
    requires |ok| == |s.out|
  {
    if ps == [] then []
    else Survivors(ps[..|ps| - 1], s, ok) + if Received(s, ok, ps[|ps| - 1].uid) then [ps[|ps| - 1]] else []
  }

  // An open cell counts as one that did not arrive.
  ghost function Fate(s: Sent, ok: seq<bool>): (fate: seq<bool>)
    requires |ok| == |s.out|
    ensures |fate| == |s.out + OpenCells(s.open)|
  {
    ok + if s.open.Some? then [false] else []
  }

  lemma ReceivedIsArrived(s: Sent, ok: seq<bool>, uid: nat)
    requires |ok| == |s.out|
    ensures Received(s, ok, uid) <==> Arrived(s.out + OpenCells(s.open), Fate(s, ok), uid)
  {
    var cs, fate := s.out + OpenCells(s.open), Fate(s, ok);
    assert forall k | 0 <= k < |s.out| :: cs[k] == s.out[k] && fate[k] == ok[k];
    if s.open.Some? {
      assert cs[|s.out|] == s.open.value && !fate[|s.out|];
    }
  }

  lemma {:induction false} SurvivorsAreAllOf(ps: seq<Pkt>, s: Sent, ok: seq<bool>)
    requires |ok| == |s.out|
    ensures var cs := s.out + OpenCells(s.open);
            Survivors(ps, s, ok) == AllOf(ps, Chunks(cs), Got(cs, Fate(s, ok)))
  {
    if ps != [] {
      SurvivorsAreAllOf(ps[..|ps| - 1], s, ok);
      ReceivedIsArrived(s, ok, ps[|ps| - 1].uid);
      ArrivedIsAllGot(s.out + OpenCells(s.open), Fate(s, ok), ps[|ps| - 1].uid);
    }
  }

  // Whatever cells are lost and whenever the timer goes off, the receiver sends up
  // exactly the packets all of whose cells arrived, once each, in order, and with the
  // size they had before encapsulation, as long as the sender never puts more fragments
  // into a cell than it can list.
  lemma ExactUnderLoss(pid: nat, es: seq<Event>, ok: seq<bool>)
    requires |ok| == |Run(pid, es).out| && DistinctUids(Arrivals(es)) && Fits(pid, es)
    ensures RxCells(None, Run(pid, es).out, ok).1 == Survivors(Arrivals(es), Run(pid, es), ok)
  {
    var s := Run(pid, es);
    var cs, fate := s.out + OpenCells(s.open), Fate(s, ok);
    var ws := RunSpells(pid, es);
    WrittenIsChunks(s);
    WordsDeliver(ws, Arrivals(es), Got(cs, fate));
    CellsAreTheirChunks(None, cs, fate);
    SurvivorsAreAllOf(Arrivals(es), s, ok);
    if s.open.Some? {
      assert cs[..|s.out|] == s.out && fate[..|s.out|] == ok;
    } else {
      assert cs == s.out && fate == ok;
    }
  }

  lemma {:induction false} InSurvivors(ps: seq<Pkt>, s: Sent, ok: seq<bool>, p: Pkt)
    requires |ok| == |s.out|
    ensures p in Survivors(ps, s, ok) <==> p in ps && Received(s, ok, p.uid)
  {
    if ps != [] {
      var n := |ps| - 1;
      InSurvivors(ps[..n], s, ok, p);
      assert p in ps <==> p in ps[..n] || p == ps[n];
    }
  }

  // ---------- Reassembly buffers ----------

  // A packet being reassembled, and the pid it is kept for.
  datatype Buf = Buf(pid: nat, rx: Rx)

  // The slot probed after j others.
  function Slot(pid: nat, j: nat): (q: nat)
    ensures q < N_QUEUES
  {
    (pid + j) % N_QUEUES
  }

  predicate FreeFor(b: Option<Buf>, pid: nat) {
    b.None? || b.value.pid == pid
  }

  // get_queue, from the slot probed after j others on; None is where it aborts.
  function Probe(bufs: seq<Option<Buf>>, pid: nat, j: nat): (q: Option<nat>)
    requires |bufs| == N_QUEUES && j <= N_QUEUES
    ensures q.Some? ==> q.value < N_QUEUES && FreeFor(bufs[q.value], pid)
    decreases N_QUEUES - j
  {
    if j == N_QUEUES then None
    else if FreeFor(bufs[Slot(pid, j)], pid) then Some(Slot(pid, j))
    else Probe(bufs, pid, j + 1)
  }

  // Probing comes to the first slot that is free for pid, if there is one.
  lemma {:induction false} ProbeIs(bufs: seq<Option<Buf>>, pid: nat, j: nat, d: nat)
    requires |bufs| == N_QUEUES && j <= d <= N_QUEUES
    requires forall i | j <= i < d :: !FreeFor(bufs[Slot(pid, i)], pid)
    requires d < N_QUEUES ==> FreeFor(bufs[Slot(pid, d)], pid)
    ensures Probe(bufs, pid, j) == if d == N_QUEUES then None else Some(Slot(pid, d))
    decreases d - j
  {
    if j < d {
      ProbeIs(bufs, pid, j + 1, d);
    }
  }

  function Unowned(b: Option<Buf>): Option<Rx> {
    if b.None? then None else Some(b.value.rx)
  }

  function Owned(pid: nat, rx: Option<Rx>): Option<Buf> {
    if rx.None? then None else Some(Buf(pid, rx.value))
  }

  // sendUp for one cell.
  function RxSlot(bufs: seq<Option<Buf>>, pid: nat, fs: seq<Chunk>): (r: Option<(seq<Option<Buf>>, seq<Pkt>)>)
    requires |bufs| == N_QUEUES
    ensures r.Some? ==> |r.value.0| == N_QUEUES
  {
    match Probe(bufs, pid, 0)
    case None => None
    case Some(q) =>
      var (rx, ps) := RxCell(Unowned(bufs[q]), fs);
      Some((bufs[q := Owned(pid, rx)], ps))
  }

  ghost function NoBufs(): (bufs: seq<Option<Buf>>)
    ensures |bufs| == N_QUEUES && forall q | 0 <= q < N_QUEUES :: bufs[q] == None
  {
    seq(N_QUEUES, i => None)
  }

  // ---------- Many senders ----------

  datatype Delivery = Delivery(pid: nat, pkt: Pkt)

  // The cells of one sender that arrive.
  function Kept(cs: seq<Ts>, ok: seq<bool>): (ds: seq<Ts>)
    requires |ok| == |cs|
  {
    if cs == [] then []
    else Kept(cs[..|cs| - 1], ok[..|cs| - 1]) + if ok[|cs| - 1] then [cs[|cs| - 1]] else []
  }

  // sendUp for one cell after another; None is where the receiver aborts.
  ghost function RxAll(cs: seq<Ts>): (r: Option<(seq<Option<Buf>>, seq<Delivery>)>)
    ensures r.Some? ==> |r.value.0| == N_QUEUES
  {
    if cs == [] then Some((NoBufs(), []))
    else
      match RxAll(cs[..|cs| - 1])
      case None => None
      case Some(s) =>
        var c := cs[|cs| - 1];
        match RxSlot(s.0, c.pid, c.chunks)
        case None => None
        case Some(r) => Some((r.0, s.1 + Tagged(c.pid, r.1)))
  }

  function Tagged(pid: nat, ps: seq<Pkt>): (ds: seq<Delivery>)
    ensures |ds| == |ps| && forall i | 0 <= i < |ds| :: ds[i] == Delivery(pid, ps[i])
  {
    seq(|ps|, i requires 0 <= i < |ps| => Delivery(pid, ps[i]))
  }

  ghost function From(ds: seq<Delivery>, pid: nat): (ps: seq<Pkt>) {
    if ds == [] then []
    else From(ds[..|ds| - 1], pid) + if ds[|ds| - 1].pid == pid then [ds[|ds| - 1].pkt] else []
  }

  ghost function OfPid(cs: seq<Ts>, pid: nat): (ds: seq<Ts>) {
    if cs == [] then []
    else OfPid(cs[..|cs| - 1], pid) + if cs[|cs| - 1].pid == pid then [cs[|cs| - 1]] else []
  }

  lemma {:induction false} FromTagged(ds: seq<Delivery>, q: nat, ps: seq<Pkt>, pid: nat)
    ensures From(ds + Tagged(q, ps), pid) == From(ds, pid) + if q == pid then ps else []
  {
    var es := ds + Tagged(q, ps);
    if ps == [] {
      assert es == ds;
    } else {
      assert es[..|es| - 1] == ds + Tagged(q, ps[..|ps| - 1]);
      FromTagged(ds, q, ps[..|ps| - 1], pid);
    }
  }

  ghost function AllTrue(n: nat): (ok: seq<bool>)
    ensures |ok| == n && forall i | 0 <= i < n :: ok[i]
  {
    seq(n, i => true)
  }

  // No two pids of a set are probed for from the same slot.
  ghost predicate Spread(pids: set<nat>) {
    forall p, q | p in pids && q in pids && p % 100 == q % 100 :: p == q
  }

  ghost predicate Among(cs: seq<Ts>, pids: set<nat>) {
    forall k | 0 <= k < |cs| :: cs[k].pid in pids
  }

  // Every buffer in use is in the first slot probed for its pid.
  ghost predicate Homed(bufs: seq<Option<Buf>>, pids: set<nat>) {
    |bufs| == N_QUEUES &&
    forall q | 0 <= q < N_QUEUES && bufs[q].Some? :: bufs[q].value.pid in pids && bufs[q].value.pid % N_QUEUES == q
  }

  lemma HomedCell(bufs: seq<Option<Buf>>, pids: set<nat>, pid: nat, fs: seq<Chunk>)
    requires Homed(bufs, pids) && Spread(pids) && pid in pids
    ensures var (rx, ps) := RxCell(Unowned(bufs[Slot(pid, 0)]), fs);
            RxSlot(bufs, pid, fs) == Some((bufs[Slot(pid, 0) := Owned(pid, rx)], ps))
    ensures Homed(RxSlot(bufs, pid, fs).value.0, pids)
  {
    var q := Slot(pid, 0);
    assert FreeFor(bufs[q], pid);
  }

  // What has come of pid's own cells: its buffer, and the packets sent up.
  ghost predicate Separate(cs: seq<Ts>, pid: nat) {
    var own := OfPid(cs, pid);
    && RxAll(cs).Some?
    && (Unowned(RxAll(cs).value.0[Slot(pid, 0)]), From(RxAll(cs).value.1, pid)) == RxCells(None, own, AllTrue(|own|))
  }

  lemma OwnCell(cs: seq<Ts>, c: Ts, pid: nat)
    ensures (cs + [c])[..|cs|] == cs
    ensures var own, own' := OfPid(cs, pid), OfPid(cs + [c], pid);
            RxCells(None, own', AllTrue(|own'|)) ==
            if c.pid == pid then
              var (rx, ps) := RxCells(None, own, AllTrue(|own|));
              (RxCell(rx, c.chunks).0, ps + RxCell(rx, c.chunks).1)
            else RxCells(None, own, AllTrue(|own|))
  {
    var own := OfPid(cs, pid);
    assert (cs + [c])[..|cs|] == cs;
    if c.pid == pid {
      assert (own + [c])[..|own|] == own && AllTrue(|own| + 1)[..|own|] == AllTrue(|own|);
    } else {
      assert own + [] == own;
    }
  }

  lemma OneMoreCell(cs: seq<Ts>, c: Ts, pids: set<nat>, pid: nat)
    requires Spread(pids) && c.pid in pids && pid in pids
    requires Separate(cs, pid) && Homed(RxAll(cs).value.0, pids)
    ensures Separate(cs + [c], pid) && Homed(RxAll(cs + [c]).value.0, pids)
  {
    var (bufs, ds) := RxAll(cs).value;
    var (rx, ps) := RxCell(Unowned(bufs[Slot(c.pid, 0)]), c.chunks);
    OwnCell(cs, c, pid);
    HomedCell(bufs, pids, c.pid, c.chunks);
    assert RxAll(cs + [c]) == Some((bufs[Slot(c.pid, 0) := Owned(c.pid, rx)], ds + Tagged(c.pid, ps)));
    FromTagged(ds, c.pid, ps, pid);
    assert c.pid != pid ==> Slot(c.pid, 0) != Slot(pid, 0);
    assert From(ds, pid) + [] == From(ds, pid);
  }

  // The buffers do not interfere as long as the pids are spread: the receiver does not
  // abort, and what is sent up from one pid depends on its own cells.
  lemma {:induction false} BuffersAreSeparate(cs: seq<Ts>, pids: set<nat>, pid: nat)
    requires Spread(pids) && Among(cs, pids) && pid in pids
    ensures Separate(cs, pid) && Homed(RxAll(cs).value.0, pids)
  {
    if cs != [] {
      var n := |cs| - 1;
      BuffersAreSeparate(cs[..n], pids, pid);
      OneMoreCell(cs[..n], cs[n], pids, pid);
      assert cs == cs[..n] + [cs[n]];
    }
  }

  lemma {:induction false} KeptIsEnough(rx: Option<Rx>, cs: seq<Ts>, ok: seq<bool>)
    requires |ok| == |cs|
    ensures RxCells(rx, Kept(cs, ok), AllTrue(|Kept(cs, ok)|)) == RxCells(rx, cs, ok)
  {
    if cs != [] {
      var n := |cs| - 1;
      KeptIsEnough(rx, cs[..n], ok[..n]);
      var ds := Kept(cs[..n], ok[..n]);
      if ok[n] {
        assert (ds + [cs[n]])[..|ds|] == ds && AllTrue(|ds| + 1)[..|ds|] == AllTrue(|ds|);
      } else {
        assert ds + [] == ds;
      }
    }
  }

  // Of what the sender of pid writes in the run es, the receiver hears the cells that ok
  // tells, among those of other senders.
  ghost predicate Hears(heard: seq<Ts>, pid: nat, es: seq<Event>, ok: seq<bool>) {
    && DistinctUids(Arrivals(es)) && Fits(pid, es) && |ok| == |Run(pid, es).out|
    && OfPid(heard, pid) == Kept(Run(pid, es).out, ok)
  }

  // It sends up exactly the packets all of whose cells arrived.
  ghost predicate ServedWell(heard: seq<Ts>, pid: nat, es: seq<Event>, ok: seq<bool>)
    requires |ok| == |Run(pid, es).out|
  {
    RxAll(heard).Some? && From(RxAll(heard).value.1, pid) == Survivors(Arrivals(es), Run(pid, es), ok)
  }

  // A receiver that hears the surviving cells of many senders in any mixture sends up,
  // from each sender, exactly the packets all of whose cells arrived, as long as the pids
  // are spread and no cell lists more fragments than it can.
  lemma ExactAmongSenders(heard: seq<Ts>, pids: set<nat>, pid: nat, es: seq<Event>, ok: seq<bool>)
    requires Spread(pids) && Among(heard, pids) && FewEach(heard) && pid in pids && Hears(heard, pid, es, ok)
    ensures ServedWell(heard, pid, es, ok)
  {
    BuffersAreSeparate(heard, pids, pid);
    KeptIsEnough(None, Run(pid, es).out, ok);
    ExactUnderLoss(pid, es, ok);
  }

  // ---------- Pids that share a slot ----------

  // One packet, split over two cells.
  ghost function TwoCells(uid: nat): seq<Event> {
    [Arrive(Pkt(uid, 200)), Timer]
  }

  ghost function FirstHalf(pid: nat, uid: nat): Ts {
    Ts(pid, true, 183, [Chunk(uid, 200, 183)])
  }

  ghost function SecondHalf(pid: nat, uid: nat): Ts {
    Ts(pid, false, 159, [Chunk(uid, 200, 25)])
  }

  lemma SplitInTwo(pid: nat, uid: nat)
    ensures SendFrags(pid, None, Pkt(uid, 200)) == Sent(Some(SecondHalf(pid, uid)), [FirstHalf(pid, uid)])
  {
    var p := Pkt(uid, 200);
    assert Put(NewCell(pid), p, 25).chunks == [Chunk(uid, 200, 25)];
    assert Put(FirstCell(pid), p, 183).chunks == [Chunk(uid, 200, 183)];
    assert Split(NewCell(pid), p, 25) == Sent(Some(SecondHalf(pid, uid)), []);
  }

  lemma TwoCellsAre(pid: nat, uid: nat)
    ensures Run(pid, TwoCells(uid)) == Sent(None, [FirstHalf(pid, uid), SecondHalf(pid, uid)])
    ensures Arrivals(TwoCells(uid)) == [Pkt(uid, 200)] && Fits(pid, TwoCells(uid))
  {
    var es := TwoCells(uid);
    assert es[..1] == [Arrive(Pkt(uid, 200))] && es[..1][..0] == [];
    SplitInTwo(pid, uid);
    assert Run(pid, []) == Sent(None, []);
    assert Run(pid, es[..1]).out == [FirstHalf(pid, uid)];
    assert Arrivals(es[..1]) == [] + [Pkt(uid, 200)] == [Pkt(uid, 200)];
    assert Arrivals(es) == Arrivals(es[..1]) + [];
    assert Fits(pid, []) && HasRoom(pid, []);
    assert Fits(pid, es[..1]);
  }

  // Two such packets, from pids p and q, with their cells taking turns.
  ghost function Mixed(p: nat, q: nat): (heard: seq<Ts>) {
    [] + [FirstHalf(p, 1)] + [FirstHalf(q, 2)] + [SecondHalf(p, 1)] + [SecondHalf(q, 2)]
  }

  lemma OfPidNext(cs: seq<Ts>, c: Ts, pid: nat)
    ensures OfPid(cs + [c], pid) == if c.pid == pid then OfPid(cs, pid) + [c] else OfPid(cs, pid)
  {
    assert (cs + [c])[..|cs|] == cs && OfPid(cs, pid) + [] == OfPid(cs, pid);
  }

  lemma MixedOfEach(p: nat, q: nat)
    requires p != q
    ensures Among(Mixed(p, q), {p, q}) && FewEach(Mixed(p, q))
    ensures OfPid(Mixed(p, q), q) == [FirstHalf(q, 2), SecondHalf(q, 2)]
  {
    var a, b, c, d := FirstHalf(p, 1), FirstHalf(q, 2), SecondHalf(p, 1), SecondHalf(q, 2);
    OfPidNext([], a, q);
    OfPidNext([] + [a], b, q);
    OfPidNext([] + [a] + [b], c, q);
    OfPidNext([] + [a] + [b] + [c], d, q);
    assert [] + [b] + [d] == [b, d];
  }

  lemma HearsMixed(p: nat, q: nat)
    requires p != q
    ensures Hears(Mixed(p, q), q, TwoCells(2), [true, true])
  {
    TwoCellsAre(q, 2);
    MixedOfEach(p, q);
    KeptBoth(FirstHalf(q, 2), SecondHalf(q, 2));
  }

  lemma KeptBoth(c: Ts, d: Ts)
    ensures Kept([c, d], [true, true]) == [c, d]
  {
    assert [c][..0] == [] && [true][..0] == [];
    assert Kept([c], [true]) == [] + [c] == [c];
    assert [c, d][..1] == [c] && [true, true][..1] == [true];
  }

  // When the packet of p is complete its slot is free again, and the second half of the
  // packet of q goes there instead of to the first.
  lemma SecondIsLost(p: nat, q: nat)
    requires p != q && p % N_QUEUES == q % N_QUEUES
    ensures RxAll(Mixed(p, q)).Some? && From(RxAll(Mixed(p, q)).value.1, q) == []
  {
    var k, l := Slot(p, 0), Slot(q, 1);
    assert k == Slot(q, 0) != l;
    OneChunk(None, Chunk(1, 200, 183));
    OneChunk(None, Chunk(2, 200, 183));
    OneChunk(Some(Rx(1, 200, 183)), Chunk(1, 200, 25));
    OneChunk(None, Chunk(2, 200, 25));
    var h1 := [] + [FirstHalf(p, 1)];
    var b1 := NoBufs()[k := Some(Buf(p, Rx(1, 200, 183)))];
    HearOne([], FirstHalf(p, 1), NoBufs(), [], b1, [], []);
    ProbeIs(b1, q, 0, 1);
    var h2, b2 := h1 + [FirstHalf(q, 2)], b1[l := Some(Buf(q, Rx(2, 200, 183)))];
    HearOne(h1, FirstHalf(q, 2), b1, [], b2, [], []);
    var h3, b3, ds := h2 + [SecondHalf(p, 1)], b2[k := None], Tagged(p, [Pkt(1, 200)]);
    HearOne(h2, SecondHalf(p, 1), b2, [], b3, [Pkt(1, 200)], ds);
    var b4 := b3[k := Some(Buf(q, Rx(2, 200, 25)))];
    HearOne(h3, SecondHalf(q, 2), b3, ds, b4, [], ds);
    assert From(ds[..0], q) == [];
  }

  // One more cell c, after which the buffers are b'.
  lemma HearOne(cs: seq<Ts>, c: Ts, b: seq<Option<Buf>>, ds: seq<Delivery>, b': seq<Option<Buf>>, ps: seq<Pkt>,
                ds': seq<Delivery>)
    requires RxAll(cs) == Some((b, ds)) && |b| == N_QUEUES && RxSlot(b, c.pid, c.chunks) == Some((b', ps))
    requires ds' == ds + Tagged(c.pid, ps)
    ensures RxAll(cs + [c]) == Some((b', ds'))
  {
    assert (cs + [c])[..|cs|] == cs;
  }

  lemma OneChunk(rx: Option<Rx>, f: Chunk)
    ensures RxCell(rx, [f]) == RxNext(rx, f)
  {
    assert [f][..0] == [] && [] + RxNext(rx, f).1 == RxNext(rx, f).1;
  }

  // A set of pids is served well in every mixture exactly when it is spread.
  lemma ServedWellIffSpread(pids: set<nat>)
    ensures (forall heard, pid, es, ok | Among(heard, pids) && FewEach(heard) && pid in pids &&
            Hears(heard, pid, es, ok) ::
               ServedWell(heard, pid, es, ok))
            <==> Spread(pids)
  {
    if Spread(pids) {
      forall heard, pid, es, ok | Among(heard, pids) && FewEach(heard) && pid in pids && Hears(heard, pid, es, ok)
        ensures ServedWell(heard, pid, es, ok)
      {
        ExactAmongSenders(heard, pids, pid, es, ok);
      }
    } else {
      var p, q :| p in pids && q in pids && p % 100 == q % 100 && p != q;
      MixedOfEach(p, q);
      HearsMixed(p, q);
      SecondIsLost(p, q);
      TwoCellsAre(q, 2);
      InSurvivors(Arrivals(TwoCells(2)), Run(q, TwoCells(2)), [true, true], Pkt(2, 200));
      assert Among(Mixed(p, q), pids);
      assert !ServedWell(Mixed(p, q), q, TwoCells(2), [true, true]);
    }
  }
}
