// Packing packets into MPEG cells: fragments, cells and what the sender keeps.
module MpegSender {
  import opened Optional

  const ULE_HDR_AND_CRC: nat := 8
  const ULE_HDR: nat := 4
  const MAX_FRAGS: nat := 10
  const CELL: nat := 184

  // A packet given to the sender.
  datatype Pkt = Pkt(uid: nat, size: nat)

  // A fragment in a cell: the packet, its size before encapsulation, and the bytes of the
  // encapsulated packet carried here.
  datatype Chunk = Chunk(uid: nat, size: nat, len: nat)

  // A cell; space is the header field dvb_space_, which is not brought up to date when a
  // fragment fills the cell to the end.
  datatype Ts = Ts(pid: nat, pusi: bool, space: nat, chunks: seq<Chunk>)

  // The cell being filled, if any, and the cells sent.
  datatype Sent = Sent(open: Option<Ts>, out: seq<Ts>)

  // new_dvb, and new_dvb followed by setpusi.
  function NewCell(pid: nat): Ts {
    Ts(pid, false, CELL, [])
  }

  function FirstCell(pid: nat): Ts {
    Ts(pid, true, CELL - 1, [])
  }

  function Put(c: Ts, p: Pkt, len: nat): Ts {
    c.(chunks := c.chunks + [Chunk(p.uid, p.size, len)])
  }

  // A cell with less room than this is sent at once.
  function Needed(c: Ts): nat {
    ULE_HDR + if c.pusi then 0 else 1
  }

  // send_frags from its loop on, with psize bytes of p left.
  function Split(c: Ts, p: Pkt, psize: nat): (r: Sent)
    requires 0 < c.space
    decreases psize
  {
    if psize > c.space then
      var r := Split(NewCell(c.pid), p, psize - c.space);
      r.(out := [Put(c, p, c.space)] + r.out)
    else
      var c' := Put(c, p, psize).(space := c.space - psize);
      if c'.space < Needed(c') then Sent(None, [c']) else Sent(Some(c'), [])
  }

  function SendFrags(pid: nat, open: Option<Ts>, p: Pkt): (r: Sent)
    requires open.Some? ==> 0 < open.value.space
  {
    Split(if open.None? then FirstCell(pid) else open.value, p, p.size + ULE_HDR_AND_CRC)
  }

  // ---------- Cell accounting ----------

  function Total(fs: seq<Chunk>): nat {
    if fs == [] then 0 else Total(fs[..|fs| - 1]) + fs[|fs| - 1].len
  }

  lemma {:induction false} TotalAppend(fs: seq<Chunk>, gs: seq<Chunk>)
    ensures Total(fs + gs) == Total(fs) + Total(gs)
  {
    if gs == [] {
      assert fs + gs == fs;
    } else {
      assert (fs + gs)[..|fs + gs| - 1] == fs + gs[..|gs| - 1];
      TotalAppend(fs, gs[..|gs| - 1]);
    }
  }

  function Used(c: Ts): nat {
    Total(c.chunks) + if c.pusi then 1 else 0
  }

  ghost predicate Positive(fs: seq<Chunk>) {
    forall i | 0 <= i < |fs| :: 0 < fs[i].len
  }

  // A cell still being filled, with room worth keeping.
  ghost predicate Filling(c: Ts) {
    Positive(c.chunks) && Used(c) + c.space == CELL && Needed(c) <= c.space
  }

  // A cell that was filled to the end by a fragment, whose length its space still shows.
  ghost predicate Full(c: Ts) {
    c.chunks != [] && Positive(c.chunks) && Used(c) == CELL && c.space == c.chunks[|c.chunks| - 1].len
  }

  // A cell sent at the end of a packet, because there was no room left for another.
  ghost predicate Tight(c: Ts) {
    c.chunks != [] && Positive(c.chunks) && Used(c) + c.space == CELL && c.space < Needed(c)
  }

  ghost predicate ValidOpen(pid: nat, open: Option<Ts>) {
    open.Some? ==> Filling(open.value) && open.value.chunks != [] && open.value.pid == pid
  }

  lemma PutAccounts(c: Ts, p: Pkt, len: nat)
    requires Positive(c.chunks) && 0 < len
    ensures Positive(Put(c, p, len).chunks) && Used(Put(c, p, len)) == Used(c) + len
  {
    TotalAppend(c.chunks, [Chunk(p.uid, p.size, len)]);
    assert Total([Chunk(p.uid, p.size, len)]) == len;
  }

  // Every cell sent while packing is full or too tight for another packet; the one kept
  // back accounts for every byte.
  lemma {:induction false} SplitAccounts(c: Ts, p: Pkt, psize: nat)
    requires Filling(c) && 0 < psize
    ensures var r := Split(c, p, psize);
            && ValidOpen(c.pid, r.open)
            && (forall k | 0 <= k < |r.out| :: r.out[k].pid == c.pid && (Full(r.out[k]) || Tight(r.out[k])))
            && (forall k | 0 <= k < |r.out| - 1 :: Full(r.out[k]))
    decreases psize
  {
    if psize > c.space {
      PutAccounts(c, p, c.space);
      SplitAccounts(NewCell(c.pid), p, psize - c.space);
    } else {
      PutAccounts(c, p, psize);
    }
  }

  // ---------- What stays open ----------

  // Room for the header of another packet, and for the payload pointer if the cell has
  // none yet.
  predicate Roomy(c: Ts) {
    (if c.pusi then 4 else 5) <= c.space
  }

  // After a packet its last cell stays open exactly when it has such room, and when none
  // stays open, that cell is the last one sent.
  ghost predicate OpenIfRoomy(r: Sent) {
    match r.open
    case Some(c) => Roomy(c)
    case None => r.out != [] && !Roomy(r.out[|r.out| - 1])
  }

  lemma {:induction false} SplitLeavesOpen(c: Ts, p: Pkt, psize: nat)
    requires 0 < c.space
    ensures OpenIfRoomy(Split(c, p, psize))
    decreases psize
  {
    if psize > c.space {
      SplitLeavesOpen(NewCell(c.pid), p, psize - c.space);
    }
  }

  lemma SendFragsLeavesOpen(pid: nat, open: Option<Ts>, p: Pkt)
    requires ValidOpen(pid, open)
    ensures OpenIfRoomy(SendFrags(pid, open, p))
  {
    SplitLeavesOpen(if open.None? then FirstCell(pid) else open.value, p, p.size + ULE_HDR_AND_CRC);
  }

  // ---------- Fragments per cell ----------

  // What keeps the fragments of an open cell few when no packet is shorter than 12 bytes:
  // each takes 20 bytes or more, but for the end of a packet at the head of a cell.
  ghost predicate Sparse(c: Ts) {
    if c.pusi then 20 * |c.chunks| <= Total(c.chunks)
    else c.chunks != [] ==> 20 * (|c.chunks| - 1) + 1 <= Total(c.chunks)
  }

  lemma {:induction false} SplitIsSparse(c: Ts, p: Pkt, psize: nat)
    requires Filling(c) && Sparse(c) && 0 < psize && (c.chunks != [] || c.pusi ==> 20 <= psize)
    ensures var r := Split(c, p, psize);
            && (r.open.Some? ==> Sparse(r.open.value))
            && forall k | 0 <= k < |r.out| :: |r.out[k].chunks| <= MAX_FRAGS
    decreases psize
  {
    if psize > c.space {
      SplitIsSparse(NewCell(c.pid), p, psize - c.space);
    } else {
      PutAccounts(c, p, psize);
    }
  }

  // ---------- Runs ----------

  // A packet arrives from above, or the timer of the open cell goes off.
  datatype Event = Arrive(p: Pkt) | Timer

  function React(pid: nat, open: Option<Ts>, e: Event): (r: Sent)
    requires ValidOpen(pid, open)
    ensures ValidOpen(pid, r.open)
  {
    match e
    case Arrive(p) =>
      var r := SendFrags(pid, open, p);
      SplitAccounts(if open.None? then FirstCell(pid) else open.value, p, p.size + ULE_HDR_AND_CRC);
      r
    case Timer => if open.Some? then Sent(None, [open.value]) else Sent(None, [])
  }

  // All cells sent, and the one still open.
  function Run(pid: nat, es: seq<Event>): (r: Sent)
    ensures ValidOpen(pid, r.open)
  {
    if es == [] then Sent(None, [])
    else
      var s := Run(pid, es[..|es| - 1]);
      var r := React(pid, s.open, es[|es| - 1]);
      r.(out := s.out + r.out)
  }

  function Arrivals(es: seq<Event>): seq<Pkt> {
    if es == [] then []
    else Arrivals(es[..|es| - 1]) + match es[|es| - 1] { case Arrive(p) => [p] case Timer => [] }
  }

  // A cell as it is sent: filled to the end by a fragment, whose length its space still
  // shows, or accounting for every byte, never both.
  ghost predicate Accounted(pid: nat, c: Ts) {
    && c.pid == pid && c.chunks != [] && Positive(c.chunks)
    && (Full(c) <==> Used(c) + c.space != CELL)
  }

  lemma FullOrTight(pid: nat, c: Ts)
    requires c.pid == pid && (Full(c) || Tight(c))
    ensures Accounted(pid, c) && (Tight(c) <==> Used(c) + c.space == CELL)
  {
  }

  lemma ReactAccounts(pid: nat, open: Option<Ts>, e: Event, k: nat)
    requires ValidOpen(pid, open) && k < |React(pid, open, e).out|
    ensures var c := React(pid, open, e).out[k];
            Accounted(pid, c) && (e != Timer ==> (Tight(c) <==> Used(c) + c.space == CELL))
  {
    match e {
      case Arrive(p) =>
        SplitAccounts(if open.None? then FirstCell(pid) else open.value, p, p.size + ULE_HDR_AND_CRC);
        FullOrTight(pid, React(pid, open, e).out[k]);
      case Timer =>
    }
  }

  // In any run every cell sent is so accounted for; without the timer the cells that are
  // not full are those too tight for another packet.
  lemma {:induction false} CellAccounting(pid: nat, es: seq<Event>, k: nat)
    requires k < |Run(pid, es).out|
    ensures var c := Run(pid, es).out[k];
            Accounted(pid, c) && (Timer !in es ==> (Tight(c) <==> Used(c) + c.space == CELL))
  {
    var n := |es| - 1;
    var s := Run(pid, es[..n]);
    assert Timer in es[..n] ==> Timer in es;
    if k < |s.out| {
      CellAccounting(pid, es[..n], k);
    } else {
      ReactAccounts(pid, s.open, es[n], k - |s.out|);
    }
  }

  ghost function OpenCells(open: Option<Ts>): seq<Ts> {
    if open.Some? then [open.value] else []
  }

  // In any run a cell stays open after a packet exactly when another could begin in it,
  // and only such cells are open.
  lemma {:induction false} RunLeavesOpen(pid: nat, es: seq<Event>)
    ensures Run(pid, es).open.Some? ==> Roomy(Run(pid, es).open.value)
    ensures es != [] && es[|es| - 1].Arrive? ==> OpenIfRoomy(Run(pid, es))
    ensures es != [] && es[|es| - 1].Timer? ==>
              var s := Run(pid, es[..|es| - 1]);
              Run(pid, es) == Sent(None, s.out + OpenCells(s.open))
  {
    if es != [] {
      RunLeavesOpen(pid, es[..|es| - 1]);
      match es[|es| - 1]
      case Arrive(p) => SendFragsLeavesOpen(pid, Run(pid, es[..|es| - 1]).open, p);
      case Timer =>
    }
  }

  ghost predicate NoneShorter(ps: seq<Pkt>, b: nat) {
    forall i | 0 <= i < |ps| :: b <= ps[i].size
  }

  ghost predicate FewOpen(open: Option<Ts>, bound: nat) {
    open.Some? ==> |open.value.chunks| <= bound
  }

  // No cell of a run, sent or open, carries more fragments than a cell has room to list.
  ghost predicate InBounds(pid: nat, es: seq<Event>) {
    && FewEach(Run(pid, es).out)
    && FewOpen(Run(pid, es).open, MAX_FRAGS)
  }

  // The open cell has room to list another fragment.
  ghost predicate HasRoom(pid: nat, es: seq<Event>) {
    FewOpen(Run(pid, es).open, MAX_FRAGS - 1)
  }

  lemma SparseHasRoom(c: Ts)
    requires Filling(c) && Sparse(c)
    ensures |c.chunks| < MAX_FRAGS
  {
  }

  ghost predicate FewEach(cs: seq<Ts>) {
    forall k | 0 <= k < |cs| :: |cs[k].chunks| <= MAX_FRAGS
  }

  lemma ReactIsSparse(pid: nat, open: Option<Ts>, e: Event)
    requires ValidOpen(pid, open) && (open.Some? ==> Sparse(open.value)) && (e.Arrive? ==> 12 <= e.p.size)
    ensures var r := React(pid, open, e); FewEach(r.out) && (r.open.Some? ==> Sparse(r.open.value))
  {
    match e {
      case Arrive(p) =>
        SplitIsSparse(if open.None? then FirstCell(pid) else open.value, p, p.size + ULE_HDR_AND_CRC);
      case Timer =>
        if open.Some? {
          SparseHasRoom(open.value);
        }
    }
  }

  lemma {:induction false} LongPacketsStaySparse(pid: nat, es: seq<Event>)
    requires NoneShorter(Arrivals(es), 12)
    ensures FewEach(Run(pid, es).out) && (Run(pid, es).open.Some? ==> Sparse(Run(pid, es).open.value))
  {
    if es != [] {
      var n := |es| - 1;
      var a := Arrivals(es[..n]);
      assert forall i | 0 <= i < |a| :: a[i] == Arrivals(es)[i];
      assert es[n].Arrive? ==> Arrivals(es)[|a|] == es[n].p;
      LongPacketsStaySparse(pid, es[..n]);
      ReactIsSparse(pid, Run(pid, es[..n]).open, es[n]);
    }
  }

  lemma LongPacketsStayInBounds(pid: nat, es: seq<Event>)
    requires NoneShorter(Arrivals(es), 12)
    ensures InBounds(pid, es) && HasRoom(pid, es)
  {
    LongPacketsStaySparse(pid, es);
    if Run(pid, es).open.Some? {
      SparseHasRoom(Run(pid, es).open.value);
    }
  }

  // At every arrival the open cell has room to list another fragment: no call to
  // send_frags writes past its arrays.
  ghost predicate Fits(pid: nat, es: seq<Event>) {
    es != [] ==>
      var n := |es| - 1;
      Fits(pid, es[..n]) && (es[n].Arrive? ==> HasRoom(pid, es[..n]))
  }

  lemma {:induction false} SplitIsFew(c: Ts, p: Pkt, psize: nat)
    requires 0 < c.space && |c.chunks| < MAX_FRAGS
    ensures var r := Split(c, p, psize); FewEach(r.out) && (r.open.Some? ==> |r.open.value.chunks| <= MAX_FRAGS)
    decreases psize
  {
    if psize > c.space {
      SplitIsFew(NewCell(c.pid), p, psize - c.space);
    }
  }

  // The first cell written has one fragment more than the open cell had.
  lemma FirstGrows(c: Ts, p: Pkt, psize: nat)
    requires 0 < c.space
    ensures var r := Split(c, p, psize);
            if r.out == [] then r.open.Some? && |r.open.value.chunks| == |c.chunks| + 1
            else |r.out[0].chunks| == |c.chunks| + 1
  {
  }

  lemma FewEachSplit(cs: seq<Ts>, ds: seq<Ts>)
    ensures FewEach(cs + ds) <==> FewEach(cs) && FewEach(ds)
  {
    if FewEach(cs + ds) {
      assert forall k | 0 <= k < |cs| :: (cs + ds)[k] == cs[k];
      assert forall k | 0 <= k < |ds| :: (cs + ds)[|cs| + k] == ds[k];
    }
  }

  lemma ReactFits(pid: nat, open: Option<Ts>, e: Event)
    requires ValidOpen(pid, open)
    ensures var r := React(pid, open, e);
            FewEach(r.out) && FewOpen(r.open, MAX_FRAGS) <==>
              FewOpen(open, if e.Arrive? then MAX_FRAGS - 1 else MAX_FRAGS)
  {
    match e {
      case Arrive(p) =>
        var c := if open.None? then FirstCell(pid) else open.value;
        FirstGrows(c, p, p.size + ULE_HDR_AND_CRC);
        if FewOpen(open, MAX_FRAGS - 1) {
          SplitIsFew(c, p, p.size + ULE_HDR_AND_CRC);
        }
      case Timer =>
    }
  }

  // It is the same that every arrival finds room and that no cell ever lists too many
  // fragments.
  lemma {:induction false} FitsIffInBounds(pid: nat, es: seq<Event>)
    ensures Fits(pid, es) <==> InBounds(pid, es)
  {
    if es != [] {
      var n := |es| - 1;
      var s := Run(pid, es[..n]);
      FitsIffInBounds(pid, es[..n]);
      ReactFits(pid, s.open, es[n]);
      FewEachSplit(s.out, React(pid, s.open, es[n]).out);
    }
  }

  // Packets of 12 bytes or more always fit.
  lemma LongPacketsFit(pid: nat, es: seq<Event>)
    requires NoneShorter(Arrivals(es), 12)
    ensures Fits(pid, es)
  {
    LongPacketsStayInBounds(pid, es);
    FitsIffInBounds(pid, es);
  }

  // A packet of 176 bytes, one byte of which spills into a second cell, then n packets of
  // 11 bytes.
  ghost function SmallPackets(n: nat): seq<Event> {
    if n == 0 then [Arrive(Pkt(0, 176))] else SmallPackets(n - 1) + [Arrive(Pkt(n, 11))]
  }

  lemma {:induction false} SmallPacketsPileUp(pid: nat, n: nat)
    requires n <= 9
    ensures NoneShorter(Arrivals(SmallPackets(n)), 11)
    ensures var r := Run(pid, SmallPackets(n));
            r.open.Some? && !r.open.value.pusi && r.open.value.space == 183 - 19 * n && |r.open.value.chunks| == n + 1
  {
    var es := SmallPackets(n);
    if n == 0 {
      assert es[..0] == [];
      var r := Split(NewCell(pid), Pkt(0, 176), 1);
    } else {
      SmallPacketsPileUp(pid, n - 1);
      assert es[..|es| - 1] == SmallPackets(n - 1);
    }
  }

  // 12 bytes is the exact bound for the cells, for the room the open one has, and for no
  // call to write past its arrays:
  // with shorter packets allowed, some run puts a tenth fragment into a cell and leaves it
  // open, and the next packet adds an eleventh.
  lemma TwelveBytesIsTheBound(b: nat)
    ensures (forall pid, es | NoneShorter(Arrivals(es), b) :: InBounds(pid, es)) <==> 12 <= b
    ensures (forall pid, es | NoneShorter(Arrivals(es), b) :: HasRoom(pid, es)) <==> 12 <= b
    ensures (forall pid, es | NoneShorter(Arrivals(es), b) :: Fits(pid, es)) <==> 12 <= b
  {
    if 12 <= b {
      forall pid, es | NoneShorter(Arrivals(es), b) ensures InBounds(pid, es) && HasRoom(pid, es) && Fits(pid, es) {
        LongPacketsStayInBounds(pid, es);
        LongPacketsFit(pid, es);
      }
    } else {
      var es := TenInOneCell();
      var es' := ElevenInOneCell();
      ShorterToo(Arrivals(es), b);
      ShorterToo(Arrivals(es'), b);
    }
  }

  lemma ShorterToo(ps: seq<Pkt>, b: nat)
    requires NoneShorter(ps, 11) && b <= 11
    ensures NoneShorter(ps, b)
  {
  }

  lemma TenInOneCell() returns (es: seq<Event>)
    ensures es == SmallPackets(9) && NoneShorter(Arrivals(es), 11) && !HasRoom(0, es)
  {
    SmallPacketsPileUp(0, 9);
    es := SmallPackets(9);
  }

  lemma ElevenInOneCell() returns (es: seq<Event>)
    ensures NoneShorter(Arrivals(es), 11) && !InBounds(0, es) && !Fits(0, es)
  {
    SmallPacketsPileUp(0, 9);
    var nine := SmallPackets(9);
    es := nine + [Arrive(Pkt(10, 11))];
    assert es[..|es| - 1] == nine;
    var r := Run(0, es);
    assert |r.out[|Run(0, nine).out|].chunks| == 11;
  }
}
