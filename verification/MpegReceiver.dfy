// Reassembly from MPEG cells when any cells at all may be lost.
module MpegReceiver {
  import opened Optional
  import opened MpegSender

  // The packet being reassembled: its uid, its size before encapsulation, and the bytes
  // collected.
  datatype Rx = Rx(uid: nat, size: nat, len: nat)

  // The loop body of sendUp: the new buffer, and the packet sent up if it is complete.
  function RxNext(rx: Option<Rx>, f: Chunk): (r: (Option<Rx>, seq<Pkt>)) {
    var b := if rx.Some? && rx.value.uid == f.uid then rx.value else Rx(f.uid, f.size, 0);
    var b' := b.(len := b.len + f.len);
    if b'.size + ULE_HDR_AND_CRC == b'.len then (None, [Pkt(b'.uid, b'.size)])
    else (Some(b'), [])
  }

  // Fragments one by one; fragment i arrives when got[i] holds.
  function RxChunks(rx: Option<Rx>, fs: seq<Chunk>, got: seq<bool>): (r: (Option<Rx>, seq<Pkt>))
    requires |got| == |fs|
  {
    if fs == [] then (rx, [])
    else
      var n := |fs| - 1;
      var (rx1, ps) := RxChunks(rx, fs[..n], got[..n]);
      if got[n] then var (rx2, qs) := RxNext(rx1, fs[n]); (rx2, ps + qs) else (rx1, ps)
  }

  lemma {:induction false} RxChunksAppend(rx: Option<Rx>, fs: seq<Chunk>, got: seq<bool>, gs: seq<Chunk>,
                                          got': seq<bool>)
    requires |got| == |fs| && |got'| == |gs|
    ensures var (rx1, ps) := RxChunks(rx, fs, got);
            var (rx2, qs) := RxChunks(rx1, gs, got');
            RxChunks(rx, fs + gs, got + got') == (rx2, ps + qs)
  {
    var (rx1, ps) := RxChunks(rx, fs, got);
    if gs == [] {
      assert fs + gs == fs && got + got' == got && ps + [] == ps;
    } else {
      var n := |gs| - 1;
      var (rx2, qs) := RxChunks(rx1, gs[..n], got'[..n]);
      assert ps + (qs + RxNext(rx2, gs[n]).1) == (ps + qs) + RxNext(rx2, gs[n]).1;
      assert (fs + gs)[..|fs| + n] == fs + gs[..n] && (got + got')[..|fs| + n] == got + got'[..n];
      RxChunksAppend(rx, fs, got, gs[..n], got'[..n]);
    }
  }

  // The cells of one pid; cell k arrives when ok[k] holds.
  function RxCells(rx: Option<Rx>, cs: seq<Ts>, ok: seq<bool>): (r: (Option<Rx>, seq<Pkt>))
    requires |ok| == |cs|
  {
    if cs == [] then (rx, [])
    else
      var n := |cs| - 1;
      var (rx1, ps) := RxCells(rx, cs[..n], ok[..n]);
      if ok[n] then var (rx2, qs) := RxCell(rx1, cs[n].chunks); (rx2, ps + qs) else (rx1, ps)
  }

  function RxCell(rx: Option<Rx>, fs: seq<Chunk>): (r: (Option<Rx>, seq<Pkt>)) {
    if fs == [] then (rx, [])
    else
      var n := |fs| - 1;
      var (rx1, ps) := RxCell(rx, fs[..n]);
      var (rx2, qs) := RxNext(rx1, fs[n]);
      (rx2, ps + qs)
  }

  // ---------- Cells as fragments ----------

  ghost function Chunks(cs: seq<Ts>): (fs: seq<Chunk>) {
    if cs == [] then [] else Chunks(cs[..|cs| - 1]) + cs[|cs| - 1].chunks
  }

  // Which fragments arrive.
  ghost function Got(cs: seq<Ts>, ok: seq<bool>): (got: seq<bool>)
    requires |ok| == |cs|
    ensures |got| == |Chunks(cs)|
  {
    if cs == [] then []
    else
      var n := |cs| - 1;
      Got(cs[..n], ok[..n]) + Repeat(ok[n], |cs[n].chunks|)
  }

  ghost function Repeat(b: bool, n: nat): (s: seq<bool>)
    ensures |s| == n && forall i | 0 <= i < n :: s[i] == b
  {
    seq(n, i => b)
  }

  lemma {:induction false} CellIsItsChunks(rx: Option<Rx>, fs: seq<Chunk>, b: bool)
    ensures RxChunks(rx, fs, Repeat(b, |fs|)) == if b then RxCell(rx, fs) else (rx, [])
  {
    if fs != [] {
      CellIsItsChunks(rx, fs[..|fs| - 1], b);
      assert Repeat(b, |fs|)[..|fs| - 1] == Repeat(b, |fs| - 1);
    }
  }

  lemma {:induction false} CellsAreTheirChunks(rx: Option<Rx>, cs: seq<Ts>, ok: seq<bool>)
    requires |ok| == |cs|
    ensures RxCells(rx, cs, ok) == RxChunks(rx, Chunks(cs), Got(cs, ok))
  {
    if cs != [] {
      var n := |cs| - 1;
      CellsAreTheirChunks(rx, cs[..n], ok[..n]);
      var (rx1, ps) := RxCells(rx, cs[..n], ok[..n]);
      assert ps + [] == ps;
      CellIsItsChunks(rx1, cs[n].chunks, ok[n]);
      RxChunksAppend(rx, Chunks(cs[..n]), Got(cs[..n], ok[..n]), cs[n].chunks, Repeat(ok[n], |cs[n].chunks|));
    }
  }

  ghost predicate Carries(c: Ts, uid: nat) {
    exists i | 0 <= i < |c.chunks| :: c.chunks[i].uid == uid
  }

  // Every cell carrying a fragment of a packet arrived.
  ghost predicate Arrived(cs: seq<Ts>, ok: seq<bool>, uid: nat)
    requires |ok| == |cs|
  {
    forall k | 0 <= k < |cs| && Carries(cs[k], uid) :: ok[k]
  }

  ghost predicate AllGot(fs: seq<Chunk>, got: seq<bool>, uid: nat)
    requires |got| == |fs|
  {
    forall i | 0 <= i < |fs| && fs[i].uid == uid :: got[i]
  }

  lemma {:induction false} ArrivedIsAllGot(cs: seq<Ts>, ok: seq<bool>, uid: nat)
    requires |ok| == |cs|
    ensures Arrived(cs, ok, uid) <==> AllGot(Chunks(cs), Got(cs, ok), uid)
  {
    if cs != [] {
      var n := |cs| - 1;
      var fs, got := Chunks(cs[..n]), Got(cs[..n], ok[..n]);
      ArrivedIsAllGot(cs[..n], ok[..n], uid);
      AllGotAppend(fs, got, cs[n].chunks, Repeat(ok[n], |cs[n].chunks|), uid);
      LastCell(cs, ok, uid);
      assert Chunks(cs) == fs + cs[n].chunks && Got(cs, ok) == got + Repeat(ok[n], |cs[n].chunks|);
    }
  }

  lemma AllGotAppend(fs: seq<Chunk>, got: seq<bool>, gs: seq<Chunk>, got': seq<bool>, uid: nat)
    requires |got| == |fs| && |got'| == |gs|
    ensures AllGot(fs + gs, got + got', uid) <==> AllGot(fs, got, uid) && AllGot(gs, got', uid)
  {
    if AllGot(fs + gs, got + got', uid) {
      assert forall i | 0 <= i < |fs| :: (fs + gs)[i] == fs[i] && (got + got')[i] == got[i];
      forall i | 0 <= i < |gs| && gs[i].uid == uid ensures got'[i] {
        assert (fs + gs)[|fs| + i] == gs[i] && (got + got')[|fs| + i] == got'[i];
      }
    }
  }

  lemma LastCell(cs: seq<Ts>, ok: seq<bool>, uid: nat)
    requires |ok| == |cs| > 0
    ensures var n := |cs| - 1;
            Arrived(cs, ok, uid) <==>
              Arrived(cs[..n], ok[..n], uid) && AllGot(cs[n].chunks, Repeat(ok[n], |cs[n].chunks|), uid)
  {
    var n := |cs| - 1;
    assert forall k | 0 <= k < n :: cs[..n][k] == cs[k] && ok[..n][k] == ok[k];
  }

  // ---------- One packet after another ----------

  // All the fragments of p, in order.
  ghost predicate IsWord(fs: seq<Chunk>, p: Pkt) {
    && Positive(fs) && Total(fs) == p.size + ULE_HDR_AND_CRC
    && forall i | 0 <= i < |fs| :: fs[i].uid == p.uid && fs[i].size == p.size
  }

  ghost predicate Fresh(rx: Option<Rx>, uid: nat) {
    rx.Some? ==> rx.value.uid != uid
  }

  // Bytes of the first fragments of a word that arrive.
  ghost function Collected(fs: seq<Chunk>, got: seq<bool>): nat
    requires |got| == |fs|
  {
    if fs == [] then 0
    else Collected(fs[..|fs| - 1], got[..|fs| - 1]) + if got[|fs| - 1] then fs[|fs| - 1].len else 0
  }

  lemma {:induction false} CollectedAtMostTotal(fs: seq<Chunk>, got: seq<bool>)
    requires |got| == |fs| && Positive(fs)
    ensures Collected(fs, got) <= Total(fs)
    ensures Collected(fs, got) == Total(fs) <==> forall i | 0 <= i < |fs| :: got[i]
    ensures 0 < Collected(fs, got) || forall i | 0 <= i < |fs| :: !got[i]
  {
    if fs != [] {
      CollectedAtMostTotal(fs[..|fs| - 1], got[..|fs| - 1]);
    }
  }

  // While a packet is short of bytes, the buffer holds what has arrived of it.
  lemma {:induction false} PartOfWord(rx: Option<Rx>, fs: seq<Chunk>, got: seq<bool>, p: Pkt)
    requires |got| == |fs| && Fresh(rx, p.uid) && Positive(fs) && Total(fs) < p.size + ULE_HDR_AND_CRC
    requires forall i | 0 <= i < |fs| :: fs[i].uid == p.uid && fs[i].size == p.size
    ensures var n := Collected(fs, got);
            RxChunks(rx, fs, got) == (if n == 0 then rx else Some(Rx(p.uid, p.size, n)), [])
  {
    if fs != [] {
      var n := |fs| - 1;
      PartOfWord(rx, fs[..n], got[..n], p);
      CollectedAtMostTotal(fs, got);
      CollectedAtMostTotal(fs[..n], got[..n]);
      var (rx1, ps) := RxChunks(rx, fs[..n], got[..n]);
      assert fs[n].uid == p.uid && fs[n].size == p.size && ps + [] == ps;
      if got[n] {
        PartNext(rx, rx1, Collected(fs[..n], got[..n]), fs[n], p);
      }
    }
  }

  lemma PartNext(rx: Option<Rx>, rx1: Option<Rx>, collected: nat, f: Chunk, p: Pkt)
    requires Fresh(rx, p.uid) && 0 < f.len && f.uid == p.uid && f.size == p.size
    requires rx1 == if collected == 0 then rx else Some(Rx(p.uid, p.size, collected))
    requires collected + f.len < p.size + ULE_HDR_AND_CRC
    ensures RxNext(rx1, f) == (Some(Rx(p.uid, p.size, collected + f.len)), [])
  {
  }

  // A packet is sent up exactly when all its fragments arrive.
  lemma WordDelivers(rx: Option<Rx>, fs: seq<Chunk>, got: seq<bool>, p: Pkt)
    requires |got| == |fs| && Fresh(rx, p.uid) && IsWord(fs, p)
    ensures RxChunks(rx, fs, got).1 == if AllGot(fs, got, p.uid) then [p] else []
    ensures RxChunks(rx, fs, got).0 == rx || RxChunks(rx, fs, got).0 == None || !Fresh(RxChunks(rx, fs, got).0, p.uid)
  {
    var n := |fs| - 1;
    PartOfWord(rx, fs[..n], got[..n], p);
    CollectedAtMostTotal(fs, got);
    assert AllGot(fs, got, p.uid) <==> Collected(fs, got) == Total(fs);
    LastOfWord(rx, RxChunks(rx, fs[..n], got[..n]).0, Collected(fs[..n], got[..n]), fs[n], p);
  }

  lemma LastOfWord(rx: Option<Rx>, rx1: Option<Rx>, collected: nat, f: Chunk, p: Pkt)
    requires Fresh(rx, p.uid) && 0 < f.len && f.uid == p.uid && f.size == p.size
    requires rx1 == if collected == 0 then rx else Some(Rx(p.uid, f.size, collected))
    ensures var (rx2, qs) := RxNext(rx1, f);
            && qs == (if collected + f.len == f.size + ULE_HDR_AND_CRC then [p] else [])
            && (rx2 == None || !Fresh(rx2, p.uid))
  {
  }

  // Fragments of one packet are added up, and it is sent up at the moment they come to its
  // size with header and CRC, not before and not beyond.
  lemma {:induction false} AddedUp(rx: Option<Rx>, fs: seq<Chunk>, p: Pkt)
    requires fs != [] && Fresh(rx, p.uid) && forall i | 0 <= i < |fs| :: fs[i].uid == p.uid && fs[i].size == p.size
    requires forall i | 0 < i < |fs| :: Total(fs[..i]) != p.size + 8
    ensures RxCell(rx, fs) ==
            if Total(fs) == p.size + 8 then (None, [p]) else (Some(Rx(p.uid, p.size, Total(fs))), [])
  {
    var n := |fs| - 1;
    if n == 0 {
      assert fs[..0] == [];
    } else {
      forall i | 0 < i < n ensures Total(fs[..n][..i]) != p.size + 8 {
        assert fs[..n][..i] == fs[..i];
      }
      AddedUp(rx, fs[..n], p);
    }
    assert fs[n].uid == p.uid && fs[n].size == p.size;
    assert [] + RxNext(RxCell(rx, fs[..n]).0, fs[n]).1 == RxNext(RxCell(rx, fs[..n]).0, fs[n]).1;
  }

  ghost function Flatten(ws: seq<seq<Chunk>>): (fs: seq<Chunk>) {
    if ws == [] then [] else Flatten(ws[..|ws| - 1]) + ws[|ws| - 1]
  }

  // ws holds the fragments of each packet of ps.
  ghost predicate Spell(ws: seq<seq<Chunk>>, ps: seq<Pkt>) {
    |ws| == |ps| && forall i | 0 <= i < |ws| :: IsWord(ws[i], ps[i])
  }

  ghost predicate DistinctUids(ps: seq<Pkt>) {
    forall i, j | 0 <= i < j < |ps| :: ps[i].uid != ps[j].uid
  }

  // The packets of ps all of whose fragments arrive, in order.
  ghost function AllOf(ps: seq<Pkt>, fs: seq<Chunk>, got: seq<bool>): (qs: seq<Pkt>)
    requires |got| == |fs|
  {
    if ps == [] then []
    else AllOf(ps[..|ps| - 1], fs, got) + if AllGot(fs, got, ps[|ps| - 1].uid) then [ps[|ps| - 1]] else []
  }

  // Fragments of other packets make no difference.
  lemma {:induction false} AllOfPrefix(ps: seq<Pkt>, fs: seq<Chunk>, got: seq<bool>, gs: seq<Chunk>, got': seq<bool>)
    requires |got| == |fs| && |got'| == |gs|
    requires forall i, j | 0 <= i < |ps| && 0 <= j < |gs| :: ps[i].uid != gs[j].uid
    ensures AllOf(ps, fs + gs, got + got') == AllOf(ps, fs, got)
  {
    if ps != [] {
      AllOfPrefix(ps[..|ps| - 1], fs, got, gs, got');
      AllGotAppend(fs, got, gs, got', ps[|ps| - 1].uid);
    }
  }

  lemma {:induction false} UidsOfWords(ws: seq<seq<Chunk>>, ps: seq<Pkt>, i: nat)
    requires Spell(ws, ps) && i < |Flatten(ws)|
    ensures exists k | 0 <= k < |ps| :: ps[k].uid == Flatten(ws)[i].uid
  {
    var n := |ws| - 1;
    if i < |Flatten(ws[..n])| {
      UidsOfWords(ws[..n], ps[..n], i);
      var k :| 0 <= k < |ps[..n]| && ps[..n][k].uid == Flatten(ws)[i].uid;
      assert ps[k].uid == Flatten(ws)[i].uid;
    } else {
      assert Flatten(ws)[i] == ws[n][i - |Flatten(ws[..n])|];
      assert ps[n].uid == Flatten(ws)[i].uid;
    }
  }

  // A buffered packet is one of those sent.
  ghost predicate BufferedFrom(rx: Option<Rx>, ps: seq<Pkt>) {
    rx.Some? ==> exists k | 0 <= k < |ps| :: ps[k].uid == rx.value.uid
  }

  lemma {:induction false} WordsDeliver(ws: seq<seq<Chunk>>, ps: seq<Pkt>, got: seq<bool>)
    requires Spell(ws, ps) && DistinctUids(ps) && |got| == |Flatten(ws)|
    ensures RxChunks(None, Flatten(ws), got).1 == AllOf(ps, Flatten(ws), got)
    ensures BufferedFrom(RxChunks(None, Flatten(ws), got).0, ps)
  {
    if ws != [] {
      var n := |ws| - 1;
      var p, fs := ps[n], Flatten(ws[..n]);
      var got1, got2 := got[..|fs|], got[|fs|..];
      assert got == got1 + got2;
      WordsDeliver(ws[..n], ps[..n], got1);
      var rx := RxChunks(None, fs, got1).0;
      assert Fresh(rx, p.uid);
      WordDelivers(rx, ws[n], got2, p);
      RxChunksAppend(None, fs, got1, ws[n], got2);
      OtherWords(ws[..n], ps[..n], got1, p, ws[n], got2);
      BufferedAfter(rx, RxChunks(rx, ws[n], got2).0, ps, n);
    }
  }

  lemma OtherWords(ws: seq<seq<Chunk>>, ps: seq<Pkt>, got: seq<bool>, p: Pkt, w: seq<Chunk>, got': seq<bool>)
    requires Spell(ws, ps) && |got| == |Flatten(ws)| && |got'| == |w| && IsWord(w, p)
    requires forall i | 0 <= i < |ps| :: ps[i].uid != p.uid
    ensures AllOf(ps, Flatten(ws) + w, got + got') == AllOf(ps, Flatten(ws), got)
    ensures AllGot(Flatten(ws) + w, got + got', p.uid) == AllGot(w, got', p.uid)
  {
    AllOfPrefix(ps, Flatten(ws), got, w, got');
    AllGotAppend(Flatten(ws), got, w, got', p.uid);
    forall i | 0 <= i < |Flatten(ws)| ensures Flatten(ws)[i].uid != p.uid {
      UidsOfWords(ws, ps, i);
    }
  }

  lemma BufferedAfter(rx: Option<Rx>, rx': Option<Rx>, ps: seq<Pkt>, n: nat)
    requires n + 1 == |ps| && BufferedFrom(rx, ps[..n]) && (rx' == rx || rx' == None || !Fresh(rx', ps[n].uid))
    ensures BufferedFrom(rx', ps)
  {
    if rx' == rx && rx.Some? {
      var k :| 0 <= k < |ps[..n]| && ps[..n][k].uid == rx.value.uid;
      assert ps[k].uid == rx'.value.uid;
    }
  }
}
