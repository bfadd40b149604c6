// ALPDU headers, fragments, and the grammar of the fragment stream of one frag_id.
module RleFormat {
  import opened Optional
  import opened Sequences

  const FHS: nat := 2
  const PHS: nat := 2
  const TS: nat := 1

  // The two bits of start_end.
  datatype Flags = Flags(start: bool, end: bool)

  // Header of an ALPDU waiting in the queue; size is its length before any
  // fragmentation overhead.
  datatype Hdr = Hdr(uid: nat, prio: nat, size: nat, total: nat, flags: Flags, psize: nat)

  // One fragment in a burst; total is the total_length the receiver reads in the header
  // of the ALPDU the fragment points at.
  datatype Frag = Frag(flags: Flags, len: nat, fid: nat, seqno: nat, uid: nat, total: nat)

  // init_packet: only eight priorities are supported.
  function InitHeader(uid: nat, prio: nat, size: nat, alpduHdr: nat): (h: Option<Hdr>)
    ensures h.Some? <==> prio <= 7
    ensures h.Some? ==>
              WholeHdr(h.value) && h.value.prio == prio && h.value.uid == uid && h.value.total == size + alpduHdr
  {
    if prio > 7 then None
    else Some(Hdr(uid, prio, size + alpduHdr, size + alpduHdr, Flags(true, true), size + alpduHdr))
  }

  // An ALPDU of which nothing has been sent.
  predicate WholeHdr(h: Hdr) {
    h.prio < 8 && h.flags == Flags(true, true) && h.total == h.size == h.psize
  }

  // An ALPDU of which something has been sent and something is left: the overhead of
  // fragmentation has been added once.
  predicate PartHdr(h: Hdr) {
    h.prio < 8 && h.flags == Flags(false, false) && h.total == h.size + PHS + TS && 0 < h.psize <= h.total
  }

  // ---------- The stream of one frag_id ----------

  // Where the sender is in the stream: between packets, with n fragmented packets
  // completed, or inside packet number n with sent of its total bytes gone.
  datatype Tx = Idle(n: nat) | Mid(n: nat, uid: nat, total: nat, sent: nat)

  // One more fragment. A stream is a concatenation of whole packets and of words made of
  // a first fragment, any number of middle ones and a last one, all of one packet, with
  // lengths adding up to its total and its number modulo 256 on the last.
  function TxNext(tx: Tx, f: Frag): (r: Option<Tx>) {
    match tx
    case Idle(n) =>
      if !f.flags.start then None
      else if f.flags.end then (if f.len == f.total then Some(tx) else None)
      else if f.len < f.total then Some(Mid(n, f.uid, f.total, f.len))
      else None
    case Mid(n, uid, total, sent) =>
      if f.flags.start || f.uid != uid || f.total != total then None
      else if !f.flags.end then (if sent + f.len < total then Some(Mid(n, uid, total, sent + f.len)) else None)
      else if sent + f.len == total && f.seqno == n % 256 then Some(Idle(n + 1))
      else None
  }

  function TxRun(tx: Tx, fs: seq<Frag>): (r: Option<Tx>)
    decreases fs
  {
    if fs == [] then Some(tx)
    else
      match TxNext(tx, fs[0])
      case None => None
      case Some(tx') => TxRun(tx', fs[1..])
  }

  lemma {:induction false} TxRunAppend(tx: Tx, fs: seq<Frag>, gs: seq<Frag>)
    requires TxRun(tx, fs).Some?
    ensures TxRun(tx, fs + gs) == TxRun(TxRun(tx, fs).value, gs)
    decreases fs
  {
    if fs == [] {
      assert fs + gs == gs;
    } else {
      assert (fs + gs)[1..] == fs[1..] + gs;
      TxRunAppend(TxNext(tx, fs[0]).value, fs[1..], gs);
    }
  }

  // The fragments of one frag_id, in order.
  function OnFid(fs: seq<Frag>, fid: nat): (gs: seq<Frag>) {
    if fs == [] then []
    else (if fs[0].fid == fid then [fs[0]] else []) + OnFid(fs[1..], fid)
  }

  lemma {:induction false} OnFidAppend(fs: seq<Frag>, gs: seq<Frag>, fid: nat)
    ensures OnFid(fs + gs, fid) == OnFid(fs, fid) + OnFid(gs, fid)
  {
    if fs == [] {
      assert fs + gs == gs;
    } else {
      assert (fs + gs)[0] == fs[0] && (fs + gs)[1..] == fs[1..] + gs;
      OnFidAppend(fs[1..], gs, fid);
      Associate(if fs[0].fid == fid then [fs[0]] else [], OnFid(fs[1..], fid), OnFid(gs, fid));
    }
  }

  // Packets completed by a stream, in order.
  function Ends(fs: seq<Frag>): (us: seq<nat>) {
    if fs == [] then []
    else (if fs[0].flags.end then [fs[0].uid] else []) + Ends(fs[1..])
  }

  lemma {:induction false} EndsAppend(fs: seq<Frag>, gs: seq<Frag>)
    ensures Ends(fs + gs) == Ends(fs) + Ends(gs)
  {
    if fs == [] {
      assert fs + gs == gs;
    } else {
      assert (fs + gs)[0] == fs[0] && (fs + gs)[1..] == fs[1..] + gs;
      EndsAppend(fs[1..], gs);
      Associate(if fs[0].flags.end then [fs[0].uid] else [], Ends(fs[1..]), Ends(gs));
    }
  }
}
