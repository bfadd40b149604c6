// Reassembly of one frag_id: what the receiver does with each fragment, over a lossless
// channel and when fragments are lost.
module RleReceiver {
  import opened Optional
  import opened RleFormat

  // Reassembly context: the buffered packet, the sequence number expected, and the bytes
  // collected.
  datatype Ctx = Ctx(pkt: Option<nat>, exp: nat, len: nat)

  // What a fragment causes. NoPacket is the accept branch taken with nothing buffered,
  // where the source has no packet to send up.
  datatype Outcome = Nothing | Deliver(uid: nat) | NoPacket

  // The loop body of sendUp.
  function RxNext(c: Ctx, f: Frag): (r: (Ctx, Outcome)) {
    if f.flags == Flags(true, true) then (c, Deliver(f.uid))
    else
      var c1 := if f.flags.start then Ctx(Some(f.uid), if c.pkt.Some? then (c.exp + 1) % 256 else c.exp, 0) else c;
      var c2 := c1.(len := c1.len + f.len);
      if !f.flags.end then (c2, Nothing)
      else if c2.len == f.total && c2.exp == f.seqno then
        match c2.pkt
        case None => (c2, NoPacket)
        case Some(u) => (Ctx(None, (c2.exp + 1) % 256, 0), Deliver(u))
      else (c2.(pkt := None, exp := (f.seqno + 1) % 256), Nothing)
  }

  function Emit(o: Outcome): (us: seq<nat>) {
    if o.Deliver? then [o.uid] else []
  }

  // Final context and packets delivered, in order.
  function RxRun(c: Ctx, fs: seq<Frag>): (r: (Ctx, seq<nat>))
    decreases fs
  {
    if fs == [] then (c, [])
    else
      var (c1, o) := RxNext(c, fs[0]);
      var (c2, us) := RxRun(c1, fs[1..]);
      (c2, Emit(o) + us)
  }

  lemma {:induction false} RxRunAppend(c: Ctx, fs: seq<Frag>, gs: seq<Frag>)
    ensures var (c1, us) := RxRun(c, fs); var (c2, vs) := RxRun(c1, gs); RxRun(c, fs + gs) == (c2, us + vs)
    decreases fs
  {
    if fs == [] {
      assert fs + gs == gs && [] + RxRun(c, gs).1 == RxRun(c, gs).1;
    } else {
      assert (fs + gs)[1..] == fs[1..] + gs;
      var (c0, o) := RxNext(c, fs[0]);
      RxRunAppend(c0, fs[1..], gs);
      var (c1, us) := RxRun(c0, fs[1..]);
      var vs := RxRun(c1, gs).1;
      assert Emit(o) + (us + vs) == (Emit(o) + us) + vs;
    }
  }

  // No fragment takes the accept branch without a packet.
  ghost predicate NeverFails(c: Ctx, fs: seq<Frag>)
    decreases fs
  {
    fs != [] ==> RxNext(c, fs[0]).1 != NoPacket && NeverFails(RxNext(c, fs[0]).0, fs[1..])
  }

  lemma {:induction false} NeverFailsNext(c: Ctx, fs: seq<Frag>, f: Frag)
    ensures NeverFails(c, fs + [f]) <==> NeverFails(c, fs) && RxNext(RxRun(c, fs).0, f).1 != NoPacket
    decreases fs
  {
    if fs == [] {
      assert [] + [f] == [f] && [f][1..] == [];
    } else {
      assert (fs + [f])[1..] == fs[1..] + [f];
      NeverFailsNext(RxNext(c, fs[0]).0, fs[1..], f);
    }
  }

  // ---------- Lossless ----------

  // The context mirrors the sender: same sequence number, same part-sent packet, same
  // number of bytes.
  ghost predicate Synced(tx: Tx, c: Ctx) {
    && c.exp == tx.n % 256
    && match tx
       case Idle(_) => c.pkt == None
       case Mid(_, uid, _, sent) => c.pkt == Some(uid) && c.len == sent
  }

  lemma NextModulo(n: nat)
    ensures (n % 256 + 1) % 256 == (n + 1) % 256
  {
  }

  lemma SyncedNext(tx: Tx, c: Ctx, f: Frag)
    requires Synced(tx, c) && TxNext(tx, f).Some?
    ensures Synced(TxNext(tx, f).value, RxNext(c, f).0)
    ensures RxNext(c, f).1 == if f.flags.end then Deliver(f.uid) else Nothing
  {
    NextModulo(tx.n);
  }

  // Over a lossless channel a stream delivers exactly the packets it completes, in order.
  lemma {:induction false} LosslessDelivery(tx: Tx, c: Ctx, fs: seq<Frag>)
    requires Synced(tx, c) && TxRun(tx, fs).Some?
    ensures RxRun(c, fs).1 == Ends(fs) && Synced(TxRun(tx, fs).value, RxRun(c, fs).0) && NeverFails(c, fs)
    decreases fs
  {
    if fs != [] {
      SyncedNext(tx, c, fs[0]);
      LosslessDelivery(TxNext(tx, fs[0]).value, RxNext(c, fs[0]).0, fs[1..]);
    }
  }

  // ---------- Recovery ----------

  // The context in which a wholly received fragmented packet is completed.
  ghost predicate InWord(c: Ctx, tx: Tx, exp: nat) {
    tx.Mid? && c == Ctx(Some(tx.uid), exp, tx.sent)
  }

  lemma {:induction false} MiddleOfWord(tx: Tx, c: Ctx, fs: seq<Frag>, exp: nat)
    requires InWord(c, tx, exp) && fs != [] && TxRun(tx, fs) == Some(Idle(tx.n + 1))
    requires forall i | 0 <= i < |fs| - 1 :: !fs[i].flags.end
    ensures RxRun(c, fs).1 == if exp == tx.n % 256 then [tx.uid] else []
    ensures RxRun(c, fs).0.pkt == None && RxRun(c, fs).0.exp == (tx.n + 1) % 256
    decreases fs
  {
    NextModulo(tx.n);
    if |fs| == 1 {
      assert fs[1..] == [];
    } else {
      assert !fs[0].flags.end;
      MiddleOfWord(TxNext(tx, fs[0]).value, RxNext(c, fs[0]).0, fs[1..], exp);
    }
  }

  // Whatever the context, a fragmented packet all of whose fragments arrive leaves the
  // context clean and expecting the next one, and is delivered exactly when the context,
  // after giving up any packet it still holds, expects its number.
  lemma WholePacketReceived(c: Ctx, n: nat, fs: seq<Frag>)
    requires |fs| >= 2 && TxRun(Idle(n), fs) == Some(Idle(n + 1))
    requires !fs[0].flags.end && forall i | 0 <= i < |fs| - 1 :: !fs[i].flags.end
    ensures var expected := if c.pkt.Some? then (c.exp + 1) % 256 else c.exp;
            RxRun(c, fs).1 == if expected == n % 256 then [fs[0].uid] else []
    ensures RxRun(c, fs).0.pkt == None && RxRun(c, fs).0.exp == (n + 1) % 256
  {
    var expected := if c.pkt.Some? then (c.exp + 1) % 256 else c.exp;
    MiddleOfWord(TxNext(Idle(n), fs[0]).value, RxNext(c, fs[0]).0, fs[1..], expected);
  }

  // After any last fragment that does not find its packet missing, the context is clean
  // and expects the next number, so the next fragmented packet is delivered if all of it
  // arrives.
  lemma RecoveryAfterLast(c: Ctx, n: nat, last: Frag, fs: seq<Frag>)
    requires last.flags == Flags(false, true) && last.seqno == n % 256 && RxNext(c, last).1 != NoPacket
    requires |fs| >= 2 && TxRun(Idle(n + 1), fs) == Some(Idle(n + 2))
    requires forall i | 0 <= i < |fs| - 1 :: !fs[i].flags.end
    ensures RxNext(c, last).0.pkt == None && RxNext(c, last).0.exp == (n + 1) % 256
    ensures RxRun(RxNext(c, last).0, fs).1 == [fs[0].uid]
  {
    NextModulo(n);
    WholePacketReceived(RxNext(c, last).0, n + 1, fs);
  }
}
