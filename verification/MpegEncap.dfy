// The MPEG encapsulator object: cells filled in place, buffers found by probing, and
// reassembly buffers updated in place.
module MpegEncap {
  import opened Optional
  import opened Sequences
  import opened MpegSender
  import opened MpegReceiver
  import opened MpegChannel

  // ---------- A turn of the packing loop ----------

  // Packing has come to cell c with psize bytes of p left, after sending out, on the way
  // to target.
  ghost predicate Pending(target: Sent, out: seq<Ts>, c: Ts, p: Pkt, psize: nat) {
    Filling(c) && 0 < psize && target == Split(c, p, psize).(out := out + Split(c, p, psize).out)
  }

  lemma TurnKeeps(target: Sent, out: seq<Ts>, c: Ts, p: Pkt, psize: nat)
    requires Pending(target, out, c, p, psize) && psize > c.space
    ensures Pending(target, out + [Put(c, p, c.space)], NewCell(c.pid), p, psize - c.space)
  {
    Associate(out, [Put(c, p, c.space)], Split(NewCell(c.pid), p, psize - c.space).out);
  }

  // ---------- The objects ----------

  ghost function ChunksOf(ps: seq<Pkt>, sizes: seq<nat>): (fs: seq<Chunk>)
    requires |ps| == |sizes|
    ensures |fs| == |ps| && forall i | 0 <= i < |fs| :: fs[i] == Chunk(ps[i].uid, ps[i].size, sizes[i])
  {
    seq(|ps|, i requires 0 <= i < |ps| => Chunk(ps[i].uid, ps[i].size, sizes[i]))
  }

  class DvbPayload {
    const frag: array<Pkt>
    const fragSize: array<nat>
    var index: nat

    ghost predicate Valid()
      reads this
    {
      frag.Length == fragSize.Length == MAX_FRAGS && index <= MAX_FRAGS
    }

    ghost function Chunks(): (fs: seq<Chunk>)
      requires Valid()
      reads this, frag, fragSize
    {
      ChunksOf(frag[..index], fragSize[..index])
    }

    constructor ()
      ensures Valid() && Chunks() == [] && fresh(frag) && fresh(fragSize)
    {
      frag := new Pkt[MAX_FRAGS](i => Pkt(0, 0));
      fragSize := new nat[MAX_FRAGS];
      index := 0;
    }

    method InsertFrag(p: Pkt, fsize: nat)
      requires Valid() && index < MAX_FRAGS
      modifies this, frag, fragSize
      ensures Valid() && Chunks() == old(Chunks()) + [Chunk(p.uid, p.size, fsize)]
    {
      frag[index] := p;
      fragSize[index] := fsize;
      index := index + 1;
    }
  }

  // A packet in one of the buffers, with the header fields used there.
  class Packet {
    var uid: nat
    var size: nat
    var pid: nat
    var addr: nat
    var length: nat
    var pusi: bool
    var space: nat
    var status: nat
    var queue: nat

    constructor (uid: nat, size: nat)
      ensures this.uid == uid && this.size == size && length == 0
    {
      this.uid, this.size, length := uid, size, 0;
    }
  }

  // Slot q of a buffer is free, or belongs to addr.
  ghost predicate Matches(buffer: array<Packet?>, q: nat, addr: nat)
    requires q < buffer.Length
    reads buffer, buffer[q]
  {
    buffer[q] == null || buffer[q].addr == addr
  }

  // Finds the first slot, going round from addr modulo N_QUEUES, that is free or belongs
  // to addr; None is where the source aborts.
  method GetQueue(buffer: array<Packet?>, addr: nat) returns (l: Option<nat>, ghost d: nat)
    requires buffer.Length == N_QUEUES
    ensures l.Some? ==> d < N_QUEUES && l.value == Slot(addr, d) && Matches(buffer, l.value, addr)
    ensures l.Some? ==> forall j | 0 <= j < d :: !Matches(buffer, Slot(addr, j), addr)
    ensures l.None? ==> forall q | 0 <= q < N_QUEUES :: !Matches(buffer, q, addr)
  {
    var k := addr % N_QUEUES;
    var q := k;
    d := 0;
    while true
      invariant d < N_QUEUES && q == Slot(addr, d)
      invariant forall j | 0 <= j < d :: !Matches(buffer, Slot(addr, j), addr)
      decreases N_QUEUES - d
    {
      if buffer[q] == null || buffer[q].addr == addr {
        return Some(q), d;
      }
      q := (q + 1) % N_QUEUES;
      OnceRound(addr, d);
      d := d + 1;
      if q == k {
        AllProbed(buffer, addr);
        return None, d;
      }
    }
  }

  lemma OnceRound(addr: nat, d: nat)
    requires d < N_QUEUES
    ensures (Slot(addr, d) + 1) % N_QUEUES == Slot(addr, d + 1)
    ensures Slot(addr, d + 1) == addr % N_QUEUES <==> d + 1 == N_QUEUES
  {
    var k := addr % N_QUEUES;
    assert Slot(addr, d) == if k + d < N_QUEUES then k + d else k + d - N_QUEUES;
  }

  lemma AllProbed(buffer: array<Packet?>, addr: nat)
    requires buffer.Length == N_QUEUES && forall j | 0 <= j < N_QUEUES :: !Matches(buffer, Slot(addr, j), addr)
    ensures forall q | 0 <= q < N_QUEUES :: !Matches(buffer, q, addr)
  {
    forall q | 0 <= q < N_QUEUES ensures !Matches(buffer, q, addr) {
      var k := addr % N_QUEUES;
      var j := if k <= q then q - k else q + N_QUEUES - k;
      assert Slot(addr, j) == q;
    }
  }

  // One encapsulator; dst is the one destination it sends to.
  class MpegLL {
    const id: nat
    const dst: nat
    const txBuffer: array<Packet?>
    const rxBuffer: array<Packet?>
    var payload: DvbPayload
    // Cells handed to sendDown, in order.
    ghost var sent: seq<Ts>
    // The cell being packed, and the packets being reassembled.
    ghost var open: Option<Ts>
    ghost var rx: seq<Option<Buf>>

    constructor (id: nat, dst: nat)
      ensures Valid() && this.id == id && this.dst == dst
      ensures sent == [] && open == None && rx == NoBufs()
    {
      this.id, this.dst, sent, open, rx := id, dst, [], None, NoBufs();
      txBuffer := new Packet?[N_QUEUES](i => null);
      rxBuffer := new Packet?[N_QUEUES](i => null);
      payload := new DvbPayload();
    }

    ghost predicate Valid()
      reads this, txBuffer, txBuffer[..], rxBuffer, rxBuffer[..], payload, payload.frag, payload.fragSize
    {
      && ValidTx() && ValidRx() && txBuffer != rxBuffer
      && (txBuffer[Queue()] != null ==> txBuffer[Queue()] !in rxBuffer[..])
    }

    // ---------- Sender ----------

    // Slot of the one destination.
    ghost function Queue(): (q: nat)
      ensures q < N_QUEUES
    {
      dst % N_QUEUES
    }

    ghost predicate NoOtherQueue()
      reads txBuffer
    {
      txBuffer.Length == N_QUEUES && forall q | 0 <= q < N_QUEUES && q != Queue() :: txBuffer[q] == null
    }

    // Packet p of the buffer is cell c.
    ghost predicate Shows(p: Packet, c: Ts)
      reads this`payload, txBuffer, p, payload, payload.frag, payload.fragSize
    {
      && NoOtherQueue() && txBuffer[Queue()] == p && p.queue == Queue() && p.addr == dst
      && payload.Valid() && c == Ts(p.pid, p.pusi, p.space, payload.Chunks()) && p.pid == id
    }

    // Nothing is being packed, or a cell is, with its timer running.
    ghost predicate ValidTx()
      reads this`payload, this`open, txBuffer, txBuffer[..], payload, payload.frag, payload.fragSize
    {
      && NoOtherQueue() && ValidOpen(id, open)
      && match open
         case None => txBuffer[Queue()] == null
         case Some(c) => txBuffer[Queue()] != null && Shows(txBuffer[Queue()], c) && txBuffer[Queue()].status == 1
    }

    method NewDvb() returns (p: Packet)
      requires NoOtherQueue()
      modifies this`payload, txBuffer
      ensures Shows(p, NewCell(id)) && p.status == 0
      ensures fresh(p) && fresh(payload) && fresh(payload.frag) && fresh(payload.fragSize)
    {
      p := new Packet(0, 188);
      p.pusi, p.addr, p.pid, p.status, p.queue, p.space := false, dst, id, 0, dst % N_QUEUES, CELL;
      txBuffer[dst % N_QUEUES] := p;
      payload := new DvbPayload();
    }

    static method SetPusi(p: Packet)
      requires !p.pusi ==> 0 < p.space
      modifies p`pusi, p`space
      ensures p.pusi && p.space == old(if p.pusi then p.space else p.space - 1)
    {
      if !p.pusi {
        p.pusi := true;
        p.space := p.space - 1;
      }
    }

    // The cell leaves for the scheduler.
    method SendDown(p: Packet, ghost c: Ts)
      requires Shows(p, c)
      modifies this`sent
      ensures sent == old(sent) + [c]
    {
      sent := sent + [c];
    }

    // The loop body: fills the cell to the end, sends it and starts another.
    method FillUp(mh: Packet, p: Pkt, ghost c: Ts) returns (mh': Packet)
      requires Shows(mh, c) && |c.chunks| < MAX_FRAGS
      modifies this`payload, this`sent, txBuffer, payload, payload.frag, payload.fragSize
      ensures sent == old(sent) + [Put(c, p, c.space)]
      ensures Shows(mh', NewCell(id)) && mh'.status == 0
      ensures fresh(mh') && fresh(payload) && fresh(payload.frag) && fresh(payload.fragSize)
    {
      payload.InsertFrag(p, mh.space);
      SendDown(mh, Put(c, p, c.space));
      txBuffer[mh.queue] := null;
      mh' := NewDvb();
    }

    // What is left of the packet goes into the cell, which is sent if it has no room for
    // another.
    method Finish(mh: Packet, p: Pkt, psize: nat, ghost c: Ts)
      requires Shows(mh, c) && |c.chunks| < MAX_FRAGS && Filling(c) && 0 < psize <= c.space
      requires mh.status == 0 || mh.status == 1
      modifies this`sent, this`open, txBuffer, mh, payload, payload.frag, payload.fragSize
      ensures ValidTx() && open == Split(c, p, psize).open && sent == old(sent) + Split(c, p, psize).out
      ensures txBuffer[Queue()] == null || txBuffer[Queue()] == mh
    {
      PutLast(mh, p, psize, c);
      SplitAccounts(c, p, psize);
      Dispatch(mh, Put(c, p, psize).(space := c.space - psize));
    }

    // Sends a cell that has no room for another packet; keeps any other, with its timer
    // running.
    method Dispatch(mh: Packet, ghost c: Ts)
      requires Shows(mh, c) && (mh.status == 0 || mh.status == 1)
      requires Needed(c) <= c.space ==> ValidOpen(id, Some(c))
      modifies this`sent, this`open, txBuffer, mh`status
      ensures ValidTx() && open == (if c.space < Needed(c) then None else Some(c))
      ensures sent == old(sent) + if c.space < Needed(c) then [c] else []
      ensures txBuffer[Queue()] == null || txBuffer[Queue()] == mh
    {
      if mh.space < ULE_HDR + (if mh.pusi then 0 else 1) {
        SendDown(mh, c);
        txBuffer[mh.queue] := null;
        open := None;
      } else {
        if mh.status == 0 {
          mh.status := 1;
        }
        open := Some(c);
      }
    }

    method PutLast(mh: Packet, p: Pkt, psize: nat, ghost c: Ts)
      requires Shows(mh, c) && |c.chunks| < MAX_FRAGS && psize <= c.space
      modifies mh`space, payload, payload.frag, payload.fragSize
      ensures Shows(mh, Put(c, p, psize).(space := c.space - psize))
    {
      payload.InsertFrag(p, psize);
      mh.space := mh.space - psize;
    }

    // send_frags: packs a packet into the open cell and as many more as it takes. ok is
    // false where the source would write past the arrays of the open cell, which have room
    // for MAX_FRAGS fragments.
    method SendFrags(p: Pkt) returns (ok: bool)
      requires Valid()
      modifies this`payload, this`sent, this`open, txBuffer, txBuffer[..], payload, payload.frag, payload.fragSize
      ensures Valid() && (ok <==> (old(open).Some? ==> |old(open).value.chunks| < MAX_FRAGS))
      ensures ok ==>
                open == React(id, old(open), Arrive(p)).open && sent == old(sent) + React(id, old(open), Arrive(p)).out
      ensures !ok ==> open == old(open) && sent == old(sent)
    {
      var full := NoRoom();
      if !full {
        SendOn(p);
      }
      ok := !full;
    }

    // The open cell lists as many fragments as its arrays hold.
    method NoRoom() returns (full: bool)
      requires ValidTx()
      ensures full <==> open.Some? && MAX_FRAGS <= |open.value.chunks|
    {
      var queue, d := GetQueue(txBuffer, dst);
      assert Matches(txBuffer, Slot(dst, 0), dst);
      full := txBuffer[queue.value] != null && MAX_FRAGS <= payload.index;
    }

    method SendOn(p: Pkt)
      requires Valid() && (open.Some? ==> |open.value.chunks| < MAX_FRAGS)
      modifies this`payload, this`sent, this`open, txBuffer, txBuffer[..], payload, payload.frag, payload.fragSize
      ensures Valid() && open == React(id, old(open), Arrive(p)).open
      ensures sent == old(sent) + React(id, old(open), Arrive(p)).out
    {
      var mh := OpenOrNew();
      Pack(mh, p, p.size + ULE_HDR_AND_CRC, if open.None? then FirstCell(id) else open.value);
    }

    // Finds the open cell of the destination, or starts one.
    method OpenOrNew() returns (mh: Packet)
      requires ValidTx()
      modifies this`payload, txBuffer
      ensures Shows(mh, if open.None? then FirstCell(id) else open.value) && (mh.status == 0 || mh.status == 1)
      ensures fresh(mh) || mh in old(txBuffer[..])
      ensures payload == old(payload) || (fresh(payload) && fresh(payload.frag) && fresh(payload.fragSize))
    {
      var queue, d := GetQueue(txBuffer, dst);
      assert Matches(txBuffer, Slot(dst, 0), dst);
      var cell := txBuffer[queue.value];
      if cell == null {
        mh := NewDvb();
        SetPusi(mh);
      } else {
        mh := cell;
      }
    }

    method Pack(cell: Packet, p: Pkt, size: nat, ghost c0: Ts)
      requires Shows(cell, c0) && |c0.chunks| < MAX_FRAGS && (cell.status == 0 || cell.status == 1)
      requires Filling(c0) && 0 < size
      modifies this`payload, this`sent, this`open, txBuffer, cell, payload, payload.frag, payload.fragSize
      ensures ValidTx() && open == Split(c0, p, size).open && sent == old(sent) + Split(c0, p, size).out
      ensures txBuffer[Queue()] == null || txBuffer[Queue()] == cell || fresh(txBuffer[Queue()])
    {
      var mh, psize: nat := cell, size;
      ghost var c, target, out := c0, Split(c0, p, size), [];
      while psize > mh.space
        invariant Shows(mh, c) && |c.chunks| < MAX_FRAGS && (mh.status == 0 || mh.status == 1)
        invariant Pending(target, out, c, p, psize) && sent == old(sent) + out
        invariant fresh(mh) || mh == cell
        invariant payload == old(payload) || (fresh(payload) && fresh(payload.frag) && fresh(payload.fragSize))
        decreases psize
      {
        TurnKeeps(target, out, c, p, psize);
        Associate(old(sent), out, [Put(c, p, c.space)]);
        psize := psize - mh.space;
        mh := FillUp(mh, p, c);
        out, c := out + [Put(c, p, c.space)], NewCell(id);
      }
      Associate(old(sent), out, Split(c, p, psize).out);
      Finish(mh, p, psize, c);
    }

    // handle_timer, for the open cell.
    method HandleTimer(p: Packet)
      requires Valid() && p == txBuffer[Queue()]
      modifies this`sent, this`open, txBuffer
      ensures Valid() && open == React(id, old(open), Timer).open
      ensures sent == old(sent) + React(id, old(open), Timer).out
    {
      SendDown(p, open.value);
      txBuffer[p.queue] := null;
      open := None;
    }

    // ---------- Receiver ----------

    // Each slot shows the packet being reassembled in it.
    ghost predicate ValidRx()
      reads this`rx, rxBuffer, rxBuffer[..]
    {
      && rxBuffer.Length == |rx| == N_QUEUES
      && (forall q | 0 <= q < N_QUEUES :: Reassembles(q))
      && forall q, r | 0 <= q < r < N_QUEUES && rxBuffer[q] != null :: rxBuffer[q] != rxBuffer[r]
    }

    ghost predicate Reassembles(q: nat)
      requires q < rxBuffer.Length == |rx|
      reads this`rx, rxBuffer, rxBuffer[q]
    {
      match rx[q]
      case None => rxBuffer[q] == null
      case Some(b) =>
        && rxBuffer[q] != null
        && b == Buf(rxBuffer[q].addr, Rx(rxBuffer[q].uid, b.rx.size, rxBuffer[q].length))
        && rxBuffer[q].size == b.rx.size + ULE_HDR_AND_CRC
    }

    // sendUp, for a cell of pid with the fragments of dp; None is where the source aborts,
    // because every slot is in use for another pid.
    method SendUp(pid: nat, dp: DvbPayload) returns (ps: Option<seq<Pkt>>)
      requires Valid() && dp.Valid()
      modifies this`rx, rxBuffer, rxBuffer[..]
      ensures Valid()
      ensures match RxSlot(old(rx), pid, dp.Chunks())
              case None => ps == None && rx == old(rx)
              case Some(r) => rx == r.0 && ps == Some(r.1)
    {
      var queue := FindSlot(pid);
      if queue.None? {
        return None;
      }
      var qs := Reassemble(queue.value, pid, dp);
      ps := Some(qs);
    }

    // get_queue finds the slot that the specification probes for.
    method FindSlot(pid: nat) returns (queue: Option<nat>)
      requires ValidRx()
      ensures queue == Probe(rx, pid, 0)
    {
      ghost var d;
      queue, d := GetQueue(rxBuffer, pid);
      forall q | 0 <= q < N_QUEUES ensures Matches(rxBuffer, q, pid) <==> FreeFor(rx[q], pid) {
        assert Reassembles(q);
      }
      ProbeIs(rx, pid, 0, if queue.Some? then d else N_QUEUES);
    }

    // Slot q is as before, empty, or holds a new packet; the others are as before.
    twostate predicate OnlySlot(q: nat)
      requires q < rxBuffer.Length
      reads rxBuffer
    {
      && (rxBuffer[q] == null || fresh(rxBuffer[q]) || rxBuffer[q] == old(rxBuffer[q]))
      && forall r | 0 <= r < rxBuffer.Length && r != q :: rxBuffer[r] == old(rxBuffer[r])
    }

    method Reassemble(q: nat, pid: nat, dp: DvbPayload) returns (ps: seq<Pkt>)
      requires ValidRx() && q < N_QUEUES && FreeFor(rx[q], pid) && dp.Valid()
      modifies this`rx, rxBuffer, rxBuffer[q]
      ensures ValidRx() && OnlySlot(q)
      ensures rx == old(rx)[q := Owned(pid, RxCell(Unowned(old(rx[q])), dp.Chunks()).0)]
      ensures ps == RxCell(Unowned(old(rx[q])), dp.Chunks()).1
    {
      ghost var fs := dp.Chunks();
      ps := [];
      var i := 0;
      while i < dp.index
        invariant i <= dp.index == |fs| && ValidRx() && OnlySlot(q) && fs == dp.Chunks()
        invariant rx == old(rx)[q := Owned(pid, RxCell(Unowned(old(rx[q])), fs[..i]).0)]
        invariant ps == RxCell(Unowned(old(rx[q])), fs[..i]).1
      {
        assert fs[..i + 1][..i] == fs[..i];
        var qs := Absorb(q, pid, dp.frag[i], dp.fragSize[i]);
        ps := ps + qs;
        i := i + 1;
      }
      assert fs[..i] == fs;
    }

    // The loop body of sendUp.
    method Absorb(q: nat, pid: nat, inp: Pkt, len: nat) returns (ps: seq<Pkt>)
      requires ValidRx() && q < N_QUEUES && FreeFor(rx[q], pid)
      modifies this`rx, rxBuffer, rxBuffer[q]
      ensures ValidRx() && OnlySlot(q)
      ensures var (b, out) := RxNext(Unowned(old(rx[q])), Chunk(inp.uid, inp.size, len));
              rx == old(rx)[q := Owned(pid, b)] && ps == out
    {
      assert Reassembles(q);
      ghost var before := Unowned(rx[q]);
      var b := rxBuffer[q];
      if b == null || b.uid != inp.uid {
        b := new Packet(inp.uid, inp.size + ULE_HDR_AND_CRC);
        rxBuffer[q] := b;
        b.length := 0;
      }
      b.length := b.length + len;
      b.addr := pid;
      ps := [];
      if b.size == b.length {
        b.size := b.size - ULE_HDR_AND_CRC;
        ps := [Pkt(b.uid, b.size)];
        rxBuffer[q] := null;
      }
      rx := rx[q := Owned(pid, RxNext(before, Chunk(inp.uid, inp.size, len)).0)];
      forall r | 0 <= r < N_QUEUES ensures Reassembles(r) {
        assert old(Reassembles(r));
      }
    }
  }
}
