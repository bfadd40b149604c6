// The RLE MAC object: bursts filled from the queue, and reassembly contexts taken from a
// pool and found by hashing.
module MacRle {
  import opened Optional
  import opened Sequences
  import opened RleFormat
  import opened PrioFid
  import opened RleSender
  import opened RleReceiver

  const MAX_CNTS: nat := 512

  // ---------- Reassembly over all contexts ----------

  // A packet sent up, with the frag_id it came on.
  datatype Delivery = Delivery(fid: nat, uid: nat)

  // Bucket of a source and a frag_id, by the hash function.
  function Key(src: nat, fid: nat): (k: nat)
    ensures k < MAX_CNTS
  {
    (src * 8 + fid) % MAX_CNTS
  }

  // The context a fragment is processed in; a new one starts with whatever length its
  // memory holds.
  function ContextFor(m: map<nat, Ctx>, k: nat, junk: nat): Ctx {
    if k in m then m[k] else Ctx(None, 0, junk)
  }

  // A burst from src, fragment by fragment; junk[i] is used if fragment i needs a new
  // context.
  ghost function RxBurst(m: map<nat, Ctx>, src: nat, fs: seq<Frag>, junk: seq<nat>): (r: (map<nat, Ctx>, seq<Delivery>))
    requires |junk| == |fs|
  {
    if fs == [] then (m, [])
    else
      var n := |fs| - 1;
      var (m1, ds) := RxBurst(m, src, fs[..n], junk[..n]);
      var (m2, d) := RxOne(m1, src, fs[n], junk[n]);
      (m2, ds + d)
  }

  ghost function RxOne(m: map<nat, Ctx>, src: nat, f: Frag, junk: nat): (r: (map<nat, Ctx>, seq<Delivery>)) {
    var k := Key(src, f.fid);
    var (c, o) := RxNext(ContextFor(m, k, junk), f);
    (if f.flags == Flags(true, true) then m else m[k := c], Delivered(o, f.fid))
  }

  // The accept branch with no packet held, where the source goes through a null pointer.
  ghost predicate Fails(m: map<nat, Ctx>, src: nat, f: Frag, junk: nat) {
    f.flags != Flags(true, true) && RxNext(ContextFor(m, Key(src, f.fid), junk), f).1 == NoPacket
  }

  // No fragment of the burst fails.
  ghost predicate Runs(m: map<nat, Ctx>, src: nat, fs: seq<Frag>, junk: seq<nat>)
    requires |junk| == |fs|
  {
    fs != [] ==>
      var n := |fs| - 1;
      Runs(m, src, fs[..n], junk[..n]) && !Fails(RxBurst(m, src, fs[..n], junk[..n]).0, src, fs[n], junk[n])
  }

  lemma RxOneSplit(m: map<nat, Ctx>, src: nat, f: Frag, junk: nat)
    requires f.flags != Flags(true, true)
    ensures var k := Key(src, f.fid);
            var m1 := m[k := ContextFor(m, k, junk)];
            RxOne(m, src, f, junk) == (m1[k := RxNext(m1[k], f).0], Delivered(RxNext(m1[k], f).1, f.fid))
    ensures Fails(m, src, f, junk) <==>
            RxNext(m[Key(src, f.fid) := ContextFor(m, Key(src, f.fid), junk)][Key(src, f.fid)], f).1 == NoPacket
  {
    var k := Key(src, f.fid);
    var c := ContextFor(m, k, junk);
    assert m[k := c][k := RxNext(c, f).0] == m[k := RxNext(c, f).0];
  }

  lemma RxBurstNext(m: map<nat, Ctx>, src: nat, fs: seq<Frag>, junk: seq<nat>, f: Frag, l: nat)
    requires |fs| == |junk|
    ensures var (m1, ds) := RxBurst(m, src, fs, junk);
            var (m2, d) := RxOne(m1, src, f, l);
            RxBurst(m, src, fs + [f], junk + [l]) == (m2, ds + d)
    ensures Runs(m, src, fs + [f], junk + [l]) <==>
            Runs(m, src, fs, junk) && !Fails(RxBurst(m, src, fs, junk).0, src, f, l)
  {
    assert (fs + [f])[..|fs|] == fs && (junk + [l])[..|junk|] == junk;
  }

  function Delivered(o: Outcome, fid: nat): (ds: seq<Delivery>) {
    if o.Deliver? then [Delivery(fid, o.uid)] else []
  }

  // ---------- The object ----------

  class Context {
    var src: nat
    var fid: nat
    var pkt: Option<nat>
    var exp: nat
    var len: nat
    // First context of this bucket, and next free context.
    var head: Context?
    var next: Context?

    constructor ()
      ensures head == null && next == null && pkt == None
    {
      head, next, pkt := null, null, None;
    }

    ghost function Value(): (c: Ctx)
      reads this`pkt, this`exp, this`len
    {
      Ctx(pkt, exp, len)
    }
  }

  class MacRle {
    const pq: PacketQueueFid
    const next: array<nat>
    const cbuffer: seq<Context>
    const index: nat
    var free: Context?
    // Contexts taken from the pool so far, always from its end, and which one each
    // bucket holds.
    ghost var taken: nat
    ghost var home: map<nat, nat>
    var sentUp: nat
    var sentDown: nat

    constructor (pq: PacketQueueFid, index: nat)
      requires pq.Valid() && pq.nodes == []
      ensures this.pq == pq && this.index == index
      ensures ValidQueue() && ValidPool() && Contexts() == map[]
    {
      var cs := MakePool();
      this.pq, this.index := pq, index;
      next := new nat[8](i => 0);
      cbuffer, free, taken, home := cs, cs[MAX_CNTS - 1], 0, map[];
      sentUp, sentDown := 0, 0;
      new;
      NoneOccupied(|cbuffer|);
      assert next[..] == seq(8, i => 0);
    }

    static method MakePool() returns (cs: seq<Context>)
      ensures |cs| == MAX_CNTS && DistinctContexts(cs)
      ensures forall i | 0 <= i < |cs| :: fresh(cs[i]) && cs[i].head == null && UnusedIn(cs, i)
    {
      cs := [];
      while |cs| < MAX_CNTS
        invariant |cs| <= MAX_CNTS && DistinctContexts(cs)
        invariant forall i | 0 <= i < |cs| :: fresh(cs[i]) && cs[i].head == null && UnusedIn(cs, i)
      {
        var c := new Context();
        ghost var before := cs;
        if cs != [] {
          c.next := cs[|cs| - 1];
        }
        cs := cs + [c];
        forall i | 0 <= i < |cs| ensures UnusedIn(cs, i) {
          assert i < |before| ==> UnusedIn(before, i);
        }
      }
    }

    static ghost predicate DistinctContexts(cs: seq<Context>) {
      forall i, j | 0 <= i < j < |cs| :: cs[i] != cs[j]
    }

    // Context i waits in the pool, linked to the one below it.
    static ghost predicate UnusedIn(cs: seq<Context>, i: nat)
      requires i < |cs|
      reads cs
    {
      cs[i].pkt == None && cs[i].next == if i == 0 then null else cs[i - 1]
    }

    // ---------- Sender ----------

    // The queue holds packets with these headers, and the counters have these values.
    ghost predicate Holds(q: seq<Hdr>, n: seq<nat>)
      reads pq, pq.nodes, Rles(pq.nodes), next
    {
      pq.Valid() && DistinctRles(pq.nodes) && HeadersOf(pq.nodes) == q && next[..] == n
    }

    ghost predicate ValidQueue()
      reads pq, pq.nodes, Rles(pq.nodes), next
    {
      Holds(HeadersOf(pq.nodes), next[..]) && ValidSender(HeadersOf(pq.nodes), next[..])
    }

    // slotHandler, for a burst of bs bytes; left is what stays unused. ok is false where the
    // source would cut the head to a length below zero, which it keeps in an unsigned field.
    method SlotHandler(bs: nat) returns (ok: bool, frags: seq<Frag>, left: nat)
      requires ValidQueue()
      modifies this`sentDown, pq, Rles(pq.nodes), next
      ensures ValidQueue() && (ok <==> FHS <= bs || old(pq.nodes) == [])
      ensures var q, n := HeadersOf(pq.nodes), next[..];
              Filled(q, n, frags, left) == if FHS <= bs then old(Fill(HeadersOf(pq.nodes), next[..], bs))
                                           else Filled(old(HeadersOf(pq.nodes)), old(next[..]), [], bs)
      ensures sentDown == old(sentDown) + |Ends(frags)|
    {
      if bs < FHS {
        return pq.head == null, [], bs;
      }
      ok := true;
      ghost var t := Turn(HeadersOf(pq.nodes), next[..], [], bs, true);
      ghost var target, all := Fill(t.q, t.next, bs), Rles(pq.nodes);
      frags, left := [], bs;
      var more := true;
      while more
        invariant Holds(t.q, t.next) && Rles(pq.nodes) <= all
        invariant (frags, left, more) == (t.frags, t.left, t.more) && sentDown == old(sentDown) + |Ends(frags)|
        invariant Pending(target, t)
        decreases |t.q|, more
      {
        TurnKeeps(target, t);
        frags, left, more := TakeTurn(t, frags, left);
        t := NextTurn(t);
      }
    }

    // The body of the do-while.
    method TakeTurn(ghost t: Turn, fs: seq<Frag>, room: nat) returns (frags: seq<Frag>, left: nat, more: bool)
      requires Holds(t.q, t.next) && ValidTurn(t) && (fs, room) == (t.frags, t.left)
      modifies this`sentDown, pq, Rles(pq.nodes), next
      ensures var t' := NextTurn(t); Holds(t'.q, t'.next) && (frags, left, more) == (t'.frags, t'.left, t'.more)
      ensures Rles(pq.nodes) <= old(Rles(pq.nodes)) && sentDown + |Ends(fs)| == old(sentDown) + |Ends(frags)|
    {
      if pq.head == null {
        return fs, room, false;
      }
      assert t.q[0] == pq.nodes[0].Header();
      var psize := pq.head.rle.psize;
      if room < psize + FHS {
        frags, left, more := CutAndStop(t, fs, room);
      } else {
        frags, left, more := SendAndGoOn(t, fs, room, psize);
      }
    }

    method CutAndStop(ghost t: Turn, fs: seq<Frag>, room: nat) returns (frags: seq<Frag>, left: nat, more: bool)
      requires Holds(t.q, t.next) && ValidTurn(t) && t.q != [] && (fs, room) == (t.frags, t.left) &&
               room < t.q[0].psize + FHS
      modifies pq.nodes[0].rle
      ensures var t' := NextTurn(t); Holds(t'.q, t'.next) && (frags, left, more) == (t'.frags, t'.left, t'.more)
      ensures !more && |Ends(frags)| == |Ends(fs)|
    {
      var f := CutHead(t.q, t.next, room - FHS);
      OneMoreEnd(fs, f);
      frags, left, more := fs + [f], 0, false;
    }

    method SendAndGoOn(ghost t: Turn, fs: seq<Frag>, room: nat, psize: nat)
      returns (frags: seq<Frag>, left: nat, more: bool)
      requires Holds(t.q, t.next) && ValidTurn(t) && t.q != [] && (fs, room) == (t.frags, t.left)
      requires psize == t.q[0].psize && psize + FHS <= room
      modifies this`sentDown, pq, pq.nodes[0].rle, next
      ensures var t' := NextTurn(t); Holds(t'.q, t'.next) && (frags, left, more) == (t'.frags, t'.left, t'.more)
      ensures pq.nodes == old(pq.nodes)[1..] && sentDown + |Ends(fs)| == old(sentDown) + |Ends(frags)|
    {
      var f := SendHead(t.q, t.next);
      OneMoreEnd(fs, f);
      frags, left := fs + [f], room - (psize + FHS);
      more := FHS + PHS <= left;
    }

    // The branch for a packet too big for the room left.
    method CutHead(ghost q: seq<Hdr>, ghost n: seq<nat>, room: nat) returns (f: Frag)
      requires Holds(q, n) && q != [] && (WholeHdr(q[0]) || PartHdr(q[0])) && room < q[0].psize
      modifies pq.nodes[0].rle
      ensures Holds([Cut(q[0], room).0] + q[1..], n) && f == Cut(q[0], room).1
    {
      assert q[0] == pq.nodes[0].Header();
      var qq := pq.head;
      var qh := qq.rle;
      if qh.flags.start {
        qh.total := qh.total + PHS + TS;
        qh.psize := qh.total;
      }
      qh.flags := Flags(qh.flags.start, false);
      f := Frag(qh.flags, room, qq.prio, 0, qq.uid, qh.total);
      qh.flags := Flags(false, qh.flags.end);
      qh.psize := qh.psize - room;
      assert HeadersOf(pq.nodes) == [Cut(q[0], room).0] + q[1..];
    }

    // The branch for a packet that fits.
    method SendHead(ghost q: seq<Hdr>, ghost n: seq<nat>) returns (f: Frag)
      requires Holds(q, n) && q != [] && |n| == 8 && q[0].prio < 8
      modifies this`sentDown, pq, pq.nodes[0].rle, next
      ensures Holds(q[1..], Bump(n, q[0])) && f == Rest(q[0], n[q[0].prio])
      ensures pq.nodes == old(pq.nodes)[1..] && sentDown == old(sentDown) + 1
    {
      f := FinishHead(q, n);
      sentDown := sentDown + 1;
      var gone := pq.RemoveHead();
    }

    // Marks the packet at the head as complete and describes its last fragment.
    method FinishHead(ghost q: seq<Hdr>, ghost n: seq<nat>) returns (f: Frag)
      requires Holds(q, n) && q != [] && |n| == 8 && q[0].prio < 8
      modifies pq.nodes[0].rle, next
      ensures pq.Valid() && DistinctRles(pq.nodes[1..])
      ensures HeadersOf(pq.nodes)[1..] == q[1..]
      ensures f == Rest(q[0], n[q[0].prio]) && next[..] == Bump(n, q[0])
    {
      assert q[0] == pq.nodes[0].Header();
      var qq := pq.head;
      var qh := qq.rle;
      qh.flags := Flags(qh.flags.start, true);
      f := Frag(qh.flags, qh.psize, qq.prio, 0, qq.uid, qh.total);
      if f.flags == Flags(false, true) {
        f := f.(seqno := next[qq.prio]);
        next[qq.prio] := (next[qq.prio] + 1) % 256;
      }
      assert HeadersOf(pq.nodes)[1..] == q[1..];
    }

    // ---------- Receiver ----------

    ghost predicate ValidPool()
      reads this`free, this`taken, this`home, cbuffer
    {
      && |cbuffer| == MAX_CNTS
      && DistinctContexts(cbuffer)
      && taken == Occupied(home, |cbuffer|) <= MAX_CNTS
      && free == (if taken == MAX_CNTS then null else cbuffer[MAX_CNTS - 1 - taken])
      && (forall i | 0 <= i < MAX_CNTS - taken :: UnusedIn(cbuffer, i))
      && KeysBelow(home, MAX_CNTS)
      && forall k | 0 <= k < MAX_CNTS :: Bucket(k)
    }

    // Bucket k is empty or holds one context, the one of its source and frag_id.
    ghost predicate Bucket(k: nat)
      requires k < |cbuffer| == MAX_CNTS && taken <= MAX_CNTS
      reads this`taken, this`home, cbuffer
    {
      if k !in home then cbuffer[k].head == null
      else
        && MAX_CNTS - taken <= home[k] < MAX_CNTS
        && cbuffer[k].head == cbuffer[home[k]]
        && cbuffer[home[k]].next == null
        && cbuffer[home[k]].fid < 8
        && Key(cbuffer[home[k]].src, cbuffer[home[k]].fid) == k
    }

    ghost function Contexts(): (m: map<nat, Ctx>)
      requires ValidPool()
      reads this`free, this`taken, this`home, cbuffer
    {
      map k | k in home :: ContextOf(k).Value()
    }

    ghost function ContextOf(k: nat): (c: Context)
      requires ValidPool() && k in home
      reads this`free, this`taken, this`home, cbuffer
      ensures c in cbuffer
    {
      assert k < MAX_CNTS && Bucket(k);
      cbuffer[home[k]]
    }

    // The walk along a bucket, which holds at most one context.
    static method Walk(first: Context?, src: nat, fid: nat) returns (cp: Context?)
      requires first != null ==> first.next == null
      ensures cp == if first != null && (first.src == src || first.fid == fid) then first else null
    {
      cp := first;
      while cp != null && cp.src != src && cp.fid != fid
        invariant cp == null || cp == first
        invariant cp == null && first != null ==> first.src != src && first.fid != fid
        decreases cp != null
      {
        cp := cp.next;
      }
    }

    // With frag_ids below 8 all pairs of one bucket agree in frag_id and so share the one
    // context it holds, and the pool never runs out.
    method GetContext(src: nat, fid: nat) returns (cp: Context, ghost junk: nat)
      requires ValidPool() && fid < 8
      modifies this`free, this`taken, this`home, cbuffer
      ensures ValidPool() && Key(src, fid) in home && cp == ContextOf(Key(src, fid))
      ensures Contexts() == old(Contexts())[Key(src, fid) := ContextFor(old(Contexts()), Key(src, fid), junk)]
    {
      var k := (src * 8 + fid) % MAX_CNTS;
      assert Bucket(k);
      ghost var m := Contexts();
      if k in home {
        BucketIsPair(src, fid, ContextOf(k).src, ContextOf(k).fid);
      }
      var found := Walk(cbuffer[k].head, src, fid);
      assert Contexts() == m;
      junk := 0;
      if found == null {
        cp, junk := NewContext(k, src, fid);
      } else {
        cp := found;
        assert k in home && cp == ContextOf(k);
        assert m == m[k := ContextFor(m, k, junk)];
      }
    }

    method NewContext(k: nat, src: nat, fid: nat) returns (cp: Context, ghost junk: nat)
      requires ValidPool() && fid < 8 && k == Key(src, fid) && k !in home
      modifies this`free, this`taken, this`home, cbuffer
      ensures ValidPool() && k in home && cp == ContextOf(k)
      ensures Contexts() == old(Contexts())[k := Ctx(None, 0, junk)]
    {
      OneMoreOccupied(home, |cbuffer|, k, 0);
      ghost var m := Contexts();
      cp := free;
      junk := cp.len;
      TakeContext(k, src, fid, m);
    }

    // Moves the next free context to bucket k.
    method TakeContext(k: nat, src: nat, fid: nat, ghost m: map<nat, Ctx>)
      requires ValidPool() && fid < 8 && k == Key(src, fid) && k !in home && taken < MAX_CNTS && m == Contexts()
      modifies this`free, this`taken, this`home, cbuffer
      ensures ValidPool() && k in home && old(free) == ContextOf(k)
      ensures Contexts() == m[k := Ctx(None, 0, old(free.len))]
    {
      assert UnusedIn(cbuffer, MAX_CNTS - 1 - taken);
      var cp := free;
      free := free.next;
      cp.exp := 0;
      cp.src := src;
      cp.fid := fid;
      cp.next := null;
      cbuffer[k].head := cp;
      OneMoreOccupied(home, |cbuffer|, k, MAX_CNTS - 1 - taken);
      home := home[k := MAX_CNTS - 1 - taken];
      taken := taken + 1;
      TakenPool(k);
      TakenContexts(k);
    }

    // What taking the next free context for bucket k writes.
    twostate predicate Taken(k: nat)
      requires k < |cbuffer|
      reads this`free, this`taken, this`home, cbuffer
    {
      && old(free) != null && old(taken) < MAX_CNTS
      && old(free) in cbuffer
      && free == old(free.next) && taken == old(taken) + 1 && home == old(home)[k := MAX_CNTS - 1 - old(taken)]
      && old(free).exp == 0 && old(free).pkt == old(free.pkt) && old(free).len == old(free.len)
      && old(free).next == null && old(free).fid < 8 && Key(old(free).src, old(free).fid) == k
      && cbuffer[k].head == old(free)
      && (forall c | c in cbuffer && c != cbuffer[k] :: c.head == old(c.head))
      && (forall c | c in cbuffer && c != old(free) ::
           c.pkt == old(c.pkt) && c.exp == old(c.exp) && c.len == old(c.len))
      && forall c | c in cbuffer && c != old(free) ::
           c.next == old(c.next) && c.src == old(c.src) && c.fid == old(c.fid)
    }

    twostate lemma TakenPool(k: nat)
      requires old(ValidPool()) && k < MAX_CNTS && k !in old(home) && Taken(k)
      requires Occupied(home, |cbuffer|) == Occupied(old(home), |cbuffer|) + 1
      ensures ValidPool()
    {
      assert old(UnusedIn(cbuffer, MAX_CNTS - 1 - taken));
      forall j | 0 <= j < MAX_CNTS - taken ensures UnusedIn(cbuffer, j) {
        assert old(UnusedIn(cbuffer, j));
      }
      forall j | 0 <= j < MAX_CNTS ensures Bucket(j) {
        assert old(Bucket(j));
      }
    }

    twostate lemma TakenContexts(k: nat)
      requires old(ValidPool()) && ValidPool() && k < MAX_CNTS && k !in old(home) && Taken(k)
      ensures k in home && old(free) == ContextOf(k)
      ensures Contexts() == old(Contexts())[k := Ctx(None, 0, old(free.len))]
    {
      ghost var i, cp := MAX_CNTS - 1 - old(taken), old(free);
      assert old(UnusedIn(cbuffer, i));
      assert cp == cbuffer[i];
      forall j | j in old(home) ensures ContextOf(j).Value() == old(ContextOf(j).Value()) {
        assert old(Bucket(j)) && old(home)[j] != i;
      }
      SameMap(Contexts(), old(Contexts()), k, Ctx(None, 0, old(free.len)));
    }

    // The loop body of sendUp, for a fragment addressed to this node; ok is false where
    // the source fails, with the contexts as they are then.
    method Receive(src: nat, f: Frag) returns (ds: seq<Delivery>, ok: bool, ghost junk: nat)
      requires ValidPool() && f.fid < 8
      modifies this`free, this`taken, this`home, this`sentUp, cbuffer
      ensures ValidPool() && (Contexts(), ds) == RxOne(old(Contexts()), src, f, junk)
      ensures sentUp == old(sentUp) + |ds| && (ok <==> !Fails(old(Contexts()), src, f, junk))
    {
      junk := 0;
      if f.flags == Flags(true, true) {
        sentUp := sentUp + 1;
        return [Delivery(f.fid, f.uid)], true, 0;
      }
      ghost var m, k := Contexts(), Key(src, f.fid);
      var cp;
      cp, junk := GetContext(src, f.fid);
      assert cp.Value() == Contexts()[k];
      RxOneSplit(m, src, f, junk);
      ds, ok := Accumulate(k, cp, f);
    }

    // What a fragment of a split packet does to its context.
    method Accumulate(ghost k: nat, cp: Context, f: Frag) returns (ds: seq<Delivery>, ok: bool)
      requires ValidPool() && k in home && cp == ContextOf(k) && f.flags != Flags(true, true)
      modifies this`sentUp, cp`pkt, cp`exp, cp`len
      ensures sentUp == old(sentUp) + |ds|
      ensures ValidPool() && Contexts() == old(Contexts())[k := RxNext(old(cp.Value()), f).0]
      ensures ds == Delivered(RxNext(old(cp.Value()), f).1, f.fid) && (ok <==> RxNext(old(cp.Value()), f).1 != NoPacket)
    {
      ds, ok := Update(cp, f);
      AccumulatedContexts(k);
    }

    method Update(cp: Context, f: Frag) returns (ds: seq<Delivery>, ok: bool)
      requires f.flags != Flags(true, true)
      modifies this`sentUp, cp`pkt, cp`exp, cp`len
      ensures sentUp == old(sentUp) + |ds|
      ensures cp.Value() == RxNext(old(cp.Value()), f).0
      ensures ds == Delivered(RxNext(old(cp.Value()), f).1, f.fid) && (ok <==> RxNext(old(cp.Value()), f).1 != NoPacket)
    {
      ds, ok := [], true;
      if f.flags.start {
        if cp.pkt.Some? {
          cp.exp := (cp.exp + 1) % 256;
        }
        cp.pkt := Some(f.uid);
        cp.len := 0;
      }
      cp.len := cp.len + f.len;
      if f.flags.end {
        if !(cp.len == f.total && cp.exp == f.seqno) {
          cp.exp := (f.seqno + 1) % 256;
          cp.pkt := None;
          return;
        }
        if cp.pkt.None? {
          return [], false;
        }
        sentUp := sentUp + 1;
        ds := [Delivery(f.fid, cp.pkt.value)];
        cp.len := 0;
        cp.pkt := None;
        cp.exp := (cp.exp + 1) % 256;
      }
    }

    twostate lemma AccumulatedContexts(k: nat)
      requires old(ValidPool()) && k in old(home)
      requires home == old(home) && taken == old(taken) && free == old(free)
      requires forall c | c in cbuffer ::
                 c.head == old(c.head) && c.next == old(c.next) && c.src == old(c.src) && c.fid == old(c.fid)
      requires forall c | c in cbuffer && c != old(ContextOf(k)) ::
                 c.pkt == old(c.pkt) && c.exp == old(c.exp) && c.len == old(c.len)
      ensures ValidPool() && Contexts() == old(Contexts())[k := old(ContextOf(k)).Value()]
    {
      var cp := old(ContextOf(k));
      assert old(Bucket(k));
      forall i | 0 <= i < MAX_CNTS - taken ensures UnusedIn(cbuffer, i) {
        assert old(UnusedIn(cbuffer, i)) && cbuffer[i] != cp;
      }
      forall j | 0 <= j < MAX_CNTS ensures Bucket(j) {
        assert old(Bucket(j));
      }
      forall j | j in home && j != k ensures ContextOf(j).Value() == old(ContextOf(j).Value()) {
        assert old(Bucket(j)) && ContextOf(j) != cp;
      }
      SameMap(Contexts(), old(Contexts()), k, cp.Value());
    }

    // A burst from src: fragments for other nodes are skipped. junk has an entry for each
    // fragment processed: all of them, or those up to the one where the source fails.
    method SendUp(src: nat, burst: seq<Piece>) returns (ds: seq<Delivery>, ok: bool, ghost junk: seq<nat>)
      requires ValidPool() && forall i | 0 <= i < |burst| :: burst[i].frag.fid < 8
      modifies this`free, this`taken, this`home, this`sentUp, cbuffer
      ensures |junk| <= |Mine(burst, index)| && (ok ==> |junk| == |Mine(burst, index)|)
      ensures ValidPool() && Processed(old(Contexts()), src, Mine(burst, index)[..|junk|], junk, Contexts(), ds, ok)
      ensures sentUp == old(sentUp) + |ds|
    {
      ghost var m, fs := Contexts(), Mine([], index);
      ds, ok, junk := [], true, [];
      var i := 0;
      while i < |burst|
        invariant i <= |burst| && ValidPool() && ok && fs == Mine(burst[..i], index)
        invariant Processed(m, src, fs, junk, Contexts(), ds, true) && sentUp == old(sentUp) + |ds|
      {
        MineNext(burst, i, index);
        if burst[i].dst == index {
          var d;
          ghost var c, l := Contexts(), 0;
          d, ok, l := Receive(src, burst[i].frag);
          ProcessedNext(m, src, fs, junk, c, ds, burst[i].frag, l);
          ds, junk, fs := ds + d, junk + [l], fs + [burst[i].frag];
          if !ok {
            PrefixOf(fs, Mine(burst, index));
            return;
          }
        }
        i := i + 1;
      }
      assert burst[..i] == burst;
      PrefixOf(fs, Mine(burst, index));
    }
  }

  // Fragments fs of a burst have been processed: with ok all well, otherwise failing at
  // the last of them.
  ghost predicate Processed(m: map<nat, Ctx>, src: nat, fs: seq<Frag>, junk: seq<nat>, c: map<nat, Ctx>,
                            ds: seq<Delivery>, ok: bool) {
    && |junk| == |fs| && (c, ds) == RxBurst(m, src, fs, junk)
    && (ok <==> Runs(m, src, fs, junk))
    && (!ok ==> fs != [] && Runs(m, src, fs[..|fs| - 1], junk[..|fs| - 1]))
  }

  lemma ProcessedNext(m: map<nat, Ctx>, src: nat, fs: seq<Frag>, junk: seq<nat>, c: map<nat, Ctx>, ds: seq<Delivery>,
                      f: Frag, l: nat)
    requires Processed(m, src, fs, junk, c, ds, true)
    ensures var (c', d) := RxOne(c, src, f, l);
            Processed(m, src, fs + [f], junk + [l], c', ds + d, !Fails(c, src, f, l))
  {
    RxBurstNext(m, src, fs, junk, f, l);
    assert (fs + [f])[..|fs|] == fs && (junk + [l])[..|fs|] == junk;
  }

  lemma PrefixOf(fs: seq<Frag>, all: seq<Frag>)
    requires fs <= all
    ensures all[..|fs|] == fs
  {
  }

  // A fragment in a burst, with the MAC address of its packet.
  datatype Piece = Piece(dst: nat, frag: Frag)

  // The fragments of a burst addressed to one node.
  ghost function Mine(burst: seq<Piece>, index: nat): (fs: seq<Frag>) {
    if burst == [] then []
    else Mine(burst[..|burst| - 1], index) + if burst[|burst| - 1].dst == index then [burst[|burst| - 1].frag] else []
  }

  lemma MineNext(burst: seq<Piece>, i: nat, index: nat)
    requires i < |burst|
    ensures Mine(burst[..i + 1], index) ==
            Mine(burst[..i], index) + if burst[i].dst == index then [burst[i].frag] else []
    ensures Mine(burst[..i + 1], index) <= Mine(burst, index)
  {
    assert burst[..i + 1][..i] == burst[..i];
    MinePrefix(burst, i + 1, index);
  }

  lemma {:induction false} MinePrefix(burst: seq<Piece>, i: nat, index: nat)
    requires i <= |burst|
    ensures Mine(burst[..i], index) <= Mine(burst, index)
  {
    if i == |burst| {
      assert burst[..i] == burst;
    } else {
      var n := |burst| - 1;
      assert burst[..n][..i] == burst[..i];
      MinePrefix(burst[..n], i, index);
    }
  }

  lemma KeyIsPair(src: nat, fid: nat)
    requires fid < 8
    ensures Key(src, fid) == src % 64 * 8 + fid
  {
    assert src * 8 + fid == src / 64 * MAX_CNTS + (src % 64 * 8 + fid);
  }

  // A bucket tells the frag_id, and the source modulo 64.
  lemma BucketIsPair(src: nat, fid: nat, src': nat, fid': nat)
    requires fid < 8 && fid' < 8
    ensures Key(src, fid) == Key(src', fid') <==> src % 64 == src' % 64 && fid == fid'
  {
    KeyIsPair(src, fid);
    KeyIsPair(src', fid');
  }

  ghost predicate KeptApart(srcs: nat, fids: nat) {
    forall s: nat, f: nat, s': nat, f': nat | s < srcs && s' < srcs && f < fids && f' < fids &&
           Key(s, f) == Key(s', f') ::
      s == s' && f == f'
  }

  // Each pair of a source and a frag_id has a bucket of its own up to 64 sources and 8
  // frag_ids, and for no more of either.
  lemma HashBounds(srcs: nat, fids: nat)
    ensures srcs <= 64 && fids <= 8 ==> KeptApart(srcs, fids)
    ensures KeptApart(srcs, 8) <==> srcs <= 64
    ensures KeptApart(64, fids) <==> fids <= 8
  {
    forall s: nat, f: nat, s': nat, f': nat | s < 64 && s' < 64 && f < 8 && f' < 8 && Key(s, f) == Key(s', f')
      ensures s == s' && f == f'
    {
      BucketIsPair(s, f, s', f');
    }
    if srcs > 64 {
      assert Key(64, 0) == Key(0, 0);
    }
    if fids > 8 {
      assert Key(0, 8) == Key(1, 0);
    }
  }

  lemma SameMap(m': map<nat, Ctx>, m: map<nat, Ctx>, k: nat, c: Ctx)
    requires m'.Keys == m.Keys + {k} && k in m' && m'[k] == c
    requires forall j | j in m && j != k :: m'[j] == m[j]
    ensures m' == m[k := c]
  {
  }

  ghost predicate KeysBelow(h: map<nat, nat>, n: nat) {
    forall k: nat :: k in h ==> k < n
  }

  // How many of the first n buckets hold a context.
  ghost function Occupied(h: map<nat, nat>, n: nat): nat {
    if n == 0 then 0 else Occupied(h, n - 1) + if n - 1 in h then 1 else 0
  }

  lemma {:induction false} NoneOccupied(n: nat)
    ensures Occupied(map[], n) == 0
  {
    if n > 0 {
      NoneOccupied(n - 1);
    }
  }

  lemma {:induction false} OneMoreOccupied(h: map<nat, nat>, n: nat, k: nat, i: nat)
    requires k !in h
    ensures Occupied(h, n) <= n && (k < n ==> Occupied(h, n) < n)
    ensures Occupied(h[k := i], n) == Occupied(h, n) + if k < n then 1 else 0
  {
    if n > 0 {
      OneMoreOccupied(h, n - 1, k, i);
    }
  }

  ghost predicate DistinctRles(ns: seq<Packet>) {
    forall i, j | 0 <= i < j < |ns| :: ns[i].rle != ns[j].rle
  }

  // A turn of the do-while: the queue, the counters, the fragments so far, the room left,
  // and whether it goes on.
  datatype Turn = Turn(q: seq<Hdr>, next: seq<nat>, frags: seq<Frag>, left: nat, more: bool)

  ghost predicate ValidTurn(t: Turn) {
    ValidSender(t.q, t.next) && t.more && FHS <= t.left
  }

  // The queue is empty, its head is cut, or its head fits.
  ghost function NextTurn(t: Turn): Turn
    requires ValidTurn(t)
  {
    if t.q == [] then t.(more := false)
    else if t.left < t.q[0].psize + FHS then
      var (h, f) := Cut(t.q[0], t.left - FHS);
      Turn([h] + t.q[1..], t.next, t.frags + [f], 0, false)
    else
      var left := t.left - (t.q[0].psize + FHS);
      Turn(t.q[1..], Bump(t.next, t.q[0]), t.frags + [Rest(t.q[0], t.next[t.q[0].prio])], left, FHS + PHS <= left)
  }

  lemma OneMoreEnd(fs: seq<Frag>, f: Frag)
    ensures |Ends(fs + [f])| == |Ends(fs)| + if f.flags.end then 1 else 0
  {
    EndsAppend(fs, [f]);
    assert [f][1..] == [];
  }

  // Where the do-while stands, on the way to target.
  ghost predicate Pending(target: Filled, t: Turn) {
    if t.more then ValidTurn(t) && target == Prefixed(t.frags, Fill(t.q, t.next, t.left))
    else ValidSender(t.q, t.next) && target == Filled(t.q, t.next, t.frags, t.left)
  }

  ghost function Prefixed(fs: seq<Frag>, r: Filled): Filled {
    r.(frags := fs + r.frags)
  }

  lemma TurnKeeps(target: Filled, t: Turn)
    requires Pending(target, t) && t.more
    ensures Pending(target, NextTurn(t))
    ensures |NextTurn(t).q| <= |t.q| && (NextTurn(t).more ==> |NextTurn(t).q| < |t.q|)
  {
    if t.q == [] {
      assert t.frags + [] == t.frags;
    } else if t.left < t.q[0].psize + FHS {
      CutKeeps(t.q, t.next, Cut(t.q[0], t.left - FHS).0);
    } else {
      RestTurn(target, t, NextTurn(t));
    }
  }

  lemma RestTurn(target: Filled, t: Turn, t': Turn)
    requires Pending(target, t) && t.more && t.q != [] && t.q[0].psize + FHS <= t.left && t' == NextTurn(t)
    ensures Pending(target, t')
  {
    if t'.more {
      Associate(t.frags, [Rest(t.q[0], t.next[t.q[0].prio])], Fill(t'.q, t'.next, t'.left).frags);
    }
  }
}
