// Many sources and one receiver: fragments of all sources and priorities, in any mixture
// of bursts, go through one pool of contexts.
module RleSystem {
  import opened Optional
  import opened RleFormat
  import opened PrioFid
  import opened RleSender
  import opened RleReceiver
  import opened RleLossy
  import opened RleChannel
  import opened MacRle

  // A fragment as the receiver meets it; junk is the length left in the memory of a new
  // context, if one is needed.
  datatype Item = Item(src: nat, frag: Frag, junk: nat)

  // A packet sent up, with its source and frag_id.
  datatype Upward = Upward(src: nat, fid: nat, uid: nat)

  ghost function RxItems(m: map<nat, Ctx>, xs: seq<Item>): (r: (map<nat, Ctx>, seq<Upward>)) {
    if xs == [] then (m, [])
    else
      var x := xs[|xs| - 1];
      var (m1, us) := RxItems(m, xs[..|xs| - 1]);
      var (m2, d) := RxOne(m1, x.src, x.frag, x.junk);
      (m2, us + Tagged(x.src, d))
  }

  ghost function Tagged(src: nat, ds: seq<Delivery>): (us: seq<Upward>)
    ensures |us| == |ds| && forall i | 0 <= i < |us| :: us[i] == Upward(src, ds[i].fid, ds[i].uid)
  {
    seq(|ds|, i requires 0 <= i < |ds| => Upward(src, ds[i].fid, ds[i].uid))
  }

  // The receiver gets through xs without failing.
  ghost predicate RunsThrough(m: map<nat, Ctx>, xs: seq<Item>) {
    xs != [] ==>
      var x := xs[|xs| - 1];
      RunsThrough(m, xs[..|xs| - 1]) && !Fails(RxItems(m, xs[..|xs| - 1]).0, x.src, x.frag, x.junk)
  }

  // The fragments of a burst, one by one.
  ghost function ItemsOf(src: nat, fs: seq<Frag>, junk: seq<nat>): (xs: seq<Item>)
    requires |junk| == |fs|
    ensures |xs| == |fs| && forall i | 0 <= i < |xs| :: xs[i] == Item(src, fs[i], junk[i])
  {
    seq(|fs|, i requires 0 <= i < |fs| => Item(src, fs[i], junk[i]))
  }

  lemma {:induction false} BurstIsItems(m: map<nat, Ctx>, src: nat, fs: seq<Frag>, junk: seq<nat>)
    requires |junk| == |fs|
    ensures var (m', ds) := RxBurst(m, src, fs, junk); RxItems(m, ItemsOf(src, fs, junk)) == (m', Tagged(src, ds))
    ensures RunsThrough(m, ItemsOf(src, fs, junk)) <==> Runs(m, src, fs, junk)
  {
    if fs != [] {
      var n := |fs| - 1;
      BurstIsItems(m, src, fs[..n], junk[..n]);
      assert ItemsOf(src, fs, junk)[..n] == ItemsOf(src, fs[..n], junk[..n]);
      var (m1, ds) := RxBurst(m, src, fs[..n], junk[..n]);
      var (m2, d) := RxOne(m1, src, fs[n], junk[n]);
      assert Tagged(src, ds + d) == Tagged(src, ds) + Tagged(src, d);
    }
  }

  // One burst after another.
  lemma {:induction false} ItemsAppend(m: map<nat, Ctx>, xs: seq<Item>, ys: seq<Item>)
    ensures var (m1, us) := RxItems(m, xs); var (m2, vs) := RxItems(m1, ys); RxItems(m, xs + ys) == (m2, us + vs)
  {
    var (m1, us) := RxItems(m, xs);
    if ys == [] {
      assert xs + ys == xs && us + [] == us;
    } else {
      var n := |ys| - 1;
      assert (xs + ys)[..|xs| + n] == xs + ys[..n];
      ItemsAppend(m, xs, ys[..n]);
      var (m2, vs) := RxItems(m1, ys[..n]);
      var d := RxOne(m2, ys[n].src, ys[n].frag, ys[n].junk).1;
      assert us + (vs + Tagged(ys[n].src, d)) == (us + vs) + Tagged(ys[n].src, d);
    }
  }

  lemma {:induction false} RunsAppend(m: map<nat, Ctx>, xs: seq<Item>, ys: seq<Item>)
    ensures RunsThrough(m, xs + ys) <==> RunsThrough(m, xs) && RunsThrough(RxItems(m, xs).0, ys)
  {
    if ys == [] {
      assert xs + ys == xs;
    } else {
      var n := |ys| - 1;
      assert (xs + ys)[..|xs| + n] == xs + ys[..n];
      ItemsAppend(m, xs, ys[..n]);
      RunsAppend(m, xs, ys[..n]);
    }
  }

  // A burst as it reaches the receiver.
  datatype Heard = Heard(src: nat, frags: seq<Frag>, junk: seq<nat>)

  ghost predicate ValidBursts(bs: seq<Heard>) {
    forall i | 0 <= i < |bs| :: |bs[i].junk| == |bs[i].frags|
  }

  ghost function RxBursts(m: map<nat, Ctx>, bs: seq<Heard>): (r: (map<nat, Ctx>, seq<Upward>))
    requires ValidBursts(bs)
  {
    if bs == [] then (m, [])
    else
      var b := bs[|bs| - 1];
      var (m1, us) := RxBursts(m, bs[..|bs| - 1]);
      var (m2, ds) := RxBurst(m1, b.src, b.frags, b.junk);
      (m2, us + Tagged(b.src, ds))
  }

  // Every burst is got through from the contexts reached so far.
  ghost predicate BurstsRun(m: map<nat, Ctx>, bs: seq<Heard>)
    requires ValidBursts(bs)
  {
    bs != [] ==>
      var b := bs[|bs| - 1];
      BurstsRun(m, bs[..|bs| - 1]) && Runs(RxBursts(m, bs[..|bs| - 1]).0, b.src, b.frags, b.junk)
  }

  ghost function AllItems(bs: seq<Heard>): (xs: seq<Item>)
    requires ValidBursts(bs)
  {
    if bs == [] then []
    else var b := bs[|bs| - 1]; AllItems(bs[..|bs| - 1]) + ItemsOf(b.src, b.frags, b.junk)
  }

  // Bursts of any sources, one after another, are all their fragments one after another.
  lemma {:induction false} BurstsAreItems(m: map<nat, Ctx>, bs: seq<Heard>)
    requires ValidBursts(bs)
    ensures RxBursts(m, bs) == RxItems(m, AllItems(bs))
    ensures BurstsRun(m, bs) <==> RunsThrough(m, AllItems(bs))
  {
    if bs != [] {
      var n := |bs| - 1;
      var b := bs[n];
      BurstsAreItems(m, bs[..n]);
      BurstIsItems(RxBursts(m, bs[..n]).0, b.src, b.frags, b.junk);
      ItemsAppend(m, AllItems(bs[..n]), ItemsOf(b.src, b.frags, b.junk));
      RunsAppend(m, AllItems(bs[..n]), ItemsOf(b.src, b.frags, b.junk));
    }
  }

  // ---------- The contexts do not interfere ----------

  // x goes to the context of (src, fid), which is that of no other pair as long as sources
  // are below 64 and frag_ids below 8.
  ghost predicate Mine(x: Item, src: nat, fid: nat) {
    Key(x.src, x.frag.fid) == Key(src, fid)
  }

  ghost function Own(xs: seq<Item>, src: nat, fid: nat): (fs: seq<Frag>) {
    if xs == [] then []
    else Own(xs[..|xs| - 1], src, fid) + if Mine(xs[|xs| - 1], src, fid) then [xs[|xs| - 1].frag] else []
  }

  ghost function From(us: seq<Upward>, src: nat, fid: nat): (ps: seq<nat>) {
    if us == [] then []
    else
      var u := us[|us| - 1];
      From(us[..|us| - 1], src, fid) + if Key(u.src, u.fid) == Key(src, fid) then [u.uid] else []
  }

  ghost predicate FidsInRange(xs: seq<Item>) {
    forall i | 0 <= i < |xs| :: xs[i].frag.fid < 8
  }

  // The context of (src, fid), c, is the one made of its own fragments, with initial
  // length len.
  ghost predicate Holds(m: map<nat, Ctx>, src: nat, fid: nat, c: Ctx, len: nat) {
    && (Key(src, fid) in m ==> m[Key(src, fid)] == c)
    && (Key(src, fid) !in m ==> c == Ctx(None, 0, len))
  }

  // What has happened on (src, fid): ps are the packets delivered.
  ghost predicate Projects(m: map<nat, Ctx>, us: seq<Upward>, src: nat, fid: nat, c: Ctx, ps: seq<nat>, len: nat) {
    From(us, src, fid) == ps && Holds(m, src, fid, c, len)
  }

  // One fragment, seen by the context it belongs to, or not.
  function Own1(c: Ctx, mine: bool, f: Frag): (Ctx, Outcome) {
    if mine then RxNext(c, f) else (c, Nothing)
  }

  lemma OneHolds(m: map<nat, Ctx>, x: Item, src: nat, fid: nat, c: Ctx, len: nat)
    requires Holds(m, src, fid, c, len)
    requires Key(src, fid) in m || !Mine(x, src, fid) || x.frag.flags == Flags(true, true) || len == x.junk
    ensures Holds(RxOne(m, x.src, x.frag, x.junk).0, src, fid, Own1(c, Mine(x, src, fid), x.frag).0, len)
    ensures Mine(x, src, fid) ==> RxOne(m, x.src, x.frag, x.junk).1 == Delivered(RxNext(c, x.frag).1, x.frag.fid)
    ensures Mine(x, src, fid) ==> (Fails(m, x.src, x.frag, x.junk) <==> RxNext(c, x.frag).1 == NoPacket)
  {
  }

  lemma FromOne(us: seq<Upward>, x: Item, o: Outcome, src: nat, fid: nat)
    ensures From(us + Tagged(x.src, Delivered(o, x.frag.fid)), src, fid) ==
            From(us, src, fid) + if Mine(x, src, fid) then Emit(o) else []
  {
    var ds := Delivered(o, x.frag.fid);
    if ds == [] {
      assert us + Tagged(x.src, ds) == us && From(us, src, fid) + [] == From(us, src, fid);
    } else {
      assert (us + Tagged(x.src, ds))[..|us|] == us;
    }
  }

  lemma OneProjects(m: map<nat, Ctx>, us: seq<Upward>, x: Item, src: nat, fid: nat, c: Ctx, len: nat)
    requires Holds(m, src, fid, c, len)
    requires Key(src, fid) in m || !Mine(x, src, fid) || x.frag.flags == Flags(true, true) || len == x.junk
    ensures var (m', d) := RxOne(m, x.src, x.frag, x.junk);
            var (c', o) := Own1(c, Mine(x, src, fid), x.frag);
            Projects(m', us + Tagged(x.src, d), src, fid, c', From(us, src, fid) + Emit(o), len)
  {
    OneHolds(m, x, src, fid, c, len);
    FromOne(us, x, RxNext(ContextFor(m, Key(x.src, x.frag.fid), x.junk), x.frag).1, src, fid);
  }

  lemma OwnRun(c: Ctx, own: seq<Frag>, x: Item, src: nat, fid: nat)
    ensures var (c1, ps) := RxRun(c, own);
            var (c2, o) := Own1(c1, Mine(x, src, fid), x.frag);
            RxRun(c, own + if Mine(x, src, fid) then [x.frag] else []) == (c2, ps + Emit(o))
    ensures NeverFails(c, own + if Mine(x, src, fid) then [x.frag] else []) <==>
            NeverFails(c, own) && (Mine(x, src, fid) ==> RxNext(RxRun(c, own).0, x.frag).1 != NoPacket)
  {
    var (c1, ps) := RxRun(c, own);
    if Mine(x, src, fid) {
      NeverFailsNext(c, own, x.frag);
      RxRunAppend(c, own, [x.frag]);
      assert [x.frag][1..] == [];
      assert Emit(RxNext(c1, x.frag).1) + [] == Emit(RxNext(c1, x.frag).1);
    } else {
      assert own + [] == own && ps + [] == ps;
    }
  }

  // What the memory of the context of (src, fid) holds when it is taken from the pool, if
  // it is.
  ghost function Junk(xs: seq<Item>, src: nat, fid: nat): nat {
    if xs == [] then 0
    else
      var n := |xs| - 1;
      if Key(src, fid) in RxItems(map[], xs[..n]).0 || !Mine(xs[n], src, fid) then Junk(xs[..n], src, fid)
      else xs[n].junk
  }

  // The context of (src, fid) before any fragment.
  ghost function Start(xs: seq<Item>, src: nat, fid: nat): Ctx {
    Ctx(None, 0, Junk(xs, src, fid))
  }

  // As long as there is no context for (src, fid), its initial length is still open.
  lemma {:induction false} WithoutContext(xs: seq<Item>, src: nat, fid: nat, len: nat)
    requires Key(src, fid) !in RxItems(map[], xs).0
    ensures var (m, us) := RxItems(map[], xs);
            RxRun(Ctx(None, 0, len), Own(xs, src, fid)) == (Ctx(None, 0, len), From(us, src, fid))
    ensures NeverFails(Ctx(None, 0, len), Own(xs, src, fid))
  {
    if xs != [] {
      var n := |xs| - 1;
      var x := xs[n];
      var (m, us) := RxItems(map[], xs[..n]);
      WithoutContext(xs[..n], src, fid, len);
      OwnRun(Ctx(None, 0, len), Own(xs[..n], src, fid), x, src, fid);
      OneProjects(m, us, x, src, fid, Ctx(None, 0, len), len);
    }
  }

  // What the receiver makes of one source and frag_id depends on the fragments of its own
  // context only.
  lemma {:induction false} ContextsAreSeparate(xs: seq<Item>, src: nat, fid: nat)
    ensures var (m, us) := RxItems(map[], xs);
            var (c, ps) := RxRun(Start(xs, src, fid), Own(xs, src, fid));
            Projects(m, us, src, fid, c, ps, Junk(xs, src, fid))
    decreases |xs|, 1
  {
    if xs != [] {
      var n := |xs| - 1;
      var x, own := xs[n], Own(xs[..n], src, fid);
      var (m, us) := RxItems(map[], xs[..n]);
      Before(xs, src, fid);
      OwnRun(Start(xs, src, fid), own, x, src, fid);
      OneProjects(m, us, x, src, fid, RxRun(Start(xs, src, fid), own).0, Junk(xs, src, fid));
    }
  }

  // The same for all fragments but the last.
  lemma {:induction false} Before(xs: seq<Item>, src: nat, fid: nat)
    requires xs != []
    ensures var n := |xs| - 1;
            var (m, us) := RxItems(map[], xs[..n]);
            var (c, ps) := RxRun(Start(xs, src, fid), Own(xs[..n], src, fid));
            Projects(m, us, src, fid, c, ps, Junk(xs, src, fid))
    decreases |xs|, 0
  {
    var n := |xs| - 1;
    ContextsAreSeparate(xs[..n], src, fid);
    if Key(src, fid) !in RxItems(map[], xs[..n]).0 {
      WithoutContext(xs[..n], src, fid, Junk(xs, src, fid));
    }
  }

  // ---------- When the receiver fails ----------

  // The fragments of one context are got through.
  ghost predicate OwnRuns(xs: seq<Item>, src: nat, fid: nat) {
    xs != [] ==>
      var n := |xs| - 1;
      && OwnRuns(xs[..n], src, fid)
      && (Mine(xs[n], src, fid) ==> !Fails(RxItems(map[], xs[..n]).0, xs[n].src, xs[n].frag, xs[n].junk))
  }

  // The receiver fails at a fragment exactly when the stream of its own context makes it
  // take the accept branch without a packet.
  lemma FailsByItself(xs: seq<Item>)
    requires xs != []
    ensures var n := |xs| - 1;
            var x := xs[n];
            Fails(RxItems(map[], xs[..n]).0, x.src, x.frag, x.junk) <==>
            RxNext(RxRun(Start(xs, x.src, x.frag.fid), Own(xs[..n], x.src, x.frag.fid)).0, x.frag).1 == NoPacket
  {
    var n := |xs| - 1;
    var x := xs[n];
    Before(xs, x.src, x.frag.fid);
    OneHolds(RxItems(map[], xs[..n]).0, x, x.src, x.frag.fid,
             RxRun(Start(xs, x.src, x.frag.fid), Own(xs[..n], x.src, x.frag.fid)).0, Junk(xs, x.src, x.frag.fid));
  }

  lemma {:induction false} OwnRunsIff(xs: seq<Item>, src: nat, fid: nat)
    ensures OwnRuns(xs, src, fid) <==> NeverFails(Start(xs, src, fid), Own(xs, src, fid))
  {
    if xs != [] {
      var n := |xs| - 1;
      var own, c := Own(xs[..n], src, fid), Start(xs, src, fid);
      OwnRunsIff(xs[..n], src, fid);
      Before(xs, src, fid);
      if Key(src, fid) !in RxItems(map[], xs[..n]).0 {
        WithoutContext(xs[..n], src, fid, Junk(xs, src, fid));
        WithoutContext(xs[..n], src, fid, Junk(xs[..n], src, fid));
      }
      OneHolds(RxItems(map[], xs[..n]).0, xs[n], src, fid, RxRun(c, own).0, Junk(xs, src, fid));
      OwnRun(c, own, xs[n], src, fid);
    }
  }

  ghost predicate EachRuns(xs: seq<Item>) {
    forall src: nat, fid: nat | fid < 8 :: OwnRuns(xs, src, fid)
  }

  lemma {:induction false} RunsThroughIff(xs: seq<Item>)
    requires FidsInRange(xs)
    ensures RunsThrough(map[], xs) <==> EachRuns(xs)
  {
    if xs != [] {
      var n := |xs| - 1;
      var x := xs[n];
      RunsThroughIff(xs[..n]);
      if RunsThrough(map[], xs) {
        forall src: nat, fid: nat | fid < 8 ensures OwnRuns(xs, src, fid) {
          assert OwnRuns(xs[..n], src, fid);
        }
      }
      if EachRuns(xs) {
        assert OwnRuns(xs, x.src, x.frag.fid);
        forall src: nat, fid: nat | fid < 8 ensures OwnRuns(xs[..n], src, fid) {
          assert OwnRuns(xs, src, fid);
        }
      }
    }
  }

  // In any mixture of bursts the receiver fails exactly when some context, fed with its
  // own fragments alone, would.
  lemma ReceiverRunsIff(bs: seq<Heard>, xs: seq<Item>)
    requires ValidBursts(bs) && xs == AllItems(bs) && FidsInRange(xs)
    ensures BurstsRun(map[], bs) <==>
            forall src: nat, fid: nat | fid < 8 :: NeverFails(Start(xs, src, fid), Own(xs, src, fid))
  {
    BurstsAreItems(map[], bs);
    RunsThroughIff(xs);
    EachNeverFails(xs);
  }

  lemma EachNeverFails(xs: seq<Item>)
    ensures EachRuns(xs) <==> forall src: nat, fid: nat | fid < 8 :: NeverFails(Start(xs, src, fid), Own(xs, src, fid))
  {
    forall src: nat, fid: nat | fid < 8
      ensures OwnRuns(xs, src, fid) <==> NeverFails(Start(xs, src, fid), Own(xs, src, fid))
    {
      OwnRunsIff(xs, src, fid);
    }
  }

  // Fragments fs are all that some sender writes on one frag_id.
  ghost predicate WholeStream(fs: seq<Frag>, fid: nat) {
    fid < 8 && exists es :: ValidEvents(es) && fs == OnFid(Run(es).wire, fid)
  }

  // When nothing is lost the receiver never fails.
  lemma LosslessNeverFails(bs: seq<Heard>)
    requires ValidBursts(bs) && FidsInRange(AllItems(bs))
    requires forall src: nat, fid: nat | fid < 8 :: WholeStream(Own(AllItems(bs), src, fid), fid)
    ensures BurstsRun(map[], bs)
  {
    var xs := AllItems(bs);
    ReceiverRunsIff(bs, xs);
    forall src: nat, fid: nat | fid < 8 ensures NeverFails(Start(xs, src, fid), Own(xs, src, fid)) {
      assert WholeStream(Own(xs, src, fid), fid);
      var es :| ValidEvents(es) && Own(xs, src, fid) == OnFid(Run(es).wire, fid);
      var n := RunOnTrack(es, fid);
      LosslessDelivery(Idle(0), Start(xs, src, fid), Own(xs, src, fid));
    }
  }

  // ---------- Every source ----------

  // However the bursts of all sources are mixed, as long as the receiver does not fail,
  // what it has sent up from one source and priority, with what is still queued there, is
  // exactly what arrived at that source, in order.
  lemma EverySourceRoundTrips(bs: seq<Heard>, src: nat, fid: nat, es: seq<Event>)
    requires fid < 8 && ValidBursts(bs) && ValidEvents(es) && BurstsRun(map[], bs)
    requires Own(AllItems(bs), src, fid) == OnFid(Run(es).wire, fid)
    ensures Uids(OfPrio(Run(es).arrived, fid)) == From(RxBursts(map[], bs).1, src, fid) + Uids(OfPrio(Run(es).q, fid))
  {
    BurstsAreItems(map[], bs);
    ContextsAreSeparate(AllItems(bs), src, fid);
    RoundTrip(es, fid, Junk(AllItems(bs), src, fid));
  }

  // When of what a source writes on one frag_id only some fragments arrive, what the
  // receiver sends up from it is what those cause in one context, and it gets through them
  // exactly when that context does.
  lemma LossySource(bs: seq<Heard>, src: nat, fid: nat, fs: seq<Frag>, ok: seq<bool>) returns (len: nat)
    requires ValidBursts(bs) && |ok| == |fs| && Own(AllItems(bs), src, fid) == Kept(fs, ok)
    ensures len == Junk(AllItems(bs), src, fid)
    ensures From(RxBursts(map[], bs).1, src, fid) == SentUp(len, fs, ok, |fs|)
    ensures OwnRuns(AllItems(bs), src, fid) <==> PacketAtHand(len, fs, ok, |fs|)
  {
    BurstsAreItems(map[], bs);
    ContextsAreSeparate(AllItems(bs), src, fid);
    OwnRunsIff(AllItems(bs), src, fid);
    len := Junk(AllItems(bs), src, fid);
    KeptRun(len, fs, ok);
  }

  // So under loss too, from every source exactly the packets that arrived are sent up, in
  // order, as long as the receiver does not fail and fewer than 256 split packets of that
  // source in a row lose their end.
  lemma EverySourceSurvivesLoss(bs: seq<Heard>, src: nat, fid: nat, es: seq<Event>, fs: seq<Frag>, ok: seq<bool>)
    requires fid < 8 && ValidBursts(bs) && FidsInRange(AllItems(bs)) && ValidEvents(es) && BurstsRun(map[], bs)
    requires fs == OnFid(Run(es).wire, fid) && |ok| == |fs| && ShortGaps(fs, ok)
    requires Own(AllItems(bs), src, fid) == Kept(fs, ok)
    ensures ValidStream(fs) && From(RxBursts(map[], bs).1, src, fid) == Survivors(fs, ok, |fs|)
  {
    var len := LossySource(bs, src, fid, fs, ok);
    RunStreamIsValid(es, fid);
    BurstsAreItems(map[], bs);
    RunsThroughIff(AllItems(bs));
    LossySurvivors(len, fs, ok, |fs|);
  }
}
