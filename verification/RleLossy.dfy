// The stream of one frag_id when any fragments at all may be lost. Fragment k of the
// stream arrives exactly when ok[k] holds.
module RleLossy {
  import opened Optional
  import opened RleFormat
  import opened RleReceiver

  // The sender after k fragments.
  ghost function TxAt(fs: seq<Frag>, k: nat): Option<Tx>
    requires k <= |fs|
  {
    if k == 0 then Some(Idle(0))
    else
      match TxAt(fs, k - 1)
      case None => None
      case Some(tx) => TxNext(tx, fs[k - 1])
  }

  // The receiver after k fragments, starting from a context with no packet.
  ghost function CtxAt(len: nat, fs: seq<Frag>, ok: seq<bool>, k: nat): Ctx
    requires k <= |fs| == |ok|
  {
    if k == 0 then Ctx(None, 0, len)
    else
      var c := CtxAt(len, fs, ok, k - 1);
      if ok[k - 1] then RxNext(c, fs[k - 1]).0 else c
  }

  // What the arrival of fragment k causes.
  ghost function OutcomeAt(len: nat, fs: seq<Frag>, ok: seq<bool>, k: nat): Outcome
    requires k < |fs| == |ok|
  {
    if ok[k] then RxNext(CtxAt(len, fs, ok, k), fs[k]).1 else Nothing
  }

  // Where the packet in progress after k fragments began.
  ghost function Began(fs: seq<Frag>, k: nat): (j: nat)
    requires k <= |fs|
    ensures j <= k
  {
    if k == 0 then 0 else if fs[k - 1].flags.start then k - 1 else Began(fs, k - 1)
  }

  // One past the number of the last fragmented packet whose last fragment arrived.
  ghost function Heard(fs: seq<Frag>, ok: seq<bool>, k: nat): nat
    requires k <= |fs| == |ok|
  {
    if k == 0 then 0
    else if ok[k - 1] && fs[k - 1].flags == Flags(false, true) && TxAt(fs, k - 1).Some? then TxAt(fs, k - 1).value.n + 1
    else Heard(fs, ok, k - 1)
  }

  // A stream as the sender makes it.
  ghost predicate ValidStream(fs: seq<Frag>) {
    forall k | 0 <= k <= |fs| :: TxAt(fs, k).Some?
  }

  // Fewer than 256 fragmented packets in a row lose their last fragment.
  ghost predicate ShortGaps(fs: seq<Frag>, ok: seq<bool>)
    requires |ok| == |fs|
  {
    forall k | 0 <= k < |fs| && ok[k] && fs[k].flags == Flags(false, true) && TxAt(fs, k).Some? ::
      TxAt(fs, k).value.n < Heard(fs, ok, k) + 256
  }

  // Bytes lost from position j up to k.
  ghost function Missing(fs: seq<Frag>, ok: seq<bool>, j: nat, k: nat): nat
    requires j <= k <= |fs| == |ok|
    decreases k
  {
    if j == k then 0 else Missing(fs, ok, j, k - 1) + if ok[k - 1] then 0 else fs[k - 1].len
  }

  // Nothing is missing exactly when every fragment arrived that carries anything.
  lemma {:induction false} NothingMissing(fs: seq<Frag>, ok: seq<bool>, j: nat, k: nat)
    requires j <= k <= |fs| == |ok|
    ensures Missing(fs, ok, j, k) == 0 <==> forall i | j <= i < k :: ok[i] || fs[i].len == 0
    decreases k
  {
    if j < k {
      NothingMissing(fs, ok, j, k - 1);
    }
  }

  // ---------- What a last fragment causes ----------

  // The number a context expects once a first fragment has made it give up any packet it
  // still holds.
  ghost function Expected(c: Ctx): nat {
    if c.pkt.Some? then (c.exp + 1) % 256 else c.exp
  }

  // Inside a packet whose first fragment arrived, the context holds that packet and all
  // its bytes so far but those missing; inside one whose first fragment was lost, the
  // context only adds up bytes.
  lemma {:induction false} InsideWord(len: nat, fs: seq<Frag>, ok: seq<bool>, k: nat)
    requires k <= |fs| == |ok| && ValidStream(fs) && TxAt(fs, k).value.Mid?
    ensures Began(fs, k) < k && TxAt(fs, Began(fs, k)) == Some(Idle(TxAt(fs, k).value.n))
    ensures var tx, j := TxAt(fs, k).value, Began(fs, k);
            var c0, c, m := CtxAt(len, fs, ok, j), CtxAt(len, fs, ok, k), Missing(fs, ok, j, k);
            && fs[j].uid == tx.uid
            && if ok[j] then c == Ctx(Some(tx.uid), Expected(c0), c.len) && c.len + m == tx.sent
               else c == Ctx(c0.pkt, c0.exp, c.len) && c.len + m == c0.len + tx.sent
  {
    assert TxAt(fs, k) == TxNext(TxAt(fs, k - 1).value, fs[k - 1]);
    if fs[k - 1].flags.start {
      assert Missing(fs, ok, k - 1, k - 1) == 0;
    } else {
      InsideWord(len, fs, ok, k - 1);
    }
  }

  // All a last fragment can do, whatever was lost before it. The packet it ends is sent up
  // if the context expected its number and every byte of it arrived. If its first fragment
  // was lost, bytes the context had left over may make up for those missing; then the
  // packet held is sent up in its place, and with none held the source has no packet to
  // send up.
  lemma LastFragmentOutcome(len: nat, fs: seq<Frag>, ok: seq<bool>, k: nat)
    requires |ok| == |fs| && ValidStream(fs) && k < |fs| && fs[k].flags == Flags(false, true)
    ensures Began(fs, k) < k && TxAt(fs, Began(fs, k)).value.Idle?
    ensures var j := Began(fs, k);
            var c, n, m := CtxAt(len, fs, ok, j), TxAt(fs, j).value.n, Missing(fs, ok, j, k);
            OutcomeAt(len, fs, ok, k) ==
            if !ok[k] then Nothing
            else if ok[j] then (if m == 0 && Expected(c) == n % 256 then Deliver(fs[k].uid) else Nothing)
            else if c.len == m && c.exp == n % 256 then (if c.pkt.Some? then Deliver(c.pkt.value) else NoPacket)
            else Nothing
  {
    assert TxAt(fs, k + 1) == TxNext(TxAt(fs, k).value, fs[k]);
    InsideWord(len, fs, ok, k);
  }

  // When the accept branch finds no packet.
  lemma NoPacketIff(len: nat, fs: seq<Frag>, ok: seq<bool>, k: nat)
    requires |ok| == |fs| && ValidStream(fs) && k < |fs|
    ensures OutcomeAt(len, fs, ok, k) == NoPacket <==>
            && ok[k] && fs[k].flags == Flags(false, true)
            && var j := Began(fs, k);
               var c := CtxAt(len, fs, ok, j);
               j < k && !ok[j] && c.pkt == None && c.exp == TxAt(fs, j).value.n % 256 && c.len == Missing(fs, ok, j, k)
  {
    if fs[k].flags == Flags(false, true) {
      LastFragmentOutcome(len, fs, ok, k);
    }
  }

  // ---------- Deliveries ----------

  // One past the last fragment of a split packet that arrived last.
  ghost function LastEnd(fs: seq<Frag>, ok: seq<bool>, k: nat): (e: nat)
    requires k <= |fs| == |ok|
    ensures e <= k
  {
    if k == 0 then 0
    else if ok[k - 1] && fs[k - 1].flags == Flags(false, true) then k
    else LastEnd(fs, ok, k - 1)
  }

  // How many first fragments have arrived since.
  ghost function Firsts(fs: seq<Frag>, ok: seq<bool>, k: nat): nat
    requires k <= |fs| == |ok|
  {
    if k == 0 || LastEnd(fs, ok, k) == k then 0
    else Firsts(fs, ok, k - 1) + if ok[k - 1] && fs[k - 1].flags == Flags(true, false) then 1 else 0
  }

  // None has been lost since.
  ghost predicate FirstsHeard(fs: seq<Frag>, ok: seq<bool>, k: nat)
    requires k <= |fs| == |ok|
  {
    forall i | LastEnd(fs, ok, k) <= i < k && fs[i].flags == Flags(true, false) :: ok[i]
  }

  // Split packets begun so far.
  ghost function Begun(tx: Tx): nat {
    tx.n + if tx.Mid? then 1 else 0
  }

  lemma {:induction false} FirstsCount(fs: seq<Frag>, ok: seq<bool>, k: nat)
    requires k <= |fs| == |ok| && ValidStream(fs)
    ensures Heard(fs, ok, k) + Firsts(fs, ok, k) <= Begun(TxAt(fs, k).value)
    ensures Heard(fs, ok, k) + Firsts(fs, ok, k) == Begun(TxAt(fs, k).value) <==> FirstsHeard(fs, ok, k)
  {
    if k > 0 {
      assert TxAt(fs, k) == TxNext(TxAt(fs, k - 1).value, fs[k - 1]);
      FirstsCount(fs, ok, k - 1);
    }
  }

  // No accept branch without a packet before fragment k.
  ghost predicate PacketAtHand(len: nat, fs: seq<Frag>, ok: seq<bool>, k: nat)
    requires k <= |fs| == |ok|
  {
    forall i | 0 <= i < k :: OutcomeAt(len, fs, ok, i) != NoPacket
  }

  // The number a context expects is set by the last end heard and moved on by every first
  // fragment since.
  lemma {:induction false} ExpectedAt(len: nat, fs: seq<Frag>, ok: seq<bool>, k: nat)
    requires k <= |fs| == |ok| && ValidStream(fs) && PacketAtHand(len, fs, ok, k)
    ensures var c := CtxAt(len, fs, ok, k);
            && c.exp < 256 && Expected(c) == (Heard(fs, ok, k) + Firsts(fs, ok, k)) % 256
            && (c.pkt.Some? ==> 1 <= Firsts(fs, ok, k))
  {
    if k > 0 {
      var tx, f := TxAt(fs, k - 1).value, fs[k - 1];
      assert TxAt(fs, k) == TxNext(tx, f) && OutcomeAt(len, fs, ok, k - 1) != NoPacket;
      ExpectedAt(len, fs, ok, k - 1);
      NextModulo(Heard(fs, ok, k - 1) + Firsts(fs, ok, k - 1));
      NextModulo(tx.n);
    }
  }

  lemma SameModulo(e: nat, n: nat)
    requires e <= n < e + 256 && e % 256 == n % 256
    ensures e == n
  {
  }

  // ---------- The length collected ----------

  // Bytes of split packets that arrived from position j up to k.
  ghost function BytesHeard(fs: seq<Frag>, ok: seq<bool>, j: nat, k: nat): nat
    requires j <= k <= |fs| == |ok|
    decreases k
  {
    if j == k then 0
    else
      BytesHeard(fs, ok, j, k - 1) +
      if ok[k - 1] && fs[k - 1].flags != Flags(true, true) then fs[k - 1].len else 0
  }

  // Where the context began to count: at the last first fragment that arrived, or after
  // the last split packet that was sent up, whichever is later.
  ghost function CountedFrom(len: nat, fs: seq<Frag>, ok: seq<bool>, k: nat): (r: Option<nat>)
    requires k <= |fs| == |ok|
    ensures r.Some? ==> r.value <= k
  {
    if k == 0 then None
    else if ok[k - 1] && fs[k - 1].flags == Flags(true, false) then Some(k - 1)
    else if fs[k - 1].flags == Flags(false, true) && OutcomeAt(len, fs, ok, k - 1).Deliver? then Some(k)
    else CountedFrom(len, fs, ok, k - 1)
  }

  // Bytes counted from there on, with what the memory held if it never began anew.
  ghost function Counted(len: nat, fs: seq<Frag>, ok: seq<bool>, from: Option<nat>, k: nat): nat
    requires k <= |fs| == |ok| && (from.Some? ==> from.value <= k)
  {
    match from
    case None => len + BytesHeard(fs, ok, 0, k)
    case Some(j) => BytesHeard(fs, ok, j, k)
  }

  // The length of a context is told by what arrived and what was sent up.
  lemma {:induction false} LengthAt(len: nat, fs: seq<Frag>, ok: seq<bool>, k: nat)
    requires k <= |fs| == |ok|
    ensures CtxAt(len, fs, ok, k).len == Counted(len, fs, ok, CountedFrom(len, fs, ok, k), k)
  {
    if k > 0 {
      LengthAt(len, fs, ok, k - 1);
      if ok[k - 1] && fs[k - 1].flags == Flags(true, false) {
        assert BytesHeard(fs, ok, k - 1, k - 1) == 0;
      }
    }
  }

  // Positions from j to k hold one packet: a first fragment at j, then no other first or
  // whole one, all with the uid of fragment k.
  ghost predicate OneWord(fs: seq<Frag>, j: nat, k: nat)
    requires j <= k < |fs|
  {
    && fs[j].flags.start
    && (forall i | j < i <= k :: !fs[i].flags.start)
    && (forall i | j <= i < k :: !fs[i].flags.end)
    && forall i | j <= i <= k :: fs[i].uid == fs[k].uid
  }

  lemma {:induction false} WordInProgress(fs: seq<Frag>, k: nat)
    requires ValidStream(fs) && k <= |fs| && TxAt(fs, k).value.Mid?
    ensures Began(fs, k) < k && OneWord(fs, Began(fs, k), k - 1) && fs[k - 1].uid == TxAt(fs, k).value.uid
  {
    assert TxAt(fs, k) == TxNext(TxAt(fs, k - 1).value, fs[k - 1]);
    if !fs[k - 1].flags.start {
      WordInProgress(fs, k - 1);
    }
  }

  lemma WordSoFar(fs: seq<Frag>, k: nat)
    requires ValidStream(fs) && k < |fs| && !fs[k].flags.start
    ensures TxAt(fs, k).value.Mid? && Began(fs, k) < k && OneWord(fs, Began(fs, k), k)
  {
    assert TxAt(fs, k + 1) == TxNext(TxAt(fs, k).value, fs[k]);
    WordInProgress(fs, k);
    assert TxAt(fs, k) == TxNext(TxAt(fs, k - 1).value, fs[k - 1]);
    WordGoesOn(fs, Began(fs, k), k);
  }

  lemma WordGoesOn(fs: seq<Frag>, j: nat, k: nat)
    requires j < k < |fs| && OneWord(fs, j, k - 1) && !fs[k - 1].flags.end && !fs[k].flags.start &&
             fs[k].uid == fs[k - 1].uid
    ensures OneWord(fs, j, k)
  {
  }

  // Every fragment of the packet that fragment k ends has arrived, but perhaps empty ones
  // in the middle, and so have the first fragments of all split packets since the last end
  // that did.
  ghost predicate Intact(fs: seq<Frag>, ok: seq<bool>, k: nat)
    requires k < |fs| == |ok|
  {
    var j := Began(fs, k);
    && ok[k] && j < k && ok[j]
    && (forall i | j <= i < k :: ok[i] || fs[i].len == 0)
    && FirstsHeard(fs, ok, j)
  }

  // Under any loss of fragments with fewer than 256 fragmented packets in a row missing
  // their end: a last fragment makes the receiver send up its own packet if that is
  // intact, and nothing otherwise.
  lemma LossyDelivery(len: nat, fs: seq<Frag>, ok: seq<bool>, k: nat)
    requires |ok| == |fs| && ValidStream(fs) && ShortGaps(fs, ok) && k < |fs| && PacketAtHand(len, fs, ok, k + 1)
    requires fs[k].flags == Flags(false, true)
    ensures Began(fs, k) < k && OneWord(fs, Began(fs, k), k)
    ensures OutcomeAt(len, fs, ok, k) == if Intact(fs, ok, k) then Deliver(fs[k].uid) else Nothing
  {
    WordSoFar(fs, k);
    LastFragmentOutcome(len, fs, ok, k);
    NothingMissing(fs, ok, Began(fs, k), k);
    if ok[k] {
      ExpectedAtFirst(len, fs, ok, Began(fs, k), k);
    }
  }

  // Where a packet begins whose last fragment arrives, the context expects its number
  // exactly when no first fragment was lost since the last end heard, and does not expect
  // it while it holds an earlier packet.
  lemma ExpectedAtFirst(len: nat, fs: seq<Frag>, ok: seq<bool>, j: nat, k: nat)
    requires |ok| == |fs| && ValidStream(fs) && ShortGaps(fs, ok) && j < k < |fs| && PacketAtHand(len, fs, ok, k)
    requires ok[k] && fs[k].flags == Flags(false, true) && j == Began(fs, k) && TxAt(fs, j).value.Idle?
    ensures var c, n := CtxAt(len, fs, ok, j), TxAt(fs, j).value.n;
            && (Expected(c) == n % 256 <==> FirstsHeard(fs, ok, j))
            && (c.pkt.Some? ==> c.exp != n % 256)
  {
    var c, n, h, e := CtxAt(len, fs, ok, j), TxAt(fs, j).value.n, Heard(fs, ok, j), Firsts(fs, ok, j);
    HeardInWord(fs, ok, k);
    ExpectedAt(len, fs, ok, j);
    FirstsCount(fs, ok, j);
    if Expected(c) == n % 256 {
      SameModulo(h + e, n);
    }
    if c.pkt.Some? && c.exp == n % 256 {
      NextModulo(n);
      SameModulo(h + e, n + 1);
    }
  }

  // The place where counting began, told from the losses alone.
  ghost function CountedSince(fs: seq<Frag>, ok: seq<bool>, k: nat): (r: Option<nat>)
    requires k <= |fs| == |ok|
    ensures r.Some? ==> r.value <= k
  {
    if k == 0 then None
    else if ok[k - 1] && fs[k - 1].flags == Flags(true, false) then Some(k - 1)
    else if fs[k - 1].flags == Flags(false, true) && Intact(fs, ok, k - 1) then Some(k)
    else CountedSince(fs, ok, k - 1)
  }

  lemma {:induction false} CountedByLosses(len: nat, fs: seq<Frag>, ok: seq<bool>, k: nat)
    requires k <= |fs| == |ok| && ValidStream(fs) && ShortGaps(fs, ok) && PacketAtHand(len, fs, ok, k)
    ensures CountedSince(fs, ok, k) == CountedFrom(len, fs, ok, k)
    ensures CtxAt(len, fs, ok, k).len == Counted(len, fs, ok, CountedSince(fs, ok, k), k)
  {
    LengthAt(len, fs, ok, k);
    if k > 0 {
      CountedByLosses(len, fs, ok, k - 1);
      if fs[k - 1].flags == Flags(false, true) {
        LossyDelivery(len, fs, ok, k - 1);
      }
    }
  }

  // Told from the losses alone: the accept branch finds no packet for the first time
  // exactly at a last fragment that arrived, of a packet whose first fragment did not,
  // when the end of the split packet before it did, and as many bytes are counted as are
  // missing.
  lemma NoPacketByLosses(len: nat, fs: seq<Frag>, ok: seq<bool>, k: nat)
    requires |ok| == |fs| && ValidStream(fs) && ShortGaps(fs, ok) && k < |fs| && PacketAtHand(len, fs, ok, k)
    ensures OutcomeAt(len, fs, ok, k) == NoPacket <==>
            && ok[k] && fs[k].flags == Flags(false, true)
            && var j := Began(fs, k);
               && j < k && !ok[j] && FirstsHeard(fs, ok, j) && Firsts(fs, ok, j) == 0
               && Counted(len, fs, ok, CountedSince(fs, ok, j), j) == Missing(fs, ok, j, k)
  {
    if ok[k] && fs[k].flags == Flags(false, true) {
      var j := Began(fs, k);
      LastFragmentOutcome(len, fs, ok, k);
      CountedByLosses(len, fs, ok, j);
      ExpectedAtFirst(len, fs, ok, j, k);
      HoldsIfBegun(len, fs, ok, j);
    } else {
      NoPacketIff(len, fs, ok, k);
    }
  }

  // A context holds a packet exactly when a first fragment arrived since the last end.
  lemma {:induction false} HoldsIfBegun(len: nat, fs: seq<Frag>, ok: seq<bool>, k: nat)
    requires k <= |fs| == |ok|
    ensures CtxAt(len, fs, ok, k).pkt.Some? <==> 1 <= Firsts(fs, ok, k)
  {
    if k > 0 {
      HoldsIfBegun(len, fs, ok, k - 1);
    }
  }

  // Straight after a split packet was sent up, only a packet none of whose bytes are
  // missing can get there.
  lemma NoPacketAfterDelivery(len: nat, fs: seq<Frag>, ok: seq<bool>, k: nat)
    requires |ok| == |fs| && ValidStream(fs) && k < |fs| && OutcomeAt(len, fs, ok, k) == NoPacket
    requires CountedFrom(len, fs, ok, Began(fs, k)) == Some(Began(fs, k))
    ensures Missing(fs, ok, Began(fs, k), k) == 0
  {
    NoPacketIff(len, fs, ok, k);
    LengthAt(len, fs, ok, Began(fs, k));
  }

  // Nothing ends inside a packet.
  lemma {:induction false} HeardInWord(fs: seq<Frag>, ok: seq<bool>, k: nat)
    requires |ok| == |fs| && ValidStream(fs) && k < |fs| && fs[k].flags == Flags(false, true)
    ensures TxAt(fs, k).value.Mid? && TxAt(fs, k).value.n == TxAt(fs, Began(fs, k)).value.n
    ensures Heard(fs, ok, k) == Heard(fs, ok, Began(fs, k))
  {
    assert TxAt(fs, k + 1) == TxNext(TxAt(fs, k).value, fs[k]);
    HeardInside(fs, ok, k);
  }

  lemma {:induction false} HeardInside(fs: seq<Frag>, ok: seq<bool>, k: nat)
    requires |ok| == |fs| && ValidStream(fs) && k <= |fs| && TxAt(fs, k).value.Mid?
    ensures TxAt(fs, k).value.n == TxAt(fs, Began(fs, k)).value.n
    ensures Heard(fs, ok, k) == Heard(fs, ok, Began(fs, k))
  {
    assert TxAt(fs, k) == TxNext(TxAt(fs, k - 1).value, fs[k - 1]);
    if !fs[k - 1].flags.start {
      HeardInside(fs, ok, k - 1);
    }
  }

  // ---------- The packets sent up ----------

  // The fragments that arrive.
  ghost function Kept(fs: seq<Frag>, ok: seq<bool>): (gs: seq<Frag>)
    requires |ok| == |fs|
  {
    if fs == [] then [] else Kept(fs[..|fs| - 1], ok[..|fs| - 1]) + if ok[|fs| - 1] then [fs[|fs| - 1]] else []
  }

  // What the first n fragments cause, in order.
  ghost function SentUp(len: nat, fs: seq<Frag>, ok: seq<bool>, n: nat): (us: seq<nat>)
    requires n <= |fs| == |ok|
  {
    if n == 0 then [] else SentUp(len, fs, ok, n - 1) + Emit(OutcomeAt(len, fs, ok, n - 1))
  }

  lemma {:induction false} PrefixAgrees(len: nat, fs: seq<Frag>, ok: seq<bool>, n: nat)
    requires n < |fs| == |ok|
    ensures CtxAt(len, fs[..|fs| - 1], ok[..|fs| - 1], n) == CtxAt(len, fs, ok, n)
    ensures SentUp(len, fs[..|fs| - 1], ok[..|fs| - 1], n) == SentUp(len, fs, ok, n)
  {
    if n > 0 {
      PrefixAgrees(len, fs, ok, n - 1);
    }
  }

  lemma {:induction false} PrefixOutcomes(len: nat, fs: seq<Frag>, ok: seq<bool>, n: nat)
    requires n < |fs| == |ok|
    ensures PacketAtHand(len, fs[..|fs| - 1], ok[..|fs| - 1], n) <==> PacketAtHand(len, fs, ok, n)
  {
    if n > 0 {
      PrefixAgrees(len, fs, ok, n - 1);
      PrefixOutcomes(len, fs, ok, n - 1);
      assert OutcomeAt(len, fs[..|fs| - 1], ok[..|fs| - 1], n - 1) == OutcomeAt(len, fs, ok, n - 1);
    }
  }

  // Receiving what arrives is what CtxAt and OutcomeAt say.
  lemma {:induction false} KeptRun(len: nat, fs: seq<Frag>, ok: seq<bool>)
    requires |ok| == |fs|
    ensures RxRun(Ctx(None, 0, len), Kept(fs, ok)) == (CtxAt(len, fs, ok, |fs|), SentUp(len, fs, ok, |fs|))
    ensures NeverFails(Ctx(None, 0, len), Kept(fs, ok)) <==> PacketAtHand(len, fs, ok, |fs|)
  {
    if fs != [] {
      var n := |fs| - 1;
      KeptRun(len, fs[..n], ok[..n]);
      PrefixAgrees(len, fs, ok, n);
      PrefixOutcomes(len, fs, ok, n);
      assert PacketAtHand(len, fs, ok, n + 1) <==>
             PacketAtHand(len, fs, ok, n) && OutcomeAt(len, fs, ok, n) != NoPacket;
      OneMoreKept(Ctx(None, 0, len), Kept(fs[..n], ok[..n]), fs[n], ok[n]);
    }
  }

  lemma OneMoreKept(c0: Ctx, gs: seq<Frag>, f: Frag, b: bool)
    ensures var (c, us) := RxRun(c0, gs);
            RxRun(c0, gs + if b then [f] else []) == if b then (RxNext(c, f).0, us + Emit(RxNext(c, f).1))
              else (c, us + [])
    ensures NeverFails(c0, gs + if b then [f] else []) <==>
            NeverFails(c0, gs) && (b ==> RxNext(RxRun(c0, gs).0, f).1 != NoPacket)
  {
    var (c, us) := RxRun(c0, gs);
    if b {
      RxRunAppend(c0, gs, [f]);
      NeverFailsNext(c0, gs, f);
      assert [f][1..] == [] && Emit(RxNext(c, f).1) + [] == Emit(RxNext(c, f).1);
    } else {
      assert gs + [] == gs && us + [] == us;
    }
  }

  // Of the first n fragments, those that end a packet which arrived: whole packets, and
  // split ones that are intact.
  ghost function Survivors(fs: seq<Frag>, ok: seq<bool>, n: nat): (us: seq<nat>)
    requires n <= |fs| == |ok|
  {
    if n == 0 then []
    else
      Survivors(fs, ok, n - 1) +
      if fs[n - 1].flags.end && (if fs[n - 1].flags.start then ok[n - 1] else Intact(fs, ok, n - 1))
      then [fs[n - 1].uid] else []
  }

  // Under any such loss exactly these packets are sent up, in order.
  lemma {:induction false} LossySurvivors(len: nat, fs: seq<Frag>, ok: seq<bool>, n: nat)
    requires |ok| == |fs| && ValidStream(fs) && ShortGaps(fs, ok) && n <= |fs| && PacketAtHand(len, fs, ok, n)
    ensures SentUp(len, fs, ok, n) == Survivors(fs, ok, n)
  {
    if n > 0 {
      LossySurvivors(len, fs, ok, n - 1);
      if fs[n - 1].flags == Flags(false, true) {
        LossyDelivery(len, fs, ok, n - 1);
      }
    }
  }
}
