// Whole superframes and whole runs of the allocator: three request phases per
// superframe, capacity requests arriving between them, and deficits carried over.
module Superframes {
  import opened Optional
  import opened Superframe
  import opened Scheduler
  import opened BurstPlan
  import opened WorkConservation

  // ---------- One superframe ----------

  // reset_allocator: an empty superframe; deficits and cursor are kept.
  ghost function Reset(cfg: Config, deficit: seq<int>, cur: nat): (s: State)
    requires ValidConfig(cfg) && |deficit| == |cfg.rules| && cur < |cfg.rules|
    ensures Shape(cfg, s)
  {
    var n := |cfg.rules|;
    State(deficit, seq(n, i => 0), SlotCount(cfg.frames), 0, cur, map[], seq(n, i => {}), [], [])
  }

  // init_request_queues: add the requests and give the loop a full budget.
  ghost function Request(cfg: Config, s: State, req: seq<nat>): (s': State)
    requires Shape(cfg, s) && |req| == |cfg.rules|
    ensures Shape(cfg, s')
  {
    s.(deficit := seq(|req|, i requires 0 <= i < |req| => s.deficit[i] + req[i]), left := |cfg.rules|)
  }

  // Every terminal that asks in this superframe has a rule without the SMALL condition.
  ghost predicate PlainRules(cfg: Config, deficit: seq<int>, cra: seq<nat>, rbdc: seq<nat>, vbdc: seq<nat>)
    requires |deficit| == |cra| == |rbdc| == |vbdc| == |cfg.rules|
  {
    forall t | 0 <= t < |deficit| && deficit[t] + cra[t] + rbdc[t] + vbdc[t] > 0 :: HasPlainRule(cfg, t)
  }

  ghost predicate HasPlainRule(cfg: Config, t: nat)
    requires t < |cfg.rules|
  {
    exists k :: 0 <= k < |cfg.rules[t]| && !cfg.rules[t][k].small
  }

  // A phase from s does what Phase says: its loop ends, and no terminal makes it go on
  // with the frame of an earlier turn.
  ghost predicate PhaseRuns(cfg: Config, s: State)
    requires Shape(cfg, s)
  {
    LoopEnds(cfg, s) && EveryoneHasRule(cfg, s.deficit)
  }

  // Some terminal asks for nothing at all in this superframe, as the hub does.
  ghost predicate HasIdle(cfg: Config, deficit: seq<int>, cra: seq<nat>, rbdc: seq<nat>, vbdc: seq<nat>)
    requires |deficit| == |cra| == |rbdc| == |vbdc| == |cfg.rules|
  {
    cfg.mode == ContMode || exists h :: 0 <= h < |deficit| && deficit[h] + cra[h] + rbdc[h] + vbdc[h] <= 0
  }

  ghost function PhaseFor(cfg: Config, s: State, req: seq<nat>): (s': State)
    requires Inv(cfg, s) && 0 <= s.free && |req| == |cfg.rules| && LoopEnds(cfg, Request(cfg, s, req))
    ensures Inv(cfg, s') && 0 <= s'.free
  {
    RequestKeeps(cfg, s, req);
    PhaseKeeps(cfg, Request(cfg, s, req));
    Phase(cfg, Request(cfg, s, req))
  }

  lemma RequestKeeps(cfg: Config, s: State, req: seq<nat>)
    requires Inv(cfg, s) && |req| == |cfg.rules|
    ensures Inv(cfg, Request(cfg, s, req))
  {
    MovingKeeps(cfg, s, Request(cfg, s, req));
  }

  lemma ResetInv(cfg: Config, deficit: seq<int>, cur: nat)
    requires ValidConfig(cfg) && |deficit| == |cfg.rules| && cur < |cfg.rules|
    ensures Inv(cfg, Reset(cfg, deficit, cur))
  {
  }

  // What one step, and so one phase, does to a terminal's deficit and grant.
  lemma ServeConserves(cfg: Config, s: State, t: nat)
    requires Shape(cfg, s) && 1 <= s.left && s.deficit[s.cur] > 0 && t < |cfg.rules|
    ensures var s' := Serve(cfg, s);
            && s'.deficit[t] + s'.granted[t] == s.deficit[t] + s.granted[t]
            && (s.deficit[t] <= 0 ==> s'.deficit[t] == s.deficit[t])
            && (s'.deficit[t] < s.deficit[t] ==> 0 < s'.deficit[t] + LargestBurst(cfg.frames))
  {
    match Choice(cfg, s, s.cur)
    case Some(c) => LargestBurstBounds(cfg.frames, c.f);
    case None =>
  }

  lemma {:induction false} PhaseConserves(cfg: Config, s: State, t: nat)
    requires Shape(cfg, s) && 0 <= s.free && LoopEnds(cfg, s) && t < |cfg.rules|
    ensures var s' := Phase(cfg, s);
            && s'.deficit[t] + s'.granted[t] == s.deficit[t] + s.granted[t]
            && (s.deficit[t] <= 0 ==> s'.deficit[t] == s.deficit[t])
            && (s'.deficit[t] < s.deficit[t] ==> 0 < s'.deficit[t] + LargestBurst(cfg.frames))
    decreases s.free, s.left, Distance(cfg, s)
  {
    if !Done(s) {
      var q := Seek(cfg, s);
      if 0 < q.left {
        ServeConserves(cfg, q, t);
      }
      StepShrinks(cfg, s);
      PhaseConserves(cfg, Step(cfg, s), t);
    }
  }

  ghost function LargestBurst(fs: seq<FrameDim>): (b: nat)
    ensures 1 <= b
  {
    if fs == [] then 1
    else
      var m, last := LargestBurst(fs[..|fs| - 1]), fs[|fs| - 1].burst;
      if m < last then last else m
  }

  lemma {:induction false} LargestBurstBounds(fs: seq<FrameDim>, f: nat)
    requires f < |fs|
    ensures fs[f].burst <= LargestBurst(fs)
  {
    if f < |fs| - 1 {
      LargestBurstBounds(fs[..|fs| - 1], f);
    }
  }

  // Each of the three phases CRA, RBDC and VBDC of one superframe does.
  ghost predicate PhasesRun(cfg: Config, deficit: seq<int>, cur: nat, cra: seq<nat>, rbdc: seq<nat>, vbdc: seq<nat>)
    requires ValidConfig(cfg) && cur < |cfg.rules| && |deficit| == |cra| == |rbdc| == |vbdc| == |cfg.rules|
  {
    var s0 := Reset(cfg, deficit, cur);
    ResetInv(cfg, deficit, cur);
    && PhaseRuns(cfg, Request(cfg, s0, cra))
    && var s1 := PhaseFor(cfg, s0, cra);
       && PhaseRuns(cfg, Request(cfg, s1, rbdc))
       && PhaseRuns(cfg, Request(cfg, PhaseFor(cfg, s1, rbdc), vbdc))
  }

  // The state they end in.
  ghost function Allocate(cfg: Config, deficit: seq<int>, cur: nat, cra: seq<nat>, rbdc: seq<nat>,
                          vbdc: seq<nat>): (s: State)
    requires ValidConfig(cfg) && cur < |cfg.rules| && |deficit| == |cra| == |rbdc| == |vbdc| == |cfg.rules|
    requires PhasesRun(cfg, deficit, cur, cra, rbdc, vbdc)
    ensures Inv(cfg, s) && 0 <= s.free
  {
    var s0 := Reset(cfg, deficit, cur);
    ResetInv(cfg, deficit, cur);
    PhaseFor(cfg, PhaseFor(cfg, PhaseFor(cfg, s0, cra), rbdc), vbdc)
  }

  // What holds of the whole superframe holds of a phase: a terminal that asks for nothing,
  // and plain rules for those that ask.
  lemma IdleIn(cfg: Config, s: State, deficit: seq<int>, cra: seq<nat>, rbdc: seq<nat>, vbdc: seq<nat>, req: seq<nat>)
    requires Shape(cfg, s) && |deficit| == |cra| == |rbdc| == |vbdc| == |req| == |cfg.rules|
    requires HasIdle(cfg, deficit, cra, rbdc, vbdc) && PlainRules(cfg, deficit, cra, rbdc, vbdc)
    requires forall t | 0 <= t < |deficit| :: s.deficit[t] + req[t] <= deficit[t] + cra[t] + rbdc[t] + vbdc[t]
    ensures PhaseRuns(cfg, Request(cfg, s, req))
  {
    if cfg.mode == SlotMode {
      var h: nat :| h < |deficit| && deficit[h] + cra[h] + rbdc[h] + vbdc[h] <= 0;
      IdleNeverStuck(cfg, Request(cfg, s, req), h);
    }
    var d := Request(cfg, s, req).deficit;
    forall t | 0 <= t < |cfg.rules| && d[t] > 0 ensures HasRule(cfg, t, d[t]) {
      assert HasPlainRule(cfg, t);
      var k :| 0 <= k < |cfg.rules[t]| && !cfg.rules[t][k].small;
      assert Applies(cfg, cfg.rules[t][k], d[t]);
    }
  }

  // What a caller can see beforehand: a terminal that asks for nothing, unless in CONT
  // mode, and a plain rule for every one that asks.
  lemma IdlePhasesRun(cfg: Config, deficit: seq<int>, cur: nat, cra: seq<nat>, rbdc: seq<nat>, vbdc: seq<nat>)
    requires ValidConfig(cfg) && cur < |cfg.rules|
    requires |deficit| == |cra| == |rbdc| == |vbdc| == |cfg.rules|
    requires HasIdle(cfg, deficit, cra, rbdc, vbdc) && PlainRules(cfg, deficit, cra, rbdc, vbdc)
    ensures PhasesRun(cfg, deficit, cur, cra, rbdc, vbdc)
  {
    var s0 := Reset(cfg, deficit, cur);
    ResetInv(cfg, deficit, cur);
    IdleIn(cfg, s0, deficit, cra, rbdc, vbdc, cra);
    var s1 := PhaseFor(cfg, s0, cra);
    PhaseForConserves(cfg, s0, cra);
    IdleIn(cfg, s1, deficit, cra, rbdc, vbdc, rbdc);
    var s2 := PhaseFor(cfg, s1, rbdc);
    PhaseForConserves(cfg, s1, rbdc);
    IdleIn(cfg, s2, deficit, cra, rbdc, vbdc, vbdc);
  }

  lemma PhaseForConserves(cfg: Config, s: State, req: seq<nat>)
    requires Inv(cfg, s) && 0 <= s.free && |req| == |cfg.rules| && LoopEnds(cfg, Request(cfg, s, req))
    ensures forall t | 0 <= t < |cfg.rules| ::
              Balanced(cfg, s.deficit[t] + req[t], s.granted[t], PhaseFor(cfg, s, req).deficit[t],
                PhaseFor(cfg, s, req).granted[t])
  {
    forall t | 0 <= t < |cfg.rules|
      ensures Balanced(cfg, s.deficit[t] + req[t], s.granted[t], PhaseFor(cfg, s, req).deficit[t],
              PhaseFor(cfg, s, req).granted[t])
    {
      PhaseConserves(cfg, Request(cfg, s, req), t);
    }
  }

  // From deficit d and grant g to deficit d' and grant g': what left the deficit was
  // granted, nothing is granted to a terminal that asks for nothing, and a debt stays
  // smaller than one burst.
  ghost predicate Balanced(cfg: Config, d: int, g: int, d': int, g': int) {
    && d' + g' == d + g
    && g <= g'
    && (d <= 0 ==> d' == d)
    && (d' < d ==> 0 < d' + LargestBurst(cfg.frames))
  }

  // One superframe: the plan, grid, bitmaps and ledgers agree, no request that could
  // still be served is left, and each terminal's requests are either granted or still in
  // its deficit, with a debt of less than one burst.
  lemma AllocateIsSound(cfg: Config, deficit: seq<int>, cur: nat, cra: seq<nat>, rbdc: seq<nat>, vbdc: seq<nat>, t: nat)
    requires ValidConfig(cfg) && cur < |cfg.rules| && t < |cfg.rules|
    requires |deficit| == |cra| == |rbdc| == |vbdc| == |cfg.rules| && PhasesRun(cfg, deficit, cur, cra, rbdc, vbdc)
    ensures var s := Allocate(cfg, deficit, cur, cra, rbdc, vbdc);
            && Inv(cfg, s)
            && Quiet(cfg, s, t)
            && 0 <= s.granted[t] == PlanBytes(s.plan, t)
            && s.deficit[t] + s.granted[t] == deficit[t] + cra[t] + rbdc[t] + vbdc[t]
            && (0 < deficit[t] + LargestBurst(cfg.frames) ==> 0 < s.deficit[t] + LargestBurst(cfg.frames))
            && (deficit[t] + cra[t] + rbdc[t] + vbdc[t] <= 0 ==> s.granted[t] == 0)
  {
    var s0 := Reset(cfg, deficit, cur);
    ResetInv(cfg, deficit, cur);
    PhaseForConserves(cfg, s0, cra);
    var s1 := PhaseFor(cfg, s0, cra);
    PhaseForConserves(cfg, s1, rbdc);
    var s2 := PhaseFor(cfg, s1, rbdc);
    PhaseForConserves(cfg, s2, vbdc);
    RequestKeeps(cfg, s2, vbdc);
    PhaseIsWorkConserving(cfg, Request(cfg, s2, vbdc), t);
  }

  lemma {:induction false} PhaseExtends(cfg: Config, s: State)
    requires Shape(cfg, s) && 0 <= s.free && LoopEnds(cfg, s)
    ensures s.plan <= Phase(cfg, s).plan
    decreases s.free, s.left, Distance(cfg, s)
  {
    if !Done(s) {
      StepShrinks(cfg, s);
      PhaseExtends(cfg, Step(cfg, s));
      assert s.plan <= Step(cfg, s).plan;
    }
  }

  // State s is where a phase that had to serve asked bytes for terminal t, all phases so
  // far together, has left it: no more of them could be served.
  ghost predicate ServedUpTo(cfg: Config, s: State, t: nat, asked: int) {
    Shape(cfg, s) && t < |cfg.rules| && Quiet(cfg, s, t) && s.deficit[t] + s.granted[t] == asked
  }

  // The kinds of request are served in order, each only from what the ones before it
  // could not use. The plan begins with a part that depends on the deficits carried over
  // and the CRA requests alone and serves them as far as possible, goes on with one that
  // does the same for RBDC, and the rest serves VBDC.
  lemma KindsInOrder(cfg: Config, deficit: seq<int>, cur: nat, cra: seq<nat>, rbdc: seq<nat>, vbdc: seq<nat>, t: nat)
    returns (s1: State, s2: State)
    requires ValidConfig(cfg) && cur < |cfg.rules| && t < |cfg.rules|
    requires |deficit| == |cra| == |rbdc| == |vbdc| == |cfg.rules| && PhasesRun(cfg, deficit, cur, cra, rbdc, vbdc)
    ensures var s0 := Reset(cfg, deficit, cur);
            Inv(cfg, s0) && PhaseRuns(cfg, Request(cfg, s0, cra)) && s1 == PhaseFor(cfg, s0, cra)
    ensures ServedUpTo(cfg, s1, t, deficit[t] + cra[t])
    ensures Inv(cfg, s1) && PhaseRuns(cfg, Request(cfg, s1, rbdc)) && s2 == PhaseFor(cfg, s1, rbdc)
    ensures ServedUpTo(cfg, s2, t, deficit[t] + cra[t] + rbdc[t])
    ensures var s3 := Allocate(cfg, deficit, cur, cra, rbdc, vbdc);
            ServedUpTo(cfg, s3, t, deficit[t] + cra[t] + rbdc[t] + vbdc[t]) && s1.plan <= s2.plan <= s3.plan
  {
    var s0 := Reset(cfg, deficit, cur);
    ResetInv(cfg, deficit, cur);
    s1 := PhaseServes(cfg, s0, cra, t);
    s2 := PhaseServes(cfg, s1, rbdc, t);
    var s3 := PhaseServes(cfg, s2, vbdc, t);
  }

  lemma PhaseServes(cfg: Config, s: State, req: seq<nat>, t: nat) returns (s': State)
    requires Inv(cfg, s) && 0 <= s.free && |req| == |cfg.rules| && LoopEnds(cfg, Request(cfg, s, req)) &&
             t < |cfg.rules|
    ensures s' == PhaseFor(cfg, s, req) && s.plan <= s'.plan
    ensures ServedUpTo(cfg, s', t, s.deficit[t] + s.granted[t] + req[t])
  {
    s' := PhaseFor(cfg, s, req);
    RequestKeeps(cfg, s, req);
    PhaseExtends(cfg, Request(cfg, s, req));
    PhaseConserves(cfg, Request(cfg, s, req), t);
    PhaseIsWorkConserving(cfg, Request(cfg, s, req), t);
  }

  // ---------- Runs ----------

  // maxReq is max_req_buf_; forget is forget_debit_ == 1.
  datatype Options = Options(cra: seq<nat>, maxReq: nat, forget: bool)

  // What has happened to one terminal's bytes so far: CRA and RBDC bytes entered, VBDC
  // bytes received, VBDC bytes entered, bytes granted, bytes cut by max_req_buf_, debt
  // forgiven.
  datatype Book = Book(rated: nat, received: nat, entered: nat, granted: nat, cut: nat, forgiven: nat)

  datatype Event = Report(t: nat, rate: nat, volume: nat) | Superframe

  datatype System = System(deficit: seq<int>, rate: seq<nat>, volume: seq<nat>, cur: nat, books: seq<Book>)

  ghost function Boot(cfg: Config): System {
    var n := |cfg.rules|;
    System(seq(n, i => 0), seq(n, i => 0), seq(n, i => 0), 0, seq(n, i => Book(0, 0, 0, 0, 0, 0)))
  }

  ghost predicate ValidOptions(cfg: Config, opt: Options) {
    ValidConfig(cfg) && |opt.cra| == |cfg.rules|
  }

  // Requests come from active terminals.
  ghost predicate ValidEvent(cfg: Config, e: Event) {
    e.Report? ==> e.t < |cfg.rules|
  }

  ghost predicate ValidSystem(cfg: Config, opt: Options, y: System) {
    && ValidOptions(cfg, opt)
    && |y.deficit| == |y.rate| == |y.volume| == |y.books| == |cfg.rules|
    && y.cur < |cfg.rules|
  }

  function Clip(maxReq: nat, forget: bool, d: int): int {
    var c := if d > maxReq then maxReq else d;
    if forget && c < 0 then 0 else c
  }

  function CloseBook(b: Book, rated: nat, folded: nat, granted: nat, before: int, after: int): Book {
    b.(rated := b.rated + rated, entered := b.entered + folded, granted := b.granted + granted,
       cut := b.cut + if after < before then before - after else 0,
       forgiven := b.forgiven + if before < after then after - before else 0)
  }

  // allocation() returns, having done as specified: its three phases do.
  ghost predicate Returns(cfg: Config, opt: Options, y: System)
    requires ValidSystem(cfg, opt, y)
  {
    PhasesRun(cfg, y.deficit, y.cur, opt.cra, y.rate, y.volume)
  }

  // The allocation of one superframe within a run.
  ghost function Plan(cfg: Config, opt: Options, y: System): (s: State)
    requires ValidSystem(cfg, opt, y) && Returns(cfg, opt, y)
    ensures Shape(cfg, s) && forall t | 0 <= t < |cfg.rules| :: 0 <= s.granted[t]
  {
    var s := Allocate(cfg, y.deficit, y.cur, opt.cra, y.rate, y.volume);
    assert forall t | 0 <= t < |cfg.rules| :: s.granted[t] == PlanBytes(s.plan, t);
    s
  }

  // The end of allocation(): volumes have been folded in, deficits are clipped.
  ghost function Settle(cfg: Config, opt: Options, y: System, s: State): (y': System)
    requires ValidSystem(cfg, opt, y) && Shape(cfg, s)
    requires forall t | 0 <= t < |cfg.rules| :: 0 <= s.granted[t]
    ensures ValidSystem(cfg, opt, y')
  {
    var n := |cfg.rules|;
    System(
      seq(n, t requires 0 <= t < n => Clip(opt.maxReq, opt.forget, s.deficit[t])),
      y.rate,
      seq(n, t => 0),
      s.cur,
      seq(n, t requires 0 <= t < n =>
        CloseBook(y.books[t], opt.cra[t] + y.rate[t], y.volume[t], s.granted[t],
                  s.deficit[t], Clip(opt.maxReq, opt.forget, s.deficit[t]))))
  }

  // rcv_req.
  ghost function Receive(y: System, t: nat, rate: nat, volume: nat): System
    requires t < |y.rate| == |y.volume| == |y.books|
  {
    y.(rate := y.rate[t := rate], volume := y.volume[t := y.volume[t] + volume],
       books := y.books[t := y.books[t].(received := y.books[t].received + volume)])
  }

  // None when allocation() never returns, or may go on with the frame of an earlier turn.
  ghost function React(cfg: Config, opt: Options, y: System, e: Event): (r: Option<System>)
    requires ValidSystem(cfg, opt, y) && ValidEvent(cfg, e)
    ensures r.Some? ==> ValidSystem(cfg, opt, r.value)
  {
    match e
    case Report(t, rate, volume) => Some(Receive(y, t, rate, volume))
    case Superframe => if Returns(cfg, opt, y) then Some(Settle(cfg, opt, y, Plan(cfg, opt, y))) else None
  }

  ghost predicate ValidEvents(cfg: Config, es: seq<Event>) {
    forall k | 0 <= k < |es| :: ValidEvent(cfg, es[k])
  }

  ghost function Run(cfg: Config, opt: Options, es: seq<Event>): (r: Option<System>)
    requires ValidOptions(cfg, opt) && ValidEvents(cfg, es)
    ensures r.Some? ==> ValidSystem(cfg, opt, r.value)
  {
    if es == [] then Some(Boot(cfg))
    else
      match Run(cfg, opt, es[..|es| - 1])
      case None => None
      case Some(y) => React(cfg, opt, y, es[|es| - 1])
  }

  // Terminal hub never asks.
  ghost predicate Silent(opt: Options, es: seq<Event>, hub: nat) {
    && hub < |opt.cra| && opt.cra[hub] == 0
    && forall k | 0 <= k < |es| && es[k].Report? && es[k].t == hub :: es[k].rate == 0 && es[k].volume == 0
  }

  lemma SilentBefore(opt: Options, es: seq<Event>)
    requires es != []
    ensures var e := es[|es| - 1];
            forall h: nat :: Silent(opt, es, h) <==>
              Silent(opt, es[..|es| - 1], h) && (e.Report? && e.t == h ==> e.rate == 0 == e.volume)
  {
    var n := |es| - 1;
    forall h: nat
      ensures Silent(opt, es, h) <==>
              Silent(opt, es[..n], h) && (es[n].Report? && es[n].t == h ==> es[n].rate == 0 == es[n].volume)
    {
      assert forall k | 0 <= k < n :: es[..n][k] == es[k];
    }
  }

  // The silent terminals have asked for nothing so far.
  ghost predicate SilentAsNothing(cfg: Config, opt: Options, es: seq<Event>, y: System)
    requires ValidSystem(cfg, opt, y)
  {
    forall h | 0 <= h < |cfg.rules| && Silent(opt, es, h) :: y.deficit[h] <= 0 && y.rate[h] == 0 == y.volume[h]
  }

  ghost predicate SomeoneSilent(cfg: Config, opt: Options, es: seq<Event>) {
    && (cfg.mode == ContMode || exists hub :: Silent(opt, es, hub))
    && forall t | 0 <= t < |cfg.rules| :: HasPlainRule(cfg, t) || Silent(opt, es, t)
  }

  lemma SilentSuperframe(cfg: Config, opt: Options, es: seq<Event>, y: System)
    requires ValidSystem(cfg, opt, y) && SomeoneSilent(cfg, opt, es) && SilentAsNothing(cfg, opt, es, y)
    ensures Returns(cfg, opt, y) && SilentAsNothing(cfg, opt, es, Settle(cfg, opt, y, Plan(cfg, opt, y)))
  {
    IdlePhasesRun(cfg, y.deficit, y.cur, opt.cra, y.rate, y.volume);
    forall h | 0 <= h < |cfg.rules| && Silent(opt, es, h) ensures Plan(cfg, opt, y).deficit[h] <= 0 {
      PlanBalances(cfg, opt, y, Plan(cfg, opt, y), h);
    }
  }

  // Every superframe is allocated as specified, in CONT mode always and in SLOT mode if
  // some terminal, like the hub, never asks, as long as all that ask have a plain rule.
  lemma {:induction false} HubKeepsRunning(cfg: Config, opt: Options, es: seq<Event>)
    requires ValidOptions(cfg, opt) && ValidEvents(cfg, es) && SomeoneSilent(cfg, opt, es)
    ensures Run(cfg, opt, es).Some? && SilentAsNothing(cfg, opt, es, Run(cfg, opt, es).value)
  {
    if es != [] {
      var before := es[..|es| - 1];
      SilentBefore(opt, es);
      HubKeepsRunning(cfg, opt, before);
      if es[|es| - 1].Superframe? {
        SilentSuperframe(cfg, opt, es, Run(cfg, opt, before).value);
      }
    }
  }

  // Bounds and balance of one terminal's account.
  ghost predicate Account(cfg: Config, opt: Options, y: System, t: nat)
    requires ValidSystem(cfg, opt, y) && t < |cfg.rules|
  {
    var b := y.books[t];
    && y.deficit[t] <= opt.maxReq
    && 0 < y.deficit[t] + LargestBurst(cfg.frames)
    && b.received == b.entered + y.volume[t]
    && b.rated + b.entered + b.forgiven == b.granted + b.cut + y.deficit[t]
    && (opt.forget ==> 0 <= y.deficit[t])
    && (!opt.forget ==> b.forgiven == 0)
  }

  lemma PlanBalances(cfg: Config, opt: Options, y: System, s: State, t: nat)
    requires ValidSystem(cfg, opt, y) && Returns(cfg, opt, y) && t < |cfg.rules| && s == Plan(cfg, opt, y)
    ensures Inv(cfg, s) && Quiet(cfg, s, t)
    ensures 0 <= s.granted[t] == PlanBytes(s.plan, t)
    ensures s.deficit[t] + s.granted[t] == y.deficit[t] + opt.cra[t] + y.rate[t] + y.volume[t]
    ensures 0 < y.deficit[t] + LargestBurst(cfg.frames) ==> 0 < s.deficit[t] + LargestBurst(cfg.frames)
  {
    AllocateIsSound(cfg, y.deficit, y.cur, opt.cra, y.rate, y.volume, t);
  }

  lemma CloseBalances(maxReq: nat, forget: bool, b: Book, rated: nat, folded: nat, granted: nat, d: int, before: int)
    requires b.rated + b.entered + b.forgiven == b.granted + b.cut + d && before + granted == d + rated + folded
    ensures var after := Clip(maxReq, forget, before);
            var b' := CloseBook(b, rated, folded, granted, before, after);
            b'.rated + b'.entered + b'.forgiven == b'.granted + b'.cut + after && after <= maxReq
  {
  }

  lemma SettleKeepsAccount(cfg: Config, opt: Options, y: System, s: State, t: nat)
    requires ValidSystem(cfg, opt, y) && Shape(cfg, s) && t < |cfg.rules| && Account(cfg, opt, y, t)
    requires forall u | 0 <= u < |cfg.rules| :: 0 <= s.granted[u]
    requires s.deficit[t] + s.granted[t] == y.deficit[t] + opt.cra[t] + y.rate[t] + y.volume[t]
    requires 0 < s.deficit[t] + LargestBurst(cfg.frames)
    ensures Account(cfg, opt, Settle(cfg, opt, y, s), t)
  {
    CloseBalances(opt.maxReq, opt.forget, y.books[t], opt.cra[t] + y.rate[t], y.volume[t], s.granted[t], y.deficit[t],
      s.deficit[t]);
  }

  lemma ReactKeepsAccount(cfg: Config, opt: Options, y: System, e: Event, t: nat)
    requires ValidSystem(cfg, opt, y) && ValidEvent(cfg, e) && t < |cfg.rules| && Account(cfg, opt, y, t)
    requires e.Superframe? ==> Returns(cfg, opt, y)
    ensures React(cfg, opt, y, e).Some? && Account(cfg, opt, React(cfg, opt, y, e).value, t)
  {
    if e.Superframe? {
      var s := Plan(cfg, opt, y);
      PlanBalances(cfg, opt, y, s, t);
      SettleKeepsAccount(cfg, opt, y, s, t);
    }
  }

  // What terminal t is still owed when the phases of a superframe are over: all it asked
  // for, less what the plan gives it.
  ghost function Owed(cfg: Config, opt: Options, y: System, t: nat): int
    requires ValidSystem(cfg, opt, y) && Returns(cfg, opt, y) && t < |cfg.rules|
  {
    y.deficit[t] + opt.cra[t] + y.rate[t] + y.volume[t] - PlanBytes(Plan(cfg, opt, y).plan, t)
  }

  // That is carried over: as it is up to max_req_buf_, and only max_req_buf_ of more; a
  // debt as it is, or not at all with forget_debit_. What is cut and what is forgiven is
  // exactly the rest.
  lemma CarriedOver(cfg: Config, opt: Options, y: System, t: nat)
    requires ValidSystem(cfg, opt, y) && Returns(cfg, opt, y) && t < |cfg.rules|
    ensures var d, y' := Owed(cfg, opt, y, t), React(cfg, opt, y, Event.Superframe).value;
            && y'.deficit[t] == (if d > opt.maxReq then opt.maxReq else if 0 <= d || !opt.forget then d else 0)
            && y'.books[t].cut == y.books[t].cut + (if d > opt.maxReq then d - opt.maxReq else 0)
            && y'.books[t].forgiven == y.books[t].forgiven + (if opt.forget && d < 0 then -d else 0)
  {
    PlanBalances(cfg, opt, y, Plan(cfg, opt, y), t);
  }

  // Over every run of request arrivals and superframes: the deficit stays between minus
  // one burst and max_req_buf_, every VBDC byte received has entered the deficit once or
  // is still waiting, and all bytes are accounted for.
  lemma {:induction false} RunKeepsAccount(cfg: Config, opt: Options, es: seq<Event>, t: nat)
    requires ValidOptions(cfg, opt) && ValidEvents(cfg, es) && t < |cfg.rules| && Run(cfg, opt, es).Some?
    ensures Account(cfg, opt, Run(cfg, opt, es).value, t)
  {
    if es != [] {
      RunKeepsAccount(cfg, opt, es[..|es| - 1], t);
      ReactKeepsAccount(cfg, opt, Run(cfg, opt, es[..|es| - 1]).value, es[|es| - 1], t);
    }
  }
}
