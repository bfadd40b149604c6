// The timeslot scheduler as a state machine over values: one step is one turn of the
// outer loop of assign_timeslot, one phase is a run of steps until the loop ends.
module Scheduler {
  import opened Optional
  import opened Superframe

  datatype Mode = SlotMode | ContMode
  datatype Layout = FirstFit | BestFit

  // A SMALL rule applies only while the deficit is at most the threshold.
  datatype Rule = Rule(small: bool, frame: nat)

  // rules has one entry for each active terminal.
  datatype Config = Config(
    frames: seq<FrameDim>, duration: real, rules: seq<seq<Rule>>,
    mode: Mode, layout: Layout, threshold: int)

  // One entry of the burst plan.
  datatype Burst = Burst(id: nat, offset: real, size: nat)

  // cells[k] is the cell plan[k] was given; the plan itself does not carry it.
  datatype State = State(
    deficit: seq<int>, granted: seq<int>, free: int, left: int, cur: nat,
    grid: map<Cell, int>, mask: seq<set<nat>>, plan: seq<Burst>, cells: seq<Cell>)

  ghost predicate ValidConfig(cfg: Config) {
    && ValidFrames(cfg.frames)
    && cfg.duration > 0.0
    && 0 < |cfg.rules|
    && forall t, k | 0 <= t < |cfg.rules| && 0 <= k < |cfg.rules[t]| :: cfg.rules[t][k].frame < |cfg.frames|
  }

  ghost predicate Shape(cfg: Config, s: State) {
    && ValidConfig(cfg)
    && |s.deficit| == |s.granted| == |s.mask| == |cfg.rules|
    && s.cur < |cfg.rules|
    && 0 <= s.left <= |cfg.rules|
    && |s.plan| == |s.cells|
    && AllIn(cfg.frames, s.cells)
  }

  // ---------- Choosing a cell ----------

  // A free cell that a bitmap allows.
  ghost predicate Open(cfg: Config, grid: map<Cell, int>, mask: set<nat>, c: Cell)
    requires ValidConfig(cfg)
  {
    InFrame(cfg.frames, c) && c !in grid && Bits(cfg.frames, c) !! mask
  }

  ghost predicate Eligible(cfg: Config, s: State, t: nat, c: Cell)
    requires ValidConfig(cfg) && t < |s.mask|
  {
    Open(cfg, s.grid, s.mask[t], c)
  }

  // Order in which a layout prefers the cells of one frame: first fit by carrier and
  // then timeslot, best fit by timeslot and then carrier.
  predicate Precedes(layout: Layout, c: Cell, d: Cell) {
    match layout
    case FirstFit => c.i < d.i || (c.i == d.i && c.j <= d.j)
    case BestFit => c.j < d.j || (c.j == d.j && c.i <= d.i)
  }

  // r is the open cell of frame f that the layout prefers, if there is one.
  ghost predicate IsFit(cfg: Config, grid: map<Cell, int>, mask: set<nat>, layout: Layout, f: nat, r: Option<Cell>)
    requires ValidConfig(cfg)
  {
    match r
    case None => forall c: Cell | Open(cfg, grid, mask, c) :: c.f != f
    case Some(c) =>
      && Open(cfg, grid, mask, c) && c.f == f
      && forall d: Cell | Open(cfg, grid, mask, d) && d.f == f :: Precedes(layout, c, d)
  }

  lemma {:induction false} LeastCell(layout: Layout, cs: set<Cell>) returns (c: Cell)
    requires cs != {} && forall a, b | a in cs && b in cs :: a.f == b.f
    ensures c in cs && forall d | d in cs :: Precedes(layout, c, d)
    decreases |cs|
  {
    c :| c in cs;
    if cs != {c} {
      var rest := cs - {c};
      assert cs == rest + {c};
      var e := LeastCell(layout, rest);
      var best := if Precedes(layout, c, e) then c else e;
      forall d | d in cs ensures Precedes(layout, best, d) {
        assert d == c || d in rest;
      }
      c := best;
    }
  }

  lemma FitExists(cfg: Config, grid: map<Cell, int>, mask: set<nat>, layout: Layout, f: nat)
    requires ValidConfig(cfg)
    ensures exists r :: IsFit(cfg, grid, mask, layout, f, r)
  {
    var cs := set c | c in Universe(cfg.frames) && Open(cfg, grid, mask, c) && c.f == f;
    if cs == {} {
      forall c: Cell | Open(cfg, grid, mask, c) ensures c.f != f {
        assert c.f == f ==> c in cs;
      }
      assert IsFit(cfg, grid, mask, layout, f, None);
    } else {
      var c := LeastCell(layout, cs);
      forall d: Cell | Open(cfg, grid, mask, d) && d.f == f ensures Precedes(layout, c, d) {
        assert d in cs;
      }
      assert IsFit(cfg, grid, mask, layout, f, Some(c));
    }
  }

  lemma FitUnique(cfg: Config, grid: map<Cell, int>, mask: set<nat>, layout: Layout, f: nat, a: Option<Cell>,
                  b: Option<Cell>)
    requires ValidConfig(cfg)
    requires IsFit(cfg, grid, mask, layout, f, a) && IsFit(cfg, grid, mask, layout, f, b)
    ensures a == b
  {
    if a.Some? && b.Some? {
      assert Precedes(layout, a.value, b.value) && Precedes(layout, b.value, a.value);
    }
  }

  ghost function Fit(cfg: Config, grid: map<Cell, int>, mask: set<nat>, layout: Layout, f: nat): (r: Option<Cell>)
    requires ValidConfig(cfg)
    ensures IsFit(cfg, grid, mask, layout, f, r)
  {
    FitExists(cfg, grid, mask, layout, f);
    var r :| IsFit(cfg, grid, mask, layout, f, r);
    r
  }

  // A layout finds a cell if and only if some cell of the frame is free and its bits are.
  lemma FitSucceeds(cfg: Config, grid: map<Cell, int>, mask: set<nat>, layout: Layout, f: nat)
    requires ValidConfig(cfg)
    ensures Fit(cfg, grid, mask, layout, f).Some? <==>
            exists c: Cell :: InFrame(cfg.frames, c) && c.f == f && c !in grid && Bits(cfg.frames, c) !! mask
  {
    match Fit(cfg, grid, mask, layout, f)
    case None =>
      forall c: Cell | InFrame(cfg.frames, c) && c !in grid && Bits(cfg.frames, c) !! mask ensures c.f != f {
        assert Open(cfg, grid, mask, c);
      }
    case Some(c) =>
      assert Open(cfg, grid, mask, c) && c.f == f;
  }

  // The two layouts succeed on the same states. Best fit takes the earliest timeslot open
  // anywhere in the frame, on the lowest carrier that has it open; first fit takes the
  // lowest carrier with anything open, at its earliest timeslot.
  lemma LayoutsAgree(cfg: Config, grid: map<Cell, int>, mask: set<nat>, f: nat)
    requires ValidConfig(cfg)
    ensures Fit(cfg, grid, mask, BestFit, f).Some? <==> Fit(cfg, grid, mask, FirstFit, f).Some?
    ensures var b := Fit(cfg, grid, mask, BestFit, f);
            b.Some? ==> forall c: Cell | Open(cfg, grid, mask, c) && c.f == f ::
              b.value.j <= c.j && (c.j == b.value.j ==> b.value.i <= c.i)
    ensures var a := Fit(cfg, grid, mask, FirstFit, f);
            a.Some? ==> forall c: Cell | Open(cfg, grid, mask, c) && c.f == f ::
              a.value.i <= c.i && (c.i == a.value.i ==> a.value.j <= c.j)
  {
    var b, a := Fit(cfg, grid, mask, BestFit, f), Fit(cfg, grid, mask, FirstFit, f);
    if b.Some? {
      assert Open(cfg, grid, mask, b.value);
    }
    if a.Some? {
      assert Open(cfg, grid, mask, a.value);
    }
    forall c: Cell | Open(cfg, grid, mask, c) && c.f == f
      ensures b.Some? ==> Precedes(BestFit, b.value, c)
      ensures a.Some? ==> Precedes(FirstFit, a.value, c)
    {
    }
  }

  predicate Applies(cfg: Config, rule: Rule, deficit: int) {
    !rule.small || deficit <= cfg.threshold
  }

  // Terminal t has a rule that applies at deficit d.
  ghost predicate HasRule(cfg: Config, t: nat, d: int)
    requires t < |cfg.rules|
  {
    exists k :: 0 <= k < |cfg.rules[t]| && Applies(cfg, cfg.rules[t][k], d)
  }

  // Every terminal that asks has a rule that applies.
  ghost predicate EveryoneHasRule(cfg: Config, deficit: seq<int>)
    requires |deficit| == |cfg.rules|
  {
    forall t | 0 <= t < |cfg.rules| && deficit[t] > 0 :: HasRule(cfg, t, deficit[t])
  }

  // The cell given by the first applicable rule of terminal t, from rule k on, whose
  // frame has one; d is its deficit.
  ghost function TryRules(cfg: Config, grid: map<Cell, int>, mask: set<nat>, d: int, t: nat, k: nat): (r: Option<Cell>)
    requires ValidConfig(cfg) && t < |cfg.rules| && k <= |cfg.rules[t]|
    ensures r.Some? ==> Open(cfg, grid, mask, r.value)
    decreases |cfg.rules[t]| - k
  {
    if k == |cfg.rules[t]| then None
    else
      var rule := cfg.rules[t][k];
      if !Applies(cfg, rule, d) then TryRules(cfg, grid, mask, d, t, k + 1)
      else
        match Fit(cfg, grid, mask, cfg.layout, rule.frame)
        case Some(c) => Some(c)
        case None => TryRules(cfg, grid, mask, d, t, k + 1)
  }

  lemma {:induction false} TryRulesFails(cfg: Config, grid: map<Cell, int>, mask: set<nat>, d: int, t: nat, k: nat)
    requires ValidConfig(cfg) && t < |cfg.rules| && k <= |cfg.rules[t]|
    ensures TryRules(cfg, grid, mask, d, t, k) == None <==>
            forall m | k <= m < |cfg.rules[t]| && Applies(cfg, cfg.rules[t][m], d) ::
              Fit(cfg, grid, mask, cfg.layout, cfg.rules[t][m].frame) == None
    decreases |cfg.rules[t]| - k
  {
    if k < |cfg.rules[t]| {
      TryRulesFails(cfg, grid, mask, d, t, k + 1);
    }
  }

  // The cell given is that of the first applicable rule, in the order the rules were
  // made, whose frame has one.
  lemma {:induction false} EarlierRulesFirst(cfg: Config, grid: map<Cell, int>, mask: set<nat>, d: int, t: nat,
                                             k: nat) returns (m: nat)
    requires ValidConfig(cfg) && t < |cfg.rules| && k <= |cfg.rules[t]|
    requires TryRules(cfg, grid, mask, d, t, k).Some?
    ensures k <= m < |cfg.rules[t]| && Applies(cfg, cfg.rules[t][m], d)
    ensures IsFit(cfg, grid, mask, cfg.layout, cfg.rules[t][m].frame, TryRules(cfg, grid, mask, d, t, k))
    ensures forall l, c: Cell | k <= l < m && Applies(cfg, cfg.rules[t][l], d) && Open(cfg, grid, mask, c) ::
              c.f != cfg.rules[t][l].frame
    decreases |cfg.rules[t]| - k
  {
    m := k;
    var rule := cfg.rules[t][k];
    if !Applies(cfg, rule, d) || Fit(cfg, grid, mask, cfg.layout, rule.frame).None? {
      m := EarlierRulesFirst(cfg, grid, mask, d, t, k + 1);
    }
  }

  // What terminal t would be given now.
  ghost function Choice(cfg: Config, s: State, t: nat): (r: Option<Cell>)
    requires Shape(cfg, s) && t < |cfg.rules|
    ensures r.Some? ==> Eligible(cfg, s, t, r.value)
  {
    TryRules(cfg, s.grid, s.mask[t], s.deficit[t], t, 0)
  }

  // Cell c is one that rule k of terminal t allows it now; a SMALL rule does for deficits
  // up to the threshold.
  ghost predicate Allows(cfg: Config, s: State, t: nat, k: nat, c: Cell)
    requires Shape(cfg, s) && t < |cfg.rules| && k < |cfg.rules[t]|
  {
    var rule := cfg.rules[t][k];
    Eligible(cfg, s, t, c) && c.f == rule.frame && (rule.small ==> s.deficit[t] <= cfg.threshold)
  }

  // A terminal is given a cell exactly when a rule allows it one.
  lemma ChoiceIff(cfg: Config, s: State, t: nat)
    requires Shape(cfg, s) && t < |cfg.rules|
    ensures Choice(cfg, s, t).Some? <==> exists k, c: Cell :: 0 <= k < |cfg.rules[t]| && Allows(cfg, s, t, k, c)
  {
    TryRulesFails(cfg, s.grid, s.mask[t], s.deficit[t], t, 0);
    if Choice(cfg, s, t).Some? {
      var k := EarlierRulesFirst(cfg, s.grid, s.mask[t], s.deficit[t], t, 0);
      assert Allows(cfg, s, t, k, Choice(cfg, s, t).value);
    }
    if k, c: Cell :| 0 <= k < |cfg.rules[t]| && Allows(cfg, s, t, k, c) {
      assert Applies(cfg, cfg.rules[t][k], s.deficit[t]) && Open(cfg, s.grid, s.mask[t], c);
      FitSucceeds(cfg, s.grid, s.mask[t], cfg.layout, c.f);
    }
  }

  // ---------- Steps ----------

  // The next terminal in cyclic order.
  function Next(cfg: Config, cur: nat): nat
    requires cur < |cfg.rules|
  {
    if cur + 1 == |cfg.rules| then 0 else cur + 1
  }

  lemma NextIsModulo(cur: nat, n: nat)
    requires cur < n
    ensures (cur + 1) % n == if cur + 1 == n then 0 else cur + 1
  {
  }

  ghost function Place(cfg: Config, s: State, t: nat, c: Cell): State
    requires Shape(cfg, s) && t < |cfg.rules| && InFrame(cfg.frames, c)
  {
    var burst := cfg.frames[c.f].burst;
    s.(deficit := s.deficit[t := s.deficit[t] - burst],
       granted := s.granted[t := s.granted[t] + burst],
       free := s.free - 1,
       grid := s.grid[c := t],
       mask := s.mask[t := s.mask[t] + Bits(cfg.frames, c)],
       plan := s.plan + [Burst(t, Start(cfg.frames, cfg.duration, c), burst)],
       cells := s.cells + [c])
  }

  // The inner do-while: walk on until a terminal with a positive deficit is met or the
  // budget is spent.
  ghost function Advance(cfg: Config, s: State): (s': State)
    requires Shape(cfg, s) && 1 <= s.left
    ensures Shape(cfg, s')
    ensures s' == s.(left := s'.left, cur := s'.cur) && s'.left < s.left
    ensures 0 < s'.left ==> s.deficit[s'.cur] > 0
    decreases s.left
  {
    var s1 := s.(left := s.left - 1, cur := Next(cfg, s.cur));
    if s1.deficit[s1.cur] <= 0 && 0 < s1.left then Advance(cfg, s1) else s1
  }

  ghost function Seek(cfg: Config, s: State): (s': State)
    requires Shape(cfg, s) && 1 <= s.left
    ensures Shape(cfg, s')
    ensures s' == s.(left := s'.left, cur := s'.cur) && s'.left <= s.left
    ensures 0 < s'.left ==> s.deficit[s'.cur] > 0
  {
    if s.deficit[s.cur] <= 0 then Advance(cfg, s) else s
  }

  // What happens at the terminal the cursor has found.
  ghost function Serve(cfg: Config, s: State): (s': State)
    requires Shape(cfg, s) && 1 <= s.left
    ensures Shape(cfg, s')
  {
    match Choice(cfg, s, s.cur)
    case Some(c) =>
      var p := Place(cfg, s, s.cur, c);
      if cfg.mode == SlotMode then p.(left := |cfg.rules|, cur := Next(cfg, s.cur)) else p
    case None =>
      s.(left := if cfg.mode == ContMode then s.left - 1 else s.left, cur := Next(cfg, s.cur))
  }

  ghost function Step(cfg: Config, s: State): (s': State)
    requires Shape(cfg, s) && 1 <= s.left
    ensures Shape(cfg, s')
  {
    var s1 := Seek(cfg, s);
    if s1.left == 0 then s1 else Serve(cfg, s1)
  }

  predicate Done(s: State) {
    s.free == 0 || s.left == 0
  }

  // k steps of the loop, or fewer if it ends sooner.
  ghost function Steps(cfg: Config, s: State, k: nat): (s': State)
    requires Shape(cfg, s)
    ensures Shape(cfg, s')
    decreases k
  {
    if k == 0 || Done(s) then s else Steps(cfg, Step(cfg, s), k - 1)
  }

  // ---------- Termination ----------

  // Terminal t asks for nothing, or no frame named by one of its applicable rules has a
  // free cell its bitmap allows.
  ghost predicate Quiet(cfg: Config, s: State, t: nat)
    requires Shape(cfg, s) && t < |cfg.rules|
  {
    s.deficit[t] > 0 ==>
      forall m, c: Cell | 0 <= m < |cfg.rules[t]| && Applies(cfg, cfg.rules[t][m], s.deficit[t]) &&
             Eligible(cfg, s, t, c) ::
        c.f != cfg.rules[t][m].frame
  }

  lemma NoChoiceIffQuiet(cfg: Config, s: State, t: nat)
    requires Shape(cfg, s) && t < |cfg.rules| && s.deficit[t] > 0
    ensures Choice(cfg, s, t) == None <==> Quiet(cfg, s, t)
  {
    TryRulesFails(cfg, s.grid, s.mask[t], s.deficit[t], t, 0);
    if Quiet(cfg, s, t) {
      forall m | 0 <= m < |cfg.rules[t]| && Applies(cfg, cfg.rules[t][m], s.deficit[t])
        ensures Fit(cfg, s.grid, s.mask[t], cfg.layout, cfg.rules[t][m].frame) == None
      {
        match Fit(cfg, s.grid, s.mask[t], cfg.layout, cfg.rules[t][m].frame)
        case None =>
        case Some(c) => assert Eligible(cfg, s, t, c);
      }
    }
    if Choice(cfg, s, t) == None {
      forall m, c: Cell | 0 <= m < |cfg.rules[t]| && Applies(cfg, cfg.rules[t][m], s.deficit[t]) &&
             Eligible(cfg, s, t, c)
        ensures c.f != cfg.rules[t][m].frame
      {
        assert IsFit(cfg, s.grid, s.mask[t], cfg.layout, cfg.rules[t][m].frame, None);
      }
    }
  }

  lemma SameEligible(cfg: Config, s: State, s': State, t: nat)
    requires Shape(cfg, s) && Shape(cfg, s') && t < |cfg.rules|
    requires s'.grid.Keys >= s.grid.Keys && s'.mask[t] == s.mask[t] && s'.deficit[t] == s.deficit[t]
    requires Quiet(cfg, s, t)
    ensures Quiet(cfg, s', t)
  {
    forall c: Cell | Eligible(cfg, s', t, c) ensures Eligible(cfg, s, t, c) {
    }
  }

  // Every terminal asks and none can be served: SLOT mode then walks round for ever,
  // because a failed attempt costs no budget.
  ghost predicate Stuck(cfg: Config, s: State)
    requires Shape(cfg, s)
  {
    !Done(s) && forall t | 0 <= t < |cfg.rules| :: s.deficit[t] > 0 && Quiet(cfg, s, t)
  }

  ghost predicate StuckAfter(cfg: Config, s: State, k: nat)
    requires Shape(cfg, s)
  {
    Stuck(cfg, Steps(cfg, s, k))
  }

  ghost predicate NeverStuck(cfg: Config, s: State)
    requires Shape(cfg, s)
  {
    forall k: nat :: !StuckAfter(cfg, s, k)
  }

  // The loop ends: in CONT mode always, in SLOT mode unless it gets stuck.
  ghost predicate LoopEnds(cfg: Config, s: State)
    requires Shape(cfg, s)
  {
    cfg.mode == ContMode || NeverStuck(cfg, s)
  }

  // How far the cursor walks to reach h.
  function Ahead(cur: nat, h: nat, n: nat): nat
    requires cur < n && h < n
  {
    if cur <= h then h - cur else h + n - cur
  }

  // Terminals at which the loop makes progress: one that asks for nothing costs budget,
  // one that can be served uses a slot.
  ghost function Targets(cfg: Config, s: State): (ts: set<nat>)
    requires Shape(cfg, s)
    ensures forall t | t in ts :: t < |cfg.rules|
  {
    set t: nat | t < |cfg.rules| && (s.deficit[t] <= 0 || !Quiet(cfg, s, t))
  }

  ghost function Pick(ts: set<nat>): (t: nat)
    requires ts != {}
    ensures t in ts
  {
    var t :| t in ts;
    t
  }

  ghost function Distance(cfg: Config, s: State): nat
    requires Shape(cfg, s)
  {
    if cfg.mode == ContMode || Targets(cfg, s) == {} then 0
    else Ahead(s.cur, Pick(Targets(cfg, s)), |cfg.rules|)
  }

  // The termination measure of the loop, a triple in lexicographic order.
  ghost predicate Smaller(cfg: Config, a: State, b: State)
    requires Shape(cfg, a) && Shape(cfg, b)
  {
    || a.free < b.free
    || (a.free == b.free && a.left < b.left)
    || (a.free == b.free && a.left == b.left && Distance(cfg, a) < Distance(cfg, b))
  }

  // Moving the cursor changes nobody's prospects.
  lemma SameTargets(cfg: Config, s: State, s': State)
    requires Shape(cfg, s) && Shape(cfg, s') && s' == s.(left := s'.left, cur := s'.cur)
    ensures Targets(cfg, s') == Targets(cfg, s)
  {
    forall t: nat | t < |cfg.rules| ensures Quiet(cfg, s', t) <==> Quiet(cfg, s, t) {
      if Quiet(cfg, s, t) {
        SameEligible(cfg, s, s', t);
      }
      if Quiet(cfg, s', t) {
        SameEligible(cfg, s', s, t);
      }
    }
  }

  lemma FailedMoveIsCloser(cfg: Config, s: State, s': State)
    requires Shape(cfg, s) && Shape(cfg, s') && s' == s.(cur := Next(cfg, s.cur)) && cfg.mode == SlotMode
    requires Targets(cfg, s) != {} && s.cur !in Targets(cfg, s)
    ensures Distance(cfg, s') < Distance(cfg, s)
  {
    SameTargets(cfg, s, s');
    assert Pick(Targets(cfg, s)) != s.cur;
  }

  lemma ServeShrinks(cfg: Config, s: State)
    requires Shape(cfg, s) && 1 <= s.left && s.deficit[s.cur] > 0 && (cfg.mode == SlotMode ==> Targets(cfg, s) != {})
    ensures Smaller(cfg, Serve(cfg, s), s)
  {
    NoChoiceIffQuiet(cfg, s, s.cur);
    if Choice(cfg, s, s.cur) == None && cfg.mode == SlotMode {
      FailedMoveIsCloser(cfg, s, Serve(cfg, s));
    }
  }

  // A step uses at most one slot and raises no deficit.
  lemma StepLowers(cfg: Config, s: State)
    requires Shape(cfg, s) && !Done(s)
    ensures s.free - 1 <= Step(cfg, s).free <= s.free
    ensures forall t | 0 <= t < |s.deficit| :: Step(cfg, s).deficit[t] <= s.deficit[t]
  {
  }

  lemma NotStuckHasTarget(cfg: Config, s: State)
    requires Shape(cfg, s) && !Done(s) && !Stuck(cfg, s)
    ensures Targets(cfg, s) != {}
  {
    var t: nat :| t < |cfg.rules| && !(s.deficit[t] > 0 && Quiet(cfg, s, t));
    assert t in Targets(cfg, s);
  }

  lemma NextNeverStuck(cfg: Config, s: State)
    requires Shape(cfg, s) && !Done(s) && LoopEnds(cfg, s)
    ensures LoopEnds(cfg, Step(cfg, s))
  {
    if cfg.mode == SlotMode {
      forall k: nat ensures !StuckAfter(cfg, Step(cfg, s), k) {
        assert !StuckAfter(cfg, s, k + 1);
      }
    }
  }

  lemma StepShrinks(cfg: Config, s: State)
    requires Shape(cfg, s) && !Done(s) && LoopEnds(cfg, s)
    ensures Smaller(cfg, Step(cfg, s), s) && LoopEnds(cfg, Step(cfg, s))
    ensures s.free - 1 <= Step(cfg, s).free <= s.free
    ensures forall t | 0 <= t < |s.deficit| :: Step(cfg, s).deficit[t] <= s.deficit[t]
  {
    StepLowers(cfg, s);
    NextNeverStuck(cfg, s);
    if s.deficit[s.cur] > 0 {
      if cfg.mode == SlotMode {
        assert !StuckAfter(cfg, s, 0);
        NotStuckHasTarget(cfg, s);
      }
      ServeShrinks(cfg, s);
    }
  }

  lemma {:induction false} StepsLower(cfg: Config, s: State, k: nat)
    requires Shape(cfg, s)
    ensures forall t | 0 <= t < |cfg.rules| :: Steps(cfg, s, k).deficit[t] <= s.deficit[t]
    decreases k
  {
    if 0 < k && !Done(s) {
      StepLowers(cfg, s);
      StepsLower(cfg, Step(cfg, s), k - 1);
    }
  }

  // Rules that apply go on applying, because deficits only fall.
  lemma RulesLast(cfg: Config, d: seq<int>, d': seq<int>)
    requires |d| == |d'| == |cfg.rules| && EveryoneHasRule(cfg, d)
    requires forall t | 0 <= t < |d| :: d'[t] <= d[t]
    ensures EveryoneHasRule(cfg, d')
  {
    forall t | 0 <= t < |cfg.rules| && d'[t] > 0 ensures HasRule(cfg, t, d'[t]) {
      var k :| 0 <= k < |cfg.rules[t]| && Applies(cfg, cfg.rules[t][k], d[t]);
      assert Applies(cfg, cfg.rules[t][k], d'[t]);
    }
  }

  // A terminal that asks for nothing, like the hub, is enough for the loop to end.
  lemma IdleNeverStuck(cfg: Config, s: State, t: nat)
    requires Shape(cfg, s) && t < |cfg.rules| && s.deficit[t] <= 0
    ensures NeverStuck(cfg, s)
  {
    forall k: nat ensures !StuckAfter(cfg, s, k) {
      StepsLower(cfg, s, k);
    }
  }

  // One phase of assign_timeslot.
  ghost function Phase(cfg: Config, s: State): (s': State)
    requires Shape(cfg, s) && 0 <= s.free && LoopEnds(cfg, s)
    ensures Shape(cfg, s') && Done(s') && 0 <= s'.free <= s.free
    ensures forall t | 0 <= t < |s.deficit| :: s'.deficit[t] <= s.deficit[t]
    decreases s.free, s.left, Distance(cfg, s)
  {
    if Done(s) then s
    else
      StepShrinks(cfg, s);
      Phase(cfg, Step(cfg, s))
  }
}
