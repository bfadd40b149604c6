// Whose turn it is: the cursor over one phase, and from one superframe to the next.
module Rotation {
  import opened Optional
  import opened Superframe
  import opened Scheduler
  import opened BurstPlan
  import opened WorkConservation
  import opened Superframes

  // The terminal d places after cur, going round.
  function Place(cur: nat, d: nat, n: nat): (t: nat)
    requires 0 < n
    ensures t < n
  {
    (cur + d) % n
  }

  lemma PlaceMoves(cur: nat, d: nat, e: nat, n: nat)
    requires 0 < n
    ensures Place(Place(cur, d, n), e, n) == Place(cur, d + e, n)
  {
    var x := cur + d;
    assert x == x / n * n + x % n;
    ModShift(x % n + e, x / n, n);
  }

  lemma ModShift(r: nat, q: int, n: nat)
    requires 0 < n && 0 <= r + q * n
    ensures (r + q * n) % n == r % n
  {
    var m, d := r % n, r / n + q;
    assert r + q * n == d * n + m;
    ModUnique(r + q * n, d, m, n);
  }

  lemma ModUnique(x: int, d: int, m: nat, n: nat)
    requires 0 < n && m < n && x == d * n + m
    ensures x % n == m
  {
    var k := x / n - d;
    assert n * k == m - x % n;
    if k >= 1 {
      ScaleUp(n, k);
    } else if k <= -1 {
      ScaleUp(n, -k);
    }
  }

  lemma NextIsPlace(cfg: Config, cur: nat)
    requires cur < |cfg.rules|
    ensures Next(cfg, cur) == Place(cur, 1, |cfg.rules|) && Place(cur, 0, |cfg.rules|) == cur
  {
    NextIsModulo(cur, |cfg.rules|);
  }

  // ---------- Seeking ----------

  // From s the cursor has moved on d places, at the cost of as much budget, past
  // terminals that ask for nothing.
  ghost predicate Moved(cfg: Config, s: State, s': State, d: nat)
    requires Shape(cfg, s)
  {
    var n := |cfg.rules|;
    && s' == s.(left := s.left - d, cur := Place(s.cur, d, n))
    && forall i | 0 <= i < d :: s.deficit[Place(s.cur, i, n)] <= 0
  }

  lemma {:induction false} AdvanceMoves(cfg: Config, s: State) returns (d: nat)
    requires Shape(cfg, s) && 1 <= s.left && s.deficit[s.cur] <= 0
    ensures Moved(cfg, s, Advance(cfg, s), d) && 1 <= d
    decreases s.left
  {
    var n := |cfg.rules|;
    var s1 := s.(left := s.left - 1, cur := Next(cfg, s.cur));
    NextIsPlace(cfg, s.cur);
    d := 1;
    if s1.deficit[s1.cur] <= 0 && 0 < s1.left {
      var e := AdvanceMoves(cfg, s1);
      d := e + 1;
      PlaceMoves(s.cur, 1, e, n);
      forall i | 0 <= i < d ensures s.deficit[Place(s.cur, i, n)] <= 0 {
        if i > 0 {
          PlaceMoves(s.cur, 1, i - 1, n);
        }
      }
    }
  }

  // The inner loop moves the cursor to the next terminal that asks, or spends the budget.
  lemma SeekMoves(cfg: Config, s: State) returns (d: nat)
    requires Shape(cfg, s) && 1 <= s.left
    ensures d <= s.left && Moved(cfg, s, Seek(cfg, s), d)
    ensures d < s.left ==> s.deficit[Place(s.cur, d, |cfg.rules|)] > 0
  {
    d := 0;
    NextIsPlace(cfg, s.cur);
    if s.deficit[s.cur] <= 0 {
      d := AdvanceMoves(cfg, s);
    }
  }

  // ---------- Who is served next ----------

  lemma SameQuiet(cfg: Config, s: State, s': State, t: nat)
    requires Shape(cfg, s) && Shape(cfg, s') && t < |cfg.rules| && s' == s.(left := s'.left, cur := s'.cur)
    ensures Quiet(cfg, s', t) <==> Quiet(cfg, s, t)
  {
    if Quiet(cfg, s, t) {
      SameEligible(cfg, s, s', t);
    }
    if Quiet(cfg, s', t) {
      SameEligible(cfg, s', s, t);
    }
  }

  // The next burst goes to the first terminal from the cursor on, going round, that asks
  // and can be served, as long as the budget reaches it.
  lemma {:induction false} NextServed(cfg: Config, s: State, d: nat) returns (k: nat)
    requires Shape(cfg, s) && 0 < s.free && d < s.left && !Quiet(cfg, s, Place(s.cur, d, |cfg.rules|))
    requires forall i | 0 <= i < d :: Quiet(cfg, s, Place(s.cur, i, |cfg.rules|))
    ensures var s' := Steps(cfg, s, k);
            |s'.plan| == |s.plan| + 1 && s.plan < s'.plan && s'.plan[|s.plan|].id == Place(s.cur, d, |cfg.rules|)
    decreases d
  {
    var e := SeekMoves(cfg, s);
    var s1, s2 := Seek(cfg, s), Step(cfg, s);
    SameQuiet(cfg, s, s1, s1.cur);
    NoChoiceIffQuiet(cfg, s1, s1.cur);
    assert Steps(cfg, s, 1) == Steps(cfg, s2, 0);
    k := 1;
    if e < d {
      var d' := d - (e + 1);
      PassOn(cfg, s, s2, e + 1, d');
      k := NextServed(cfg, s2, d');
      k := k + 1;
    }
  }

  // The cursor has moved on by e places without serving anybody.
  lemma PassOn(cfg: Config, s: State, s': State, e: nat, d: nat)
    requires Shape(cfg, s) && Shape(cfg, s') && s' == s.(left := s'.left, cur := s'.cur)
    requires 1 <= e && s'.cur == Next(cfg, Place(s.cur, e - 1, |cfg.rules|))
    requires !Quiet(cfg, s, Place(s.cur, e + d, |cfg.rules|))
    requires forall i | 0 <= i < e + d :: Quiet(cfg, s, Place(s.cur, i, |cfg.rules|))
    ensures Place(s'.cur, d, |cfg.rules|) == Place(s.cur, e + d, |cfg.rules|)
    ensures !Quiet(cfg, s', Place(s'.cur, d, |cfg.rules|))
    ensures forall i | 0 <= i < d :: Quiet(cfg, s', Place(s'.cur, i, |cfg.rules|))
  {
    var n := |cfg.rules|;
    NextIsPlace(cfg, Place(s.cur, e - 1, n));
    PlaceMoves(s.cur, e - 1, 1, n);
    PlaceMoves(s.cur, e, d, n);
    SameQuiet(cfg, s, s', Place(s.cur, e + d, n));
    forall i | 0 <= i < d ensures Quiet(cfg, s', Place(s'.cur, i, n)) {
      PlaceMoves(s.cur, e, i, n);
      SameQuiet(cfg, s, s', Place(s.cur, e + i, n));
    }
  }

  // ---------- One round in CONT mode ----------

  lemma MoveCostsBudget(cfg: Config, s: State)
    requires Shape(cfg, s) && cfg.mode == ContMode && !Done(s)
    ensures Paid(cfg, s, Step(cfg, s))
  {
    var d := SeekMoves(cfg, s);
    var s1 := Seek(cfg, s);
    NextIsPlace(cfg, s1.cur);
    PlaceMoves(s.cur, d, 1, |cfg.rules|);
  }

  // From s to s' the cursor has moved as far as budget was spent.
  ghost predicate Paid(cfg: Config, s: State, s': State)
    requires 0 < |cfg.rules|
  {
    s'.left <= s.left && s'.cur == Place(s.cur, s.left - s'.left, |cfg.rules|)
  }

  lemma MovesAddUp(cfg: Config, s: State, s1: State, s2: State)
    requires 0 < |cfg.rules| && Paid(cfg, s, s1) && Paid(cfg, s1, s2)
    ensures Paid(cfg, s, s2)
  {
    PlaceMoves(s.cur, s.left - s1.left, s1.left - s2.left, |cfg.rules|);
  }

  // In CONT mode every move of the cursor, and nothing else, costs budget: a phase goes
  // round once.
  lemma {:induction false} MovesCostBudget(cfg: Config, s: State, k: nat)
    requires Shape(cfg, s) && cfg.mode == ContMode
    ensures Paid(cfg, s, Steps(cfg, s, k))
    decreases k
  {
    if k == 0 || Done(s) {
      NextIsPlace(cfg, s.cur);
    } else {
      MoveCostsBudget(cfg, s);
      MovesCostBudget(cfg, Step(cfg, s), k - 1);
      MovesAddUp(cfg, s, Step(cfg, s), Steps(cfg, Step(cfg, s), k - 1));
    }
  }

  // ---------- From one superframe to the next ----------

  // Where the cursor stands when the slots have run out: on the terminal served last in
  // CONT mode, on the one after it in SLOT mode.
  ghost predicate AtLast(cfg: Config, s: State)
    requires Shape(cfg, s)
  {
    s.free == 0 && s.plan != [] ==>
      s.cur == (s.plan[|s.plan| - 1].id + if cfg.mode == SlotMode then 1 else 0) % |cfg.rules|
  }

  lemma StepAtLast(cfg: Config, s: State)
    requires Shape(cfg, s) && !Done(s) && 0 <= s.free
    ensures AtLast(cfg, Step(cfg, s))
  {
    var s1 := Seek(cfg, s);
    NextIsPlace(cfg, s1.cur);
  }

  lemma {:induction false} PhaseAtLast(cfg: Config, s: State)
    requires Shape(cfg, s) && 0 <= s.free && LoopEnds(cfg, s) && AtLast(cfg, s)
    ensures AtLast(cfg, Phase(cfg, s))
    decreases s.free, s.left, Distance(cfg, s)
  {
    if !Done(s) {
      StepShrinks(cfg, s);
      StepAtLast(cfg, s);
      PhaseAtLast(cfg, Step(cfg, s));
    }
  }

  // A phase of CONT mode that does not use up the slots comes back to where it began.
  lemma PhaseComesRound(cfg: Config, s: State)
    requires Shape(cfg, s) && 0 <= s.free && cfg.mode == ContMode && s.left == |cfg.rules|
    ensures 0 < Phase(cfg, s).free ==> Phase(cfg, s).cur == s.cur
  {
    var k := PhaseIsSteps(cfg, s);
    MovesCostBudget(cfg, s, k);
    var n := |cfg.rules|;
    ModShift(s.cur, 1, n);
    ModUnique(s.cur, 0, s.cur, n);
    assert s.cur + n == s.cur + 1 * n;
  }

  // Where the cursor is when a phase is over; start is where it was before the
  // superframe.
  ghost predicate Stands(cfg: Config, s: State, start: nat)
    requires Shape(cfg, s)
  {
    AtLast(cfg, s) && (cfg.mode == ContMode && 0 < s.free ==> s.cur == start)
  }

  lemma PhaseStands(cfg: Config, s: State, req: seq<nat>, start: nat)
    requires Inv(cfg, s) && 0 <= s.free && |req| == |cfg.rules| && LoopEnds(cfg, Request(cfg, s, req))
    requires Stands(cfg, s, start)
    ensures Stands(cfg, PhaseFor(cfg, s, req), start)
  {
    PhaseAtLast(cfg, Request(cfg, s, req));
    if cfg.mode == ContMode {
      PhaseComesRound(cfg, Request(cfg, s, req));
    }
  }

  lemma AllocationStands(cfg: Config, opt: Options, y: System)
    requires ValidSystem(cfg, opt, y) && Returns(cfg, opt, y)
    ensures Stands(cfg, Plan(cfg, opt, y), y.cur)
  {
    var s0 := Reset(cfg, y.deficit, y.cur);
    ResetInv(cfg, y.deficit, y.cur);
    PhaseStands(cfg, s0, opt.cra, y.cur);
    var s1 := PhaseFor(cfg, s0, opt.cra);
    PhaseStands(cfg, s1, y.rate, y.cur);
    var s2 := PhaseFor(cfg, s1, y.rate);
    PhaseStands(cfg, s2, y.volume, y.cur);
  }

  // The next superframe begins at the terminal that was being served when the slots ran
  // out, in SLOT mode at the one after it; in CONT mode, if they did not, where this one
  // began.
  lemma NextStart(cfg: Config, opt: Options, y: System)
    requires ValidSystem(cfg, opt, y) && Returns(cfg, opt, y)
    ensures var s, y' := Plan(cfg, opt, y), React(cfg, opt, y, Event.Superframe).value;
            && (s.free == 0 && s.plan != [] ==>
                  y'.cur == (s.plan[|s.plan| - 1].id + if cfg.mode == SlotMode then 1 else 0) % |cfg.rules|)
            && (cfg.mode == ContMode && 0 < s.free ==> y'.cur == y.cur)
  {
    AllocationStands(cfg, opt, y);
  }

  lemma {:induction false} PhaseGoesOn(cfg: Config, s: State, k: nat)
    requires Shape(cfg, s) && 0 <= s.free && LoopEnds(cfg, s)
    ensures Steps(cfg, s, k).plan <= Phase(cfg, s).plan
    decreases k
  {
    if k == 0 || Done(s) {
      PhaseExtends(cfg, s);
    } else {
      StepShrinks(cfg, s);
      PhaseGoesOn(cfg, Step(cfg, s), k - 1);
    }
  }

  // The first burst of a superframe goes to the first terminal from there on, going round,
  // that has a deficit and can be served.
  lemma FirstBurst(cfg: Config, opt: Options, y: System, d: nat)
    requires ValidSystem(cfg, opt, y) && Returns(cfg, opt, y) && 0 < SlotCount(cfg.frames) && d < |cfg.rules|
    requires var s := Request(cfg, Reset(cfg, y.deficit, y.cur), opt.cra);
             !Quiet(cfg, s, Place(y.cur, d, |cfg.rules|)) &&
             forall i | 0 <= i < d :: Quiet(cfg, s, Place(y.cur, i, |cfg.rules|))
    ensures Plan(cfg, opt, y).plan != [] && Plan(cfg, opt, y).plan[0].id == Place(y.cur, d, |cfg.rules|)
  {
    var s := Request(cfg, Reset(cfg, y.deficit, y.cur), opt.cra);
    var k := NextServed(cfg, s, d);
    PhaseGoesOn(cfg, s, k);
    var s1, s2 := KindsInOrder(cfg, y.deficit, y.cur, opt.cra, y.rate, y.volume, y.cur);
    assert Steps(cfg, s, k).plan <= s1.plan <= Plan(cfg, opt, y).plan;
  }

  // In the first superframe of a run that is the first one of all terminals.
  lemma FirstBurstOfRun(cfg: Config, opt: Options, t: nat)
    requires ValidOptions(cfg, opt) && Returns(cfg, opt, Boot(cfg)) && 0 < SlotCount(cfg.frames) && t < |cfg.rules|
    requires var s := Request(cfg, Reset(cfg, seq(|cfg.rules|, i => 0), 0), opt.cra);
             !Quiet(cfg, s, t) && forall i | 0 <= i < t :: Quiet(cfg, s, i)
    ensures var p := Plan(cfg, opt, Boot(cfg)).plan; p != [] && p[0].id == t
  {
    forall i | 0 <= i <= t ensures Place(0, i, |cfg.rules|) == i {
      ModUnique(i, 0, i, |cfg.rules|);
    }
    FirstBurst(cfg, opt, Boot(cfg), t);
  }
}
