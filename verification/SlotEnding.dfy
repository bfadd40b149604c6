// When the loop of SLOT mode ends. A failed attempt costs no budget there, so it walks
// round for ever once every terminal asks and none can be served.
module SlotEnding {
  import opened Superframe
  import opened Scheduler
  import opened BurstPlan
  import opened WorkConservation
  import opened Superframes

  lemma StuckStep(cfg: Config, s: State)
    requires Shape(cfg, s) && cfg.mode == SlotMode && Stuck(cfg, s)
    ensures Stuck(cfg, Step(cfg, s))
  {
    NoChoiceIffQuiet(cfg, s, s.cur);
    var s' := Step(cfg, s);
    forall t | 0 <= t < |cfg.rules| ensures s'.deficit[t] > 0 && Quiet(cfg, s', t) {
      SameEligible(cfg, s, s', t);
    }
  }

  lemma {:induction false} StuckForGood(cfg: Config, s: State, k: nat)
    requires Shape(cfg, s) && cfg.mode == SlotMode && Stuck(cfg, s)
    ensures Stuck(cfg, Steps(cfg, s, k))
    decreases k
  {
    if 0 < k {
      StuckStep(cfg, s);
      StuckForGood(cfg, Step(cfg, s), k - 1);
    }
  }

  ghost predicate EndedAfter(cfg: Config, s: State, k: nat)
    requires Shape(cfg, s)
  {
    Done(Steps(cfg, s, k))
  }

  lemma {:induction false} NotEndedIfStuck(cfg: Config, s: State, j: nat, k: nat)
    requires Shape(cfg, s) && cfg.mode == SlotMode && StuckAfter(cfg, s, j)
    ensures !EndedAfter(cfg, s, k)
    decreases k
  {
    if j == 0 {
      StuckForGood(cfg, s, k);
    } else if 0 < k && !Done(s) {
      NotEndedIfStuck(cfg, Step(cfg, s), j - 1, k - 1);
    }
  }

  // The loop ends exactly when it never reaches a state in which every terminal asks and
  // none can be served.
  lemma SlotModeEndsIffNeverStuck(cfg: Config, s: State)
    requires Shape(cfg, s) && cfg.mode == SlotMode && 0 <= s.free
    ensures (exists k: nat :: EndedAfter(cfg, s, k)) <==> NeverStuck(cfg, s)
  {
    if NeverStuck(cfg, s) {
      var k := PhaseIsSteps(cfg, s);
      assert EndedAfter(cfg, s, k);
    } else {
      var j: nat :| StuckAfter(cfg, s, j);
      forall k: nat ensures !EndedAfter(cfg, s, k) {
        NotEndedIfStuck(cfg, s, j, k);
      }
    }
  }

  // What a caller can see beforehand: with one terminal that asks for nothing, like the
  // hub, the loop ends.
  lemma IdleTerminalEndsLoop(cfg: Config, s: State, t: nat) returns (k: nat)
    requires Shape(cfg, s) && 0 <= s.free && t < |cfg.rules| && s.deficit[t] <= 0
    ensures EndedAfter(cfg, s, k)
  {
    IdleNeverStuck(cfg, s, t);
    k := PhaseIsSteps(cfg, s);
  }

  // ---------- A bound ----------

  lemma OneStepFirst(cfg: Config, s: State, k: nat)
    requires Shape(cfg, s) && 0 < k && !Done(s)
    ensures Steps(cfg, s, k) == Steps(cfg, Step(cfg, s), k - 1)
  {
  }

  lemma {:induction false} StuckStays(cfg: Config, s: State, j: nat, k: nat)
    requires Shape(cfg, s) && cfg.mode == SlotMode && StuckAfter(cfg, s, j) && j <= k
    ensures StuckAfter(cfg, s, k)
    decreases j
  {
    if j == 0 {
      StuckForGood(cfg, s, k);
    } else {
      NotDoneIfStuck(cfg, s, j);
      OneStepFirst(cfg, s, j);
      StuckStays(cfg, Step(cfg, s), j - 1, k - 1);
      OneStepFirst(cfg, s, k);
    }
  }

  // Steps from s to the first grant, if t can be served, and then a round for each slot.
  function Bound(free: int, ahead: nat, n: nat): int {
    (free - 1) * n + ahead + 1
  }

  lemma BoundShrinks(free: int, a: nat, b: nat, n: nat)
    requires 1 <= free && b < n
    ensures Bound(free - 1, b, n) + 1 <= Bound(free, a, n) && (a > 0 ==> Bound(free, a - 1, n) + 1 == Bound(free, a, n))
  {
    assert (free - 1) * n == (free - 2) * n + n;
  }

  // The loop is stuck, or t is a terminal at which it makes progress.
  ghost predicate Aiming(cfg: Config, s: State, t: nat) {
    Shape(cfg, s) && cfg.mode == SlotMode && 1 <= s.free && t < |cfg.rules| && (Stuck(cfg, s) || t in Targets(cfg, s))
  }

  ghost function Goal(cfg: Config, s: State, t: nat): int
    requires Shape(cfg, s) && t < |cfg.rules|
  {
    Bound(s.free, Ahead(s.cur, t, |cfg.rules|), |cfg.rules|)
  }

  // A loop that gets stuck at all is stuck within a round for each free slot.
  lemma {:induction false} StuckWithin(cfg: Config, s: State, t: nat, j: nat) returns (k: nat)
    requires Aiming(cfg, s, t) && StuckAfter(cfg, s, j)
    ensures k == Goal(cfg, s, t) && StuckAfter(cfg, s, k)
    decreases j
  {
    BoundIsNat(s.free, Ahead(s.cur, t, |cfg.rules|), |cfg.rules|);
    k := Goal(cfg, s, t);
    if Stuck(cfg, s) {
      StuckStays(cfg, s, 0, k);
    } else {
      var t' := Closer(cfg, s, t, j);
      var k' := StuckWithin(cfg, Step(cfg, s), t', j - 1);
      StuckOneStepOn(cfg, s, k', k);
    }
  }

  lemma Closer(cfg: Config, s: State, t: nat, j: nat) returns (t': nat)
    requires Aiming(cfg, s, t) && StuckAfter(cfg, s, j) && !Stuck(cfg, s)
    ensures 0 < j && !Done(s) && Aiming(cfg, Step(cfg, s), t') && StuckAfter(cfg, Step(cfg, s), j - 1)
    ensures Goal(cfg, Step(cfg, s), t') < Goal(cfg, s, t)
  {
    var s' := Asking(cfg, s, j);
    t' := NextTarget(cfg, s, s', t, j - 1);
    NextBound(cfg, s, s', t, t');
  }

  lemma StuckOneStepOn(cfg: Config, s: State, k': nat, k: nat)
    requires Shape(cfg, s) && cfg.mode == SlotMode && !Done(s) && StuckAfter(cfg, Step(cfg, s), k') && k' < k
    ensures StuckAfter(cfg, s, k)
  {
    StuckStays(cfg, Step(cfg, s), k', k - 1);
    OneStepFirst(cfg, s, k);
  }

  lemma NextBound(cfg: Config, s: State, s': State, t: nat, t': nat)
    requires Shape(cfg, s) && Shape(cfg, s') && t < |cfg.rules| && t' < |cfg.rules| && 1 <= s.free
    requires s'.free == s.free - 1 || (s'.free == s.free && s'.cur == Next(cfg, s.cur) && t' == t != s.cur)
    ensures var n := |cfg.rules|; Bound(s'.free, Ahead(s'.cur, t', n), n) < Bound(s.free, Ahead(s.cur, t, n), n)
  {
    BoundShrinks(s.free, Ahead(s.cur, t, |cfg.rules|), Ahead(s'.cur, t', |cfg.rules|), |cfg.rules|);
  }

  lemma BoundIsNat(free: int, a: nat, n: nat)
    requires 1 <= free
    ensures 1 <= Bound(free, a, n)
  {
    assert 0 <= (free - 1) * n;
  }

  // On the way to being stuck every terminal asks, slots are left, and a step either
  // grants one burst or only moves the cursor off a terminal that cannot be served.
  lemma Asking(cfg: Config, s: State, j: nat) returns (s': State)
    requires Shape(cfg, s) && cfg.mode == SlotMode && StuckAfter(cfg, s, j) && !Stuck(cfg, s)
    ensures 0 < j && !Done(s) && s' == Step(cfg, s) && Shape(cfg, s') && StuckAfter(cfg, s', j - 1)
    ensures forall t | 0 <= t < |cfg.rules| :: s.deficit[t] > 0
    ensures if Quiet(cfg, s, s.cur) then s' == s.(cur := Next(cfg, s.cur)) else s'.free == s.free - 1
  {
    StepsLower(cfg, s, j);
    NoChoiceIffQuiet(cfg, s, s.cur);
    s' := Step(cfg, s);
  }

  lemma NextTarget(cfg: Config, s: State, s': State, t: nat, j: nat) returns (t': nat)
    requires Shape(cfg, s) && Shape(cfg, s') && cfg.mode == SlotMode && t < |cfg.rules| && t in Targets(cfg, s)
    requires StuckAfter(cfg, s', j) && 1 <= s.free
    requires forall u | 0 <= u < |cfg.rules| :: s.deficit[u] > 0
    requires if Quiet(cfg, s, s.cur) then s' == s.(cur := Next(cfg, s.cur)) else s'.free == s.free - 1
    ensures t' < |cfg.rules| && 1 <= s'.free && (Stuck(cfg, s') || t' in Targets(cfg, s'))
    ensures s'.free == s.free - 1 || (s'.free == s.free && s'.cur == Next(cfg, s.cur) && t' == t != s.cur)
  {
    t' := t;
    NotDoneIfStuck(cfg, s', j);
    if Quiet(cfg, s, s.cur) {
      SameTargets(cfg, s, s');
    } else if !Stuck(cfg, s') {
      NotStuckHasTarget(cfg, s');
      t' := Pick(Targets(cfg, s'));
    }
  }

  lemma NotDoneIfStuck(cfg: Config, s: State, j: nat)
    requires Shape(cfg, s) && StuckAfter(cfg, s, j)
    ensures !Done(s)
  {
  }

  // So whether the loop ends can be told by following it for one round for each free
  // slot.
  lemma StuckSoonOrNever(cfg: Config, s: State)
    requires Shape(cfg, s) && cfg.mode == SlotMode && 0 <= s.free
    ensures 0 <= s.free * |cfg.rules|
    ensures NeverStuck(cfg, s) <==> !StuckAfter(cfg, s, s.free * |cfg.rules|)
  {
    assert 0 <= s.free * |cfg.rules|;
    if j: nat :| StuckAfter(cfg, s, j) {
      NotDoneIfStuck(cfg, s, j);
      StuckSoon(cfg, s, j);
    }
  }

  lemma StuckSoon(cfg: Config, s: State, j: nat)
    requires Shape(cfg, s) && cfg.mode == SlotMode && 0 <= s.free && !Done(s) && StuckAfter(cfg, s, j)
    ensures 0 <= s.free * |cfg.rules| && StuckAfter(cfg, s, s.free * |cfg.rules|)
  {
    var n := |cfg.rules|;
    var t := s.cur;
    if !Stuck(cfg, s) {
      NotStuckHasTarget(cfg, s);
      t := Pick(Targets(cfg, s));
    }
    var k := StuckWithin(cfg, s, t, j);
    assert (s.free - 1) * n + n == s.free * n;
    StuckStays(cfg, s, k, s.free * n);
  }

  // ---------- A loop that never ends ----------

  // One terminal and no hub, two carriers of one timeslot each.
  ghost function Lone(): Config {
    Config([FrameDim(2, 1, 10)], 1.0, [[Rule(false, 0)]], SlotMode, Layout.FirstFit, 0)
  }

  lemma LoneGeometry()
    ensures var fs := Lone().frames;
            && ValidConfig(Lone()) && MaskSize(fs) == 1 && SlotCount(fs) == 2
            && forall c: Cell | InFrame(fs, c) :: c.f == 0 && Bits(fs, c) == {0}
  {
    var fs := Lone().frames;
    assert fs[..0] == [];
    forall c: Cell | InFrame(fs, c) ensures Bits(fs, c) == {0} {
      assert Width(fs, 0) == 1 && c.j == 0;
      assert InRange(0, 1, 0);
    }
  }

  // After its first burst the terminal still asks, and the free carrier is at the time
  // it already transmits.
  lemma LoneGetsStuck(s: State)
    requires ValidConfig(Lone()) && s == Request(Lone(), Reset(Lone(), [0], 0), [100])
    ensures Stuck(Lone(), Step(Lone(), s))
  {
    var cfg := Lone();
    LoneGeometry();
    assert Eligible(cfg, s, 0, Cell(0, 0, 0)) && Applies(cfg, cfg.rules[0][0], 100);
    NoChoiceIffQuiet(cfg, s, 0);
    var c := Choice(cfg, s, 0).value;
    var s' := Step(cfg, s);
    assert s'.mask[0] == {} + Bits(cfg.frames, c) && s'.deficit == [90] && s'.free == 1 && s'.left == 1;
  }

  // SLOT mode without a hub can go on for ever, from the start of a superframe.
  lemma LoopCanHang()
    ensures ValidConfig(Lone())
    ensures var s := Request(Lone(), Reset(Lone(), [0], 0), [100]);
            Inv(Lone(), s) && StuckAfter(Lone(), s, 1) && forall k: nat :: !EndedAfter(Lone(), s, k)
  {
    LoneGeometry();
    var s := Request(Lone(), Reset(Lone(), [0], 0), [100]);
    ResetInv(Lone(), [0], 0);
    RequestKeeps(Lone(), Reset(Lone(), [0], 0), [100]);
    LoneGetsStuck(s);
    assert StuckAfter(Lone(), s, 1);
    forall k: nat ensures !EndedAfter(Lone(), s, k) {
      NotEndedIfStuck(Lone(), s, 1, k);
    }
  }
}
