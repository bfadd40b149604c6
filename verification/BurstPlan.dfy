// What every step of the scheduler keeps: the plan, the grid, the bitmaps and the
// per-terminal ledgers all tell the same story.
module BurstPlan {
  import opened Superframe
  import opened Scheduler

  // Bytes the plan gives to terminal t.
  ghost function PlanBytes(plan: seq<Burst>, t: int): nat {
    if plan == [] then 0
    else
      var b := plan[|plan| - 1];
      PlanBytes(plan[..|plan| - 1], t) + if b.id == t then b.size else 0
  }

  // Union of the bit ranges of the cells given to terminal t.
  ghost function Occupied(cfg: Config, plan: seq<Burst>, cells: seq<Cell>, t: int): set<nat>
    requires ValidConfig(cfg) && |plan| == |cells| && AllIn(cfg.frames, cells)
  {
    if plan == [] then {}
    else
      var n := |plan| - 1;
      Occupied(cfg, plan[..n], cells[..n], t) + if plan[n].id == t then Bits(cfg.frames, cells[n]) else {}
  }

  // Entry k of the plan describes cell k: its owner, start time and burst size.
  ghost predicate Describes(cfg: Config, s: State, k: nat)
    requires Shape(cfg, s) && k < |s.plan|
  {
    var c := s.cells[k];
    && c in s.grid
    && s.plan[k] == Burst(s.plan[k].id, Start(cfg.frames, cfg.duration, c), cfg.frames[c.f].burst)
    && s.grid[c] == s.plan[k].id < |cfg.rules|
  }

  ghost predicate Separate(cfg: Config, s: State, k: nat, l: nat)
    requires Shape(cfg, s) && k < |s.plan| && l < |s.plan|
  {
    s.plan[k].id == s.plan[l].id ==> Bits(cfg.frames, s.cells[k]) !! Bits(cfg.frames, s.cells[l])
  }

  // Plan entries and occupied cells correspond one to one.
  ghost predicate PlanIsGrid(cfg: Config, s: State)
    requires Shape(cfg, s)
  {
    && NoDup(s.cells)
    && (forall c: Cell :: c in s.grid <==> c in s.cells)
    && forall k | 0 <= k < |s.plan| :: Describes(cfg, s, k)
  }

  ghost predicate Inv(cfg: Config, s: State) {
    && Shape(cfg, s)
    && PlanIsGrid(cfg, s)
    && s.free + |s.plan| == SlotCount(cfg.frames)
    && (forall t | 0 <= t < |cfg.rules| :: s.granted[t] == PlanBytes(s.plan, t))
    && (forall t | 0 <= t < |cfg.rules| :: s.mask[t] == Occupied(cfg, s.plan, s.cells, t))
    && forall k, l | 0 <= k < l < |s.plan| :: Separate(cfg, s, k, l)
  }

  // ---------- Preservation ----------

  lemma {:induction false} OccupiedHas(cfg: Config, plan: seq<Burst>, cells: seq<Cell>, t: int, k: nat)
    requires ValidConfig(cfg) && |plan| == |cells| && AllIn(cfg.frames, cells)
    requires k < |plan| && plan[k].id == t
    ensures Bits(cfg.frames, cells[k]) <= Occupied(cfg, plan, cells, t)
  {
    var n := |plan| - 1;
    if k < n {
      OccupiedHas(cfg, plan[..n], cells[..n], t, k);
    }
  }

  lemma LedgerStep(cfg: Config, s: State, b: Burst, c: Cell)
    requires Shape(cfg, s) && InFrame(cfg.frames, c)
    ensures forall t: int :: PlanBytes(s.plan + [b], t) == PlanBytes(s.plan, t) + if b.id == t then b.size else 0
    ensures AllIn(cfg.frames, s.cells + [c])
    ensures forall t: int :: Occupied(cfg, s.plan + [b], s.cells + [c], t)
                      == Occupied(cfg, s.plan, s.cells, t) + if b.id == t then Bits(cfg.frames, c) else {}
  {
    assert (s.plan + [b])[..|s.plan|] == s.plan;
    assert (s.cells + [c])[..|s.cells|] == s.cells;
  }

  lemma PlaceKeepsGrid(cfg: Config, s: State, t: nat, c: Cell)
    requires Inv(cfg, s) && t < |cfg.rules| && Eligible(cfg, s, t, c)
    ensures Shape(cfg, Place(cfg, s, t, c)) && PlanIsGrid(cfg, Place(cfg, s, t, c))
  {
    var p := Place(cfg, s, t, c);
    assert c !in s.cells;
    NoDupAppend(s.cells, [c]);
    forall k | 0 <= k < |p.plan| ensures Describes(cfg, p, k) {
      if k < |s.plan| {
        assert Describes(cfg, s, k);
      }
    }
  }

  lemma PlaceKeeps(cfg: Config, s: State, t: nat, c: Cell)
    requires Inv(cfg, s) && t < |cfg.rules| && Eligible(cfg, s, t, c)
    ensures Inv(cfg, Place(cfg, s, t, c))
  {
    var p := Place(cfg, s, t, c);
    PlaceKeepsGrid(cfg, s, t, c);
    LedgerStep(cfg, s, p.plan[|s.plan|], c);
    forall k, l | 0 <= k < l < |p.plan| ensures Separate(cfg, p, k, l) {
      if l < |s.plan| {
        assert Separate(cfg, s, k, l);
      } else if p.plan[k].id == t {
        OccupiedHas(cfg, s.plan, s.cells, t, k);
      }
    }
  }

  // The invariant does not depend on the cursor, the budget or the deficits.
  lemma MovingKeeps(cfg: Config, s: State, s': State)
    requires Inv(cfg, s) && Shape(cfg, s')
    requires s' == s.(left := s'.left, cur := s'.cur, deficit := s'.deficit)
    ensures Inv(cfg, s')
  {
    forall k | 0 <= k < |s'.plan| ensures Describes(cfg, s', k) {
      assert Describes(cfg, s, k);
    }
    forall k, l | 0 <= k < l < |s'.plan| ensures Separate(cfg, s', k, l) {
      assert Separate(cfg, s, k, l);
    }
  }

  lemma StepKeeps(cfg: Config, s: State)
    requires Inv(cfg, s) && !Done(s)
    ensures Inv(cfg, Step(cfg, s))
  {
    var s1 := Seek(cfg, s);
    MovingKeeps(cfg, s, s1);
    if s1.left > 0 {
      match Choice(cfg, s1, s1.cur)
      case Some(c) =>
        PlaceKeeps(cfg, s1, s1.cur, c);
        MovingKeeps(cfg, Place(cfg, s1, s1.cur, c), Step(cfg, s));
      case None =>
        MovingKeeps(cfg, s1, Step(cfg, s));
    }
  }

  // Plan, grid, bitmaps and ledgers agree after any number of steps.
  lemma {:induction false} StepsKeep(cfg: Config, s: State, k: nat)
    requires Inv(cfg, s)
    ensures Inv(cfg, Steps(cfg, s, k))
    decreases k
  {
    if 0 < k && !Done(s) {
      StepKeeps(cfg, s);
      StepsKeep(cfg, Step(cfg, s), k - 1);
    }
  }

  lemma {:induction false} PhaseKeeps(cfg: Config, s: State)
    requires Inv(cfg, s) && 0 <= s.free && LoopEnds(cfg, s)
    ensures Inv(cfg, Phase(cfg, s))
    decreases s.free, s.left, Distance(cfg, s)
  {
    if !Done(s) {
      StepShrinks(cfg, s);
      StepKeeps(cfg, s);
      PhaseKeeps(cfg, Step(cfg, s));
    }
  }

  // ---------- Consequences ----------

  // The free counter is the number of empty cells.
  lemma FreeCountsEmptyCells(cfg: Config, s: State)
    requires Inv(cfg, s)
    ensures |Universe(cfg.frames) - s.grid.Keys| == s.free
  {
    UniverseCard(cfg.frames);
    NoDupCard(s.cells);
    assert s.grid.Keys == set c | c in s.cells;
    forall c | c in s.grid.Keys ensures c in Universe(cfg.frames) {
      var k :| 0 <= k < |s.cells| && s.cells[k] == c;
    }
  }

  lemma NoneFreeNoneEligible(cfg: Config, s: State, t: nat, c: Cell)
    requires Inv(cfg, s) && s.free == 0 && t < |cfg.rules|
    ensures !Eligible(cfg, s, t, c)
  {
    FreeCountsEmptyCells(cfg, s);
    assert Universe(cfg.frames) - s.grid.Keys == {};
  }

  // A terminal never transmits twice at once: two bursts of one terminal do not overlap
  // in time, whatever frames they are in.
  lemma OneBurstAtATime(cfg: Config, s: State, k: nat, l: nat)
    requires Inv(cfg, s) && k < l < |s.plan| && s.plan[k].id == s.plan[l].id
    ensures !Overlap(cfg.frames, cfg.duration, s.cells[k], s.cells[l])
    ensures s.plan[k].offset == Start(cfg.frames, cfg.duration, s.cells[k])
    ensures s.plan[l].offset == Start(cfg.frames, cfg.duration, s.cells[l])
  {
    assert Separate(cfg, s, k, l) && Describes(cfg, s, k) && Describes(cfg, s, l);
    BitsDisjointIffTimesDisjoint(cfg.frames, cfg.duration, s.cells[k], s.cells[l]);
  }

  lemma {:induction false} OccupiedElement(cfg: Config, plan: seq<Burst>, cells: seq<Cell>, t: int, b: nat)
    returns (k: nat)
    requires ValidConfig(cfg) && |plan| == |cells| && AllIn(cfg.frames, cells)
    requires b in Occupied(cfg, plan, cells, t)
    ensures k < |plan| && plan[k].id == t && b in Bits(cfg.frames, cells[k])
  {
    var n := |plan| - 1;
    if plan[n].id == t && b in Bits(cfg.frames, cells[n]) {
      k := n;
    } else {
      k := OccupiedElement(cfg, plan[..n], cells[..n], t, b);
    }
  }

  // The bitmap refuses a free cell exactly when the terminal already transmits at an
  // overlapping time.
  lemma EligibleIffNoOverlap(cfg: Config, s: State, t: nat, c: Cell)
    requires Inv(cfg, s) && t < |cfg.rules| && InFrame(cfg.frames, c)
    ensures Eligible(cfg, s, t, c) <==>
            c !in s.grid &&
            forall k | 0 <= k < |s.plan| && s.plan[k].id == t :: !Overlap(cfg.frames, cfg.duration, s.cells[k], c)
  {
    forall k | 0 <= k < |s.plan| && s.plan[k].id == t
      ensures !Overlap(cfg.frames, cfg.duration, s.cells[k], c) <==> Bits(cfg.frames, s.cells[k]) !! Bits(cfg.frames, c)
      ensures Bits(cfg.frames, s.cells[k]) <= s.mask[t]
    {
      BitsDisjointIffTimesDisjoint(cfg.frames, cfg.duration, s.cells[k], c);
      OccupiedHas(cfg, s.plan, s.cells, t, k);
    }
    if b :| b in Bits(cfg.frames, c) && b in s.mask[t] {
      var k := OccupiedElement(cfg, s.plan, s.cells, t, b);
      assert Overlap(cfg.frames, cfg.duration, s.cells[k], c);
    }
  }

  ghost function Total(xs: seq<int>): int {
    if xs == [] then 0 else Total(xs[..|xs| - 1]) + xs[|xs| - 1]
  }

  ghost function PlanTotal(plan: seq<Burst>): nat {
    if plan == [] then 0 else PlanTotal(plan[..|plan| - 1]) + plan[|plan| - 1].size
  }

  // Sum of PlanBytes(plan, t) over the first n terminals.
  ghost function Shares(plan: seq<Burst>, n: nat): nat {
    if n == 0 then 0 else Shares(plan, n - 1) + PlanBytes(plan, n - 1)
  }

  lemma {:induction false} SharesOfOne(plan: seq<Burst>, n: nat)
    requires plan != []
    ensures var b := plan[|plan| - 1];
            Shares(plan, n) == Shares(plan[..|plan| - 1], n) + if 0 <= b.id < n then b.size else 0
  {
    if n > 0 {
      SharesOfOne(plan, n - 1);
    }
  }

  lemma {:induction false} SharesAddUp(plan: seq<Burst>, n: nat)
    requires forall k | 0 <= k < |plan| :: plan[k].id < n
    ensures Shares(plan, n) == PlanTotal(plan)
  {
    if plan == [] {
      SharesOfNone(n);
    } else {
      SharesOfOne(plan, n);
      SharesAddUp(plan[..|plan| - 1], n);
    }
  }

  lemma {:induction false} SharesOfNone(n: nat)
    ensures Shares([], n) == 0
  {
    if n > 0 {
      SharesOfNone(n - 1);
    }
  }

  lemma {:induction false} GrantedIsShares(granted: seq<int>, plan: seq<Burst>)
    requires forall t | 0 <= t < |granted| :: granted[t] == PlanBytes(plan, t)
    ensures Total(granted) == Shares(plan, |granted|)
  {
    if granted != [] {
      GrantedIsShares(granted[..|granted| - 1], plan);
    }
  }

  lemma {:induction false} PlanTotalIsCellBytes(fs: seq<FrameDim>, plan: seq<Burst>, cells: seq<Cell>)
    requires |plan| == |cells| && AllIn(fs, cells)
    requires forall k | 0 <= k < |plan| :: plan[k].size == fs[cells[k].f].burst
    ensures PlanTotal(plan) == CellBytes(fs, cells)
  {
    if plan != [] {
      PlanTotalIsCellBytes(fs, plan[..|plan| - 1], cells[..|cells| - 1]);
    }
  }

  // Everything granted is in the plan, and the plan fits the superframe.
  lemma GrantsFitSuperframe(cfg: Config, s: State)
    requires Inv(cfg, s)
    ensures Total(s.granted) == PlanTotal(s.plan) <= SuperframeBytes(cfg.frames)
  {
    var n := |cfg.rules|;
    forall k | 0 <= k < |s.plan| ensures 0 <= s.plan[k].id < n && s.plan[k].size == cfg.frames[s.cells[k].f].burst {
      assert Describes(cfg, s, k);
    }
    SharesAddUp(s.plan, n);
    GrantedIsShares(s.granted, s.plan);
    PlanTotalIsCellBytes(cfg.frames, s.plan, s.cells);
    AllCellsListed(cfg.frames);
    AllCellsBytes(cfg.frames);
    forall c | c in s.cells ensures c in AllCells(cfg.frames) {
      var k :| 0 <= k < |s.cells| && s.cells[k] == c;
    }
    CellBytesWithin(cfg.frames, s.cells, AllCells(cfg.frames));
  }
}
