// The loop of assign_timeslot with its two locals. When no rule of a terminal applies,
// frame and offset keep what an earlier turn left in them, and the source goes on with
// that.
module StaleFrame {
  import opened Optional
  import opened Superframe
  import opened Scheduler
  import opened BurstPlan
  import opened WorkConservation
  import opened Superframes

  // What the locals hold: nothing yet, a null frame, or the frame and start time of a
  // cell found before.
  datatype Held = Unset | Null | Kept(cell: Cell)

  datatype Loop = Loop(s: State, held: Held)

  ghost predicate ValidLoop(cfg: Config, l: Loop) {
    Shape(cfg, l.s) && (l.held.Kept? ==> InFrame(cfg.frames, l.held.cell))
  }

  // What they hold after the rules of the terminal under the cursor have been tried.
  ghost function Tried(cfg: Config, l: Loop): (h: Held)
    requires ValidLoop(cfg, l)
  {
    if !HasRule(cfg, l.s.cur, l.s.deficit[l.s.cur]) then l.held
    else
      match Choice(cfg, l.s, l.s.cur)
      case Some(c) => Kept(c)
      case None => Null
  }

  // A burst of cell c is booked for t, but c is not occupied: it was, in an earlier turn.
  ghost function Rebook(cfg: Config, s: State, t: nat, c: Cell): State
    requires Shape(cfg, s) && t < |cfg.rules| && InFrame(cfg.frames, c)
  {
    var burst := cfg.frames[c.f].burst;
    s.(deficit := s.deficit[t := s.deficit[t] - burst],
       granted := s.granted[t := s.granted[t] + burst],
       free := s.free - 1,
       plan := s.plan + [Burst(t, Start(cfg.frames, cfg.duration, c), burst)],
       cells := s.cells + [c])
  }

  ghost function Booking(cfg: Config, s: State, c: Cell): State
    requires Shape(cfg, s) && InFrame(cfg.frames, c)
  {
    if HasRule(cfg, s.cur, s.deficit[s.cur]) then Place(cfg, s, s.cur, c) else Rebook(cfg, s, s.cur, c)
  }

  // Budget and cursor at the end of a turn.
  ghost function Onward(cfg: Config, s: State, booked: bool): State
    requires s.cur < |cfg.rules|
  {
    if cfg.mode == SlotMode then s.(left := if booked then |cfg.rules| else s.left, cur := Next(cfg, s.cur))
    else if booked then s
    else s.(left := s.left - 1, cur := Next(cfg, s.cur))
  }

  // The turn from the found terminal on; None is where the source reads a frame never
  // set.
  ghost function RawServe(cfg: Config, l: Loop): (r: Option<Loop>)
    requires ValidLoop(cfg, l) && 1 <= l.s.left
    ensures r.Some? ==> ValidLoop(cfg, r.value)
  {
    match Tried(cfg, l)
    case Unset => None
    case Null => Some(Loop(Onward(cfg, l.s, false), Null))
    case Kept(c) => Some(Loop(Onward(cfg, Booking(cfg, l.s, c), true), Kept(c)))
  }

  ghost function RawStep(cfg: Config, l: Loop): (r: Option<Loop>)
    requires ValidLoop(cfg, l) && 1 <= l.s.left
    ensures r.Some? ==> ValidLoop(cfg, r.value)
  {
    var s1 := Seek(cfg, l.s);
    if s1.left == 0 then Some(Loop(s1, l.held)) else RawServe(cfg, Loop(s1, l.held))
  }

  // k turns of the loop, or fewer if it ends sooner.
  ghost function RawSteps(cfg: Config, l: Loop, k: nat): (r: Option<Loop>)
    requires ValidLoop(cfg, l)
    ensures r.Some? ==> ValidLoop(cfg, r.value)
    decreases k
  {
    if k == 0 || Done(l.s) then Some(l)
    else
      match RawStep(cfg, l)
      case None => None
      case Some(l1) => RawSteps(cfg, l1, k - 1)
  }

  // The loop ends, or fails, within k turns.
  ghost predicate EndsWithin(cfg: Config, l: Loop, k: nat) {
    ValidLoop(cfg, l) && match RawSteps(cfg, l, k) case None => true case Some(l1) => Done(l1.s)
  }

  // ---------- When the locals do not matter ----------

  ghost predicate At(r: Option<Loop>, s: State) {
    r.Some? && r.value.s == s
  }

  // The loop comes to a terminal none of whose rules apply, with a frame that is not null.
  ghost predicate Misled(cfg: Config, l: Loop)
    requires ValidLoop(cfg, l)
  {
    !Done(l.s) &&
    var s1 := Seek(cfg, l.s);
    0 < s1.left && !HasRule(cfg, s1.cur, s1.deficit[s1.cur]) && l.held != Null
  }

  lemma NoRuleNoChoice(cfg: Config, s: State, t: nat)
    requires Shape(cfg, s) && t < |cfg.rules| && !HasRule(cfg, t, s.deficit[t])
    ensures Choice(cfg, s, t) == None
  {
    TryRulesFails(cfg, s.grid, s.mask[t], s.deficit[t], t, 0);
  }

  // One turn is the specified one exactly when it is not misled.
  lemma StepAgreesIff(cfg: Config, l: Loop)
    requires ValidLoop(cfg, l) && !Done(l.s)
    ensures At(RawStep(cfg, l), Step(cfg, l.s)) <==> !Misled(cfg, l)
  {
    var s1 := Seek(cfg, l.s);
    if 0 < s1.left && !HasRule(cfg, s1.cur, s1.deficit[s1.cur]) {
      NoRuleNoChoice(cfg, s1, s1.cur);
    }
  }

  lemma {:induction false} NeverMisledAgrees(cfg: Config, l: Loop, k: nat)
    requires ValidLoop(cfg, l)
    requires forall j: nat :: RawSteps(cfg, l, j).Some? ==> !Misled(cfg, RawSteps(cfg, l, j).value)
    ensures At(RawSteps(cfg, l, k), Steps(cfg, l.s, k))
    decreases k
  {
    if 0 < k && !Done(l.s) {
      assert !Misled(cfg, RawSteps(cfg, l, 0).value);
      StepAgreesIff(cfg, l);
      var l1 := RawStep(cfg, l).value;
      forall j: nat ensures RawSteps(cfg, l1, j).Some? ==> !Misled(cfg, RawSteps(cfg, l1, j).value) {
        assert RawSteps(cfg, l1, j) == RawSteps(cfg, l, j + 1);
      }
      NeverMisledAgrees(cfg, l1, k - 1);
    }
  }

  lemma {:induction false} MisledDiffers(cfg: Config, l: Loop, j: nat) returns (k: nat)
    requires ValidLoop(cfg, l) && RawSteps(cfg, l, j).Some? && Misled(cfg, RawSteps(cfg, l, j).value)
    ensures !At(RawSteps(cfg, l, k), Steps(cfg, l.s, k))
    decreases j
  {
    StepAgreesIff(cfg, l);
    k := 1;
    assert RawStep(cfg, l).Some? ==> RawSteps(cfg, RawStep(cfg, l).value, 0) == RawStep(cfg, l);
    assert Steps(cfg, l.s, 1) == Steps(cfg, Step(cfg, l.s), 0);
    if !Misled(cfg, l) {
      k := MisledDiffers(cfg, RawStep(cfg, l).value, j - 1);
      k := k + 1;
    }
  }

  // The loop of the source is the specified one, turn for turn, exactly when it is never
  // misled.
  lemma AgreesIffNeverMisled(cfg: Config, l: Loop)
    requires ValidLoop(cfg, l)
    ensures (forall k: nat :: At(RawSteps(cfg, l, k), Steps(cfg, l.s, k))) <==>
            (forall k: nat :: RawSteps(cfg, l, k).Some? ==> !Misled(cfg, RawSteps(cfg, l, k).value))
  {
    if j: nat :| RawSteps(cfg, l, j).Some? && Misled(cfg, RawSteps(cfg, l, j).value) {
      var k := MisledDiffers(cfg, l, j);
    } else {
      forall k: nat ensures At(RawSteps(cfg, l, k), Steps(cfg, l.s, k)) {
        NeverMisledAgrees(cfg, l, k);
      }
    }
  }

  // What a caller can see beforehand: it is enough that every terminal that asks has a
  // rule that applies.
  lemma {:induction false} RulesAreEnough(cfg: Config, l: Loop, k: nat)
    requires ValidLoop(cfg, l) && EveryoneHasRule(cfg, l.s.deficit)
    ensures At(RawSteps(cfg, l, k), Steps(cfg, l.s, k))
    decreases k
  {
    if 0 < k && !Done(l.s) {
      StepAgreesIff(cfg, l);
      StepLowers(cfg, l.s);
      RulesLast(cfg, l.s.deficit, Step(cfg, l.s).deficit);
      RulesAreEnough(cfg, RawStep(cfg, l).value, k - 1);
    }
  }

  // ---------- What holds even so ----------

  // Slots used and entries of the plan are counted together, and every ledger tells the
  // bytes in the plan.
  ghost predicate Counted(cfg: Config, s: State) {
    && Shape(cfg, s) && 0 <= s.free
    && s.free + |s.plan| == SlotCount(cfg.frames)
    && forall t | 0 <= t < |cfg.rules| :: s.granted[t] == PlanBytes(s.plan, t)
  }

  // What left the deficits was granted.
  ghost predicate Balances(cfg: Config, s: State, s': State)
    requires Shape(cfg, s) && Shape(cfg, s')
  {
    forall t | 0 <= t < |cfg.rules| :: s'.deficit[t] + s'.granted[t] == s.deficit[t] + s.granted[t]
  }

  lemma BookingCounts(cfg: Config, s: State, c: Cell)
    requires Counted(cfg, s) && 0 < s.free && InFrame(cfg.frames, c)
    ensures Counted(cfg, Booking(cfg, s, c))
  {
    LedgerStep(cfg, s, Burst(s.cur, Start(cfg.frames, cfg.duration, c), cfg.frames[c.f].burst), c);
  }

  lemma RawStepCounts(cfg: Config, l: Loop)
    requires ValidLoop(cfg, l) && Counted(cfg, l.s) && !Done(l.s) && RawStep(cfg, l).Some?
    ensures Counted(cfg, RawStep(cfg, l).value.s) && Balances(cfg, l.s, RawStep(cfg, l).value.s)
  {
    var l1 := Loop(Seek(cfg, l.s), l.held);
    if 0 < l1.s.left {
      match Tried(cfg, l1)
      case Kept(c) => BookingCounts(cfg, l1.s, c);
      case Null =>
    }
  }

  // Misled or not, the counters stay right.
  lemma {:induction false} RawStepsCount(cfg: Config, l: Loop, k: nat)
    requires ValidLoop(cfg, l) && Counted(cfg, l.s) && RawSteps(cfg, l, k).Some?
    ensures Counted(cfg, RawSteps(cfg, l, k).value.s) && Balances(cfg, l.s, RawSteps(cfg, l, k).value.s)
    decreases k
  {
    if 0 < k && !Done(l.s) {
      RawStepCounts(cfg, l);
      RawStepsCount(cfg, RawStep(cfg, l).value, k - 1);
    }
  }

  // A turn that is misled books the cell found last once more, for the terminal under the
  // cursor, and leaves grid and bitmaps as they are.
  lemma MisledBooksAgain(cfg: Config, l: Loop, c: Cell)
    requires ValidLoop(cfg, l) && Misled(cfg, l) && l.held == Kept(c)
    ensures var s1, r := Seek(cfg, l.s), RawStep(cfg, l);
            && r.Some? && r.value.held == Kept(c) && r.value.s.grid == l.s.grid && r.value.s.mask == l.s.mask
            && r.value.s.plan == l.s.plan + [Burst(s1.cur, Start(cfg.frames, cfg.duration, c), cfg.frames[c.f].burst)]
  {
  }

  // ---------- Superframes ----------

  // One request phase of at most k turns.
  ghost predicate PhaseEnds(cfg: Config, s: State, req: seq<nat>, k: nat) {
    Shape(cfg, s) && |req| == |cfg.rules| && EndsWithin(cfg, Loop(Request(cfg, s, req), Unset), k)
  }

  ghost function RawPhase(cfg: Config, s: State, req: seq<nat>, k: nat): (r: Option<State>)
    requires Counted(cfg, s) && |req| == |cfg.rules|
    ensures r.Some? ==> Counted(cfg, r.value)
  {
    var l := Loop(Request(cfg, s, req), Unset);
    match RawSteps(cfg, l, k)
    case None => None
    case Some(l1) => RawStepsCount(cfg, l, k); Some(l1.s)
  }

  // Turns in which the phases CRA, RBDC and VBDC of a superframe end.
  datatype Turns = Turns(cra: nat, rbdc: nat, vbdc: nat)

  ghost predicate RawReturns(cfg: Config, opt: Options, y: System, k: Turns)
    requires ValidSystem(cfg, opt, y)
  {
    var s0 := Reset(cfg, y.deficit, y.cur);
    ResetCounts(cfg, y.deficit, y.cur);
    PhaseEnds(cfg, s0, opt.cra, k.cra) &&
    match RawPhase(cfg, s0, opt.cra, k.cra)
    case None => true
    case Some(s1) => LastReturn(cfg, s1, y.rate, y.volume, k)
  }

  ghost predicate LastReturn(cfg: Config, s1: State, rate: seq<nat>, volume: seq<nat>, k: Turns)
    requires Counted(cfg, s1) && |rate| == |volume| == |cfg.rules|
  {
    PhaseEnds(cfg, s1, rate, k.rbdc) &&
    match RawPhase(cfg, s1, rate, k.rbdc)
    case None => true
    case Some(s2) => PhaseEnds(cfg, s2, volume, k.vbdc)
  }

  // The state allocation() ends in; None is where it goes on with a frame never set.
  ghost function RawPlan(cfg: Config, opt: Options, y: System, k: Turns): (r: Option<State>)
    requires ValidSystem(cfg, opt, y)
    ensures r.Some? ==> Counted(cfg, r.value) && forall t | 0 <= t < |cfg.rules| :: 0 <= r.value.granted[t]
  {
    ResetCounts(cfg, y.deficit, y.cur);
    match RawPhase(cfg, Reset(cfg, y.deficit, y.cur), opt.cra, k.cra)
    case None => None
    case Some(s1) => RawLast(cfg, s1, y.rate, y.volume, k)
  }

  ghost function RawLast(cfg: Config, s1: State, rate: seq<nat>, volume: seq<nat>, k: Turns): (r: Option<State>)
    requires Counted(cfg, s1) && |rate| == |volume| == |cfg.rules|
    ensures r.Some? ==> Counted(cfg, r.value)
  {
    match RawPhase(cfg, s1, rate, k.rbdc)
    case None => None
    case Some(s2) => RawPhase(cfg, s2, volume, k.vbdc)
  }

  // A phase does not depend on the budget left over before it.
  lemma LeftIsReset(cfg: Config, s: State, left: int, req: seq<nat>, k: nat)
    requires Counted(cfg, s) && 0 <= left <= |cfg.rules| && |req| == |cfg.rules|
    ensures Counted(cfg, s.(left := left)) && (PhaseEnds(cfg, s.(left := left), req, k) <==> PhaseEnds(cfg, s, req, k))
    ensures RawPhase(cfg, s.(left := left), req, k) == RawPhase(cfg, s, req, k)
  {
    assert Request(cfg, s.(left := left), req) == Request(cfg, s, req);
  }

  lemma ResetCounts(cfg: Config, deficit: seq<int>, cur: nat)
    requires ValidConfig(cfg) && |deficit| == |cfg.rules| && cur < |cfg.rules|
    ensures Counted(cfg, Reset(cfg, deficit, cur))
  {
  }

  lemma PhaseFollows(cfg: Config, s: State, req: seq<nat>) returns (k: nat)
    requires Inv(cfg, s) && 0 <= s.free && |req| == |cfg.rules| && PhaseRuns(cfg, Request(cfg, s, req))
    ensures PhaseEnds(cfg, s, req, k) && RawPhase(cfg, s, req, k) == Some(PhaseFor(cfg, s, req))
  {
    k := PhaseIsSteps(cfg, Request(cfg, s, req));
    RulesAreEnough(cfg, Loop(Request(cfg, s, req), Unset), k);
  }

  // Where the run state machine gives a plan, it is that of the source.
  lemma PlanFollows(cfg: Config, opt: Options, y: System) returns (k: Turns)
    requires ValidSystem(cfg, opt, y) && Returns(cfg, opt, y)
    ensures RawReturns(cfg, opt, y, k) && RawPlan(cfg, opt, y, k) == Some(Plan(cfg, opt, y))
  {
    var s0 := Reset(cfg, y.deficit, y.cur);
    ResetInv(cfg, y.deficit, y.cur);
    var k1 := PhaseFollows(cfg, s0, opt.cra);
    var s1 := PhaseFor(cfg, s0, opt.cra);
    var k2 := PhaseFollows(cfg, s1, y.rate);
    var k3 := PhaseFollows(cfg, PhaseFor(cfg, s1, y.rate), y.volume);
    k := Turns(k1, k2, k3);
  }

  // ---------- Traces ----------

  // Link i of a trace: a turn leads to the next one; at the last the loop is done, or
  // fails.
  ghost predicate Link(cfg: Config, trace: seq<Loop>, i: nat)
    requires i < |trace|
  {
    var l := trace[i];
    && ValidLoop(cfg, l) && Counted(cfg, l.s)
    && if i + 1 < |trace| then !Done(l.s) && RawStep(cfg, l) == Some(trace[i + 1])
       else !Done(l.s) ==> RawStep(cfg, l) == None
  }

  ghost predicate Trace(cfg: Config, trace: seq<Loop>) {
    trace != [] && forall i | 0 <= i < |trace| :: Link(cfg, trace, i)
  }

  // A loop that ends has a trace, and it leads where RawSteps says.
  lemma {:induction false} TraceOf(cfg: Config, l: Loop, k: nat) returns (trace: seq<Loop>)
    requires EndsWithin(cfg, l, k) && Counted(cfg, l.s)
    ensures Trace(cfg, trace) && trace[0] == l
    ensures var last := trace[|trace| - 1]; RawSteps(cfg, l, k) == if Done(last.s) then Some(last) else None
    decreases k
  {
    if Done(l.s) || RawStep(cfg, l) == None {
      trace := [l];
    } else {
      RawStepCounts(cfg, l);
      var rest := TraceOf(cfg, RawStep(cfg, l).value, k - 1);
      LinkInFront(cfg, l, rest);
      trace := [l] + rest;
    }
  }

  lemma LinkInFront(cfg: Config, l: Loop, rest: seq<Loop>)
    requires Trace(cfg, rest) && ValidLoop(cfg, l) && Counted(cfg, l.s) && !Done(l.s) &&
             RawStep(cfg, l) == Some(rest[0])
    ensures Trace(cfg, [l] + rest)
  {
    var trace := [l] + rest;
    forall i | 0 <= i < |trace| ensures Link(cfg, trace, i) {
      if 0 < i {
        assert Link(cfg, rest, i - 1) && trace[i] == rest[i - 1];
      }
    }
  }

  // ---------- What goes wrong ----------

  // One carrier of two timeslots; terminal 1 has a SMALL rule only.
  ghost function Uneven(): Config {
    Config([FrameDim(1, 2, 10)], 1.0, [[Rule(false, 0)], [Rule(true, 0)]], SlotMode, Layout.FirstFit, 0)
  }

  ghost predicate Asks(cfg: Config, s: State, cur: nat) {
    ValidConfig(cfg) && |cfg.rules| == 2 && cur < 2 && s == Request(cfg, Reset(cfg, [0, 0], cur), [100, 100])
  }

  lemma UnevenGeometry()
    ensures ValidConfig(Uneven()) && SlotCount(Uneven().frames) == 2
  {
    assert Uneven().frames[..0] == [];
  }

  lemma FirstIsServed(s: State) returns (c: Cell)
    requires Asks(Uneven(), s, 0)
    ensures InFrame(Uneven().frames, c)
    ensures RawStep(Uneven(), Loop(s, Unset)) == Some(Loop(Onward(Uneven(), Place(Uneven(), s, 0, c), true), Kept(c)))
  {
    var cfg := Uneven();
    assert Applies(cfg, cfg.rules[0][0], 100);
    assert Eligible(cfg, s, 0, Cell(0, 0, 0));
    NoChoiceIffQuiet(cfg, s, 0);
    c := Choice(cfg, s, 0).value;
  }

  // Terminal 1 is then given the cell of terminal 0: both are told to send at the same
  // time on the same carrier, and a slot counted as used is empty.
  lemma CellBookedTwice(s: State) returns (c: Cell)
    requires Asks(Uneven(), s, 0)
    ensures Inv(Uneven(), s) && RawSteps(Uneven(), Loop(s, Unset), 2).Some?
    ensures var s2 := RawSteps(Uneven(), Loop(s, Unset), 2).value.s;
            && s2.cells == [c, c] && |s2.plan| == 2 && s2.plan[0].id != s2.plan[1].id &&
              s2.plan[0].offset == s2.plan[1].offset
            && s2.free == 0 && s2.grid.Keys == {c} && |Universe(Uneven().frames) - s2.grid.Keys| == 1
  {
    var cfg := Uneven();
    UnevenGeometry();
    ResetInv(cfg, [0, 0], 0);
    RequestKeeps(cfg, Reset(cfg, [0, 0], 0), [100, 100]);
    c := FirstIsServed(s);
    var l1 := RawStep(cfg, Loop(s, Unset)).value;
    assert !HasRule(cfg, 1, 100);
    assert RawStep(cfg, l1) == Some(Loop(Onward(cfg, Rebook(cfg, l1.s, 1, c), true), Kept(c)));
    var l2 := RawStep(cfg, l1).value;
    assert RawSteps(cfg, l1, 1) == RawSteps(cfg, l2, 0);
    UniverseCard(cfg.frames);
    assert l2.s.grid.Keys == {c} && c in Universe(cfg.frames);
  }

  // If the cursor starts at terminal 1 the frame it goes on with was never set.
  lemma FrameNeverSet(s: State)
    requires Asks(Uneven(), s, 1)
    ensures RawSteps(Uneven(), Loop(s, Unset), 1) == None
  {
    assert !HasRule(Uneven(), 1, 100);
  }
}
