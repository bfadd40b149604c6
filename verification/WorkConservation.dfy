// What a whole phase of the scheduler achieves: no grant it could still make is left
// unmade, and SLOT mode shares evenly.
module WorkConservation {
  import opened Optional
  import opened Superframe
  import opened Scheduler
  import opened BurstPlan

  // ---------- Work conservation ----------

  // How many moves ago the cursor left t, if it has gone round since: 1 to n.
  function Back(t: nat, cur: nat, n: nat): nat
    requires t < n && cur < n
  {
    if t < cur then cur - t else cur + n - t
  }

  // The arc the cursor has walked since the budget was last reset holds quiet terminals
  // only, and is at least as long as the budget spent.
  ghost predicate QuietArc(cfg: Config, s: State)
    requires Shape(cfg, s)
  {
    forall t | 0 <= t < |cfg.rules| && Back(t, s.cur, |cfg.rules|) <= |cfg.rules| - s.left :: Quiet(cfg, s, t)
  }

  lemma MoveOn(cfg: Config, s: State, left: nat)
    requires Shape(cfg, s) && QuietArc(cfg, s) && Quiet(cfg, s, s.cur)
    requires s.left - 1 <= left <= s.left
    ensures QuietArc(cfg, s.(left := left, cur := Next(cfg, s.cur)))
  {
    var s' := s.(left := left, cur := Next(cfg, s.cur));
    var n := |cfg.rules|;
    forall t | 0 <= t < n && Back(t, s'.cur, n) <= n - left ensures Quiet(cfg, s', t) {
      assert t == s.cur || Back(t, s.cur, n) == Back(t, s'.cur, n) - 1;
      assert Quiet(cfg, s, t);
      SameEligible(cfg, s, s', t);
    }
  }

  lemma {:induction false} AdvanceArc(cfg: Config, s: State)
    requires Shape(cfg, s) && 1 <= s.left && QuietArc(cfg, s) && s.deficit[s.cur] <= 0
    ensures QuietArc(cfg, Advance(cfg, s))
    decreases s.left
  {
    MoveOn(cfg, s, s.left - 1);
    var s1 := s.(left := s.left - 1, cur := Next(cfg, s.cur));
    if s1.deficit[s1.cur] <= 0 && 0 < s1.left {
      AdvanceArc(cfg, s1);
    }
  }

  lemma ServeArc(cfg: Config, s: State)
    requires Shape(cfg, s) && 1 <= s.left && QuietArc(cfg, s) && s.deficit[s.cur] > 0
    ensures QuietArc(cfg, Serve(cfg, s))
  {
    var s' := Serve(cfg, s);
    NoChoiceIffQuiet(cfg, s, s.cur);
    match Choice(cfg, s, s.cur)
    case Some(c) =>
      var n := |cfg.rules|;
      forall t | 0 <= t < n && Back(t, s'.cur, n) <= n - s'.left ensures Quiet(cfg, s', t) {
        assert cfg.mode == ContMode && t != s.cur;
        SameEligible(cfg, s, s', t);
      }
    case None =>
      MoveOn(cfg, s, if cfg.mode == ContMode then s.left - 1 else s.left);
  }

  lemma StepArc(cfg: Config, s: State)
    requires Shape(cfg, s) && 1 <= s.left && QuietArc(cfg, s)
    ensures QuietArc(cfg, Step(cfg, s))
  {
    if s.deficit[s.cur] <= 0 {
      AdvanceArc(cfg, s);
    }
    if Seek(cfg, s).left > 0 {
      ServeArc(cfg, Seek(cfg, s));
    }
  }

  lemma {:induction false} PhaseArc(cfg: Config, s: State)
    requires Shape(cfg, s) && 0 <= s.free && LoopEnds(cfg, s) && QuietArc(cfg, s)
    ensures QuietArc(cfg, Phase(cfg, s))
    decreases s.free, s.left, Distance(cfg, s)
  {
    if !Done(s) {
      StepShrinks(cfg, s);
      StepArc(cfg, s);
      PhaseArc(cfg, Step(cfg, s));
    }
  }

  // When a phase ends, in either mode and with either layout, no terminal is left with a
  // positive deficit and a cell it could still be given.
  lemma PhaseIsWorkConserving(cfg: Config, s: State, t: nat)
    requires Inv(cfg, s) && 0 <= s.free && LoopEnds(cfg, s) && s.left == |cfg.rules| && t < |cfg.rules|
    ensures Quiet(cfg, Phase(cfg, s), t)
  {
    var s' := Phase(cfg, s);
    PhaseArc(cfg, s);
    PhaseKeeps(cfg, s);
    if s'.free == 0 {
      forall c: Cell ensures !Eligible(cfg, s', t, c) {
        NoneFreeNoneEligible(cfg, s', t, c);
      }
    } else {
      assert Back(t, s'.cur, |cfg.rules|) <= |cfg.rules| - s'.left;
    }
  }

  // ---------- Fairness of SLOT mode ----------

  ghost function Grants(plan: seq<Burst>, t: int): nat {
    if plan == [] then 0
    else Grants(plan[..|plan| - 1], t) + if plan[|plan| - 1].id == t then 1 else 0
  }

  // The terminal whose attempt fails in the next step, if there is one.
  ghost function NewFailure(cfg: Config, s: State): set<nat>
    requires Shape(cfg, s) && !Done(s)
  {
    var q := Seek(cfg, s);
    if 0 < q.left && Choice(cfg, q, q.cur) == None then {q.cur} else {}
  }

  // Terminals that have had a failed attempt within the first k steps.
  ghost function Failed(cfg: Config, s: State, k: nat): set<nat>
    requires Shape(cfg, s)
    decreases k
  {
    if k == 0 || Done(s) then {} else NewFailure(cfg, s) + Failed(cfg, Step(cfg, s), k - 1)
  }

  // Since the cursor stood at start it has gone round the terminals r times in full:
  // every terminal that still asks and never failed was granted r bursts, and one more
  // if the cursor has passed it in the current round.
  ghost predicate RoundRobin(cfg: Config, base: seq<Burst>, start: nat, s: State, failed: set<nat>, r: nat)
    requires Shape(cfg, s) && start < |cfg.rules|
  {
    forall t | 0 <= t < |cfg.rules| && s.deficit[t] > 0 && t !in failed ::
      Grants(s.plan, t) == Grants(base, t) + r +
        if Ahead(start, t, |cfg.rules|) < Ahead(start, s.cur, |cfg.rules|) then 1 else 0
  }

  lemma CursorMoves(cfg: Config, base: seq<Burst>, start: nat, s: State, s': State, failed: set<nat>,
                    failed': set<nat>, r: nat)
    returns (r': nat)
    requires Shape(cfg, s) && Shape(cfg, s') && start < |cfg.rules| && RoundRobin(cfg, base, start, s, failed, r)
    requires s'.cur == Next(cfg, s.cur) && failed <= failed'
    requires forall t | 0 <= t < |cfg.rules| && s'.deficit[t] > 0 && t !in failed' ::
               s.deficit[t] > 0 && Grants(s'.plan, t) == Grants(s.plan, t) + if t == s.cur then 1 else 0
    ensures RoundRobin(cfg, base, start, s', failed', r')
  {
    r' := if s'.cur == start then r + 1 else r;
    var n := |cfg.rules|;
    forall t | 0 <= t < n && s'.deficit[t] > 0 && t !in failed'
      ensures Grants(s'.plan, t) == Grants(base, t) + r' + if Ahead(start, t, n) < Ahead(start, s'.cur, n) then 1 else 0
    {
      assert s'.cur != start ==> Ahead(start, s'.cur, n) == Ahead(start, s.cur, n) + 1;
      assert s'.cur == start ==> Ahead(start, s.cur, n) == n - 1;
      assert Ahead(start, t, n) == Ahead(start, s.cur, n) ==> t == s.cur;
    }
  }

  lemma {:induction false} AdvanceRound(cfg: Config, base: seq<Burst>, start: nat, s: State, failed: set<nat>, r: nat)
    returns (r': nat)
    requires Shape(cfg, s) && 1 <= s.left && s.deficit[s.cur] <= 0
    requires start < |cfg.rules| && RoundRobin(cfg, base, start, s, failed, r)
    ensures RoundRobin(cfg, base, start, Advance(cfg, s), failed, r')
    decreases s.left
  {
    var s1 := s.(left := s.left - 1, cur := Next(cfg, s.cur));
    r' := CursorMoves(cfg, base, start, s, s1, failed, failed, r);
    if s1.deficit[s1.cur] <= 0 && 0 < s1.left {
      r' := AdvanceRound(cfg, base, start, s1, failed, r');
    }
  }

  lemma ServeRound(cfg: Config, base: seq<Burst>, start: nat, s: State, failed: set<nat>, r: nat)
    returns (r': nat)
    requires Shape(cfg, s) && 1 <= s.left && s.deficit[s.cur] > 0 && cfg.mode == SlotMode
    requires start < |cfg.rules| && RoundRobin(cfg, base, start, s, failed, r)
    ensures var failed' := failed + if Choice(cfg, s, s.cur) == None then {s.cur} else {};
            RoundRobin(cfg, base, start, Serve(cfg, s), failed', r')
  {
    var s' := Serve(cfg, s);
    var failed' := failed + if Choice(cfg, s, s.cur) == None then {s.cur} else {};
    assert s'.plan != s.plan ==> s'.plan[..|s.plan|] == s.plan;
    r' := CursorMoves(cfg, base, start, s, s', failed, failed', r);
  }

  lemma StepRound(cfg: Config, base: seq<Burst>, start: nat, s: State, failed: set<nat>, r: nat) returns (r': nat)
    requires Shape(cfg, s) && cfg.mode == SlotMode && !Done(s)
    requires start < |cfg.rules| && RoundRobin(cfg, base, start, s, failed, r)
    ensures RoundRobin(cfg, base, start, Step(cfg, s), failed + NewFailure(cfg, s), r')
  {
    r' := r;
    if s.deficit[s.cur] <= 0 {
      r' := AdvanceRound(cfg, base, start, s, failed, r);
    }
    var q := Seek(cfg, s);
    if 0 < q.left {
      r' := ServeRound(cfg, base, start, q, failed, r');
    }
  }

  lemma {:induction false} StepsRound(cfg: Config, base: seq<Burst>, start: nat, s: State, failed: set<nat>, r: nat,
                                      k: nat)
    returns (r': nat)
    requires Shape(cfg, s) && cfg.mode == SlotMode
    requires start < |cfg.rules| && RoundRobin(cfg, base, start, s, failed, r)
    ensures RoundRobin(cfg, base, start, Steps(cfg, s, k), failed + Failed(cfg, s, k), r')
    decreases k
  {
    r' := r;
    if 0 < k && !Done(s) {
      r' := StepRound(cfg, base, start, s, failed, r);
      var failed' := failed + NewFailure(cfg, s);
      r' := StepsRound(cfg, base, start, Step(cfg, s), failed', r', k - 1);
      assert failed' + Failed(cfg, Step(cfg, s), k - 1) == failed + Failed(cfg, s, k);
    }
  }

  // At any point of a SLOT mode phase, two terminals that still ask and have had no
  // failed attempt have been granted numbers of bursts differing by at most one.
  lemma SlotModeIsFair(cfg: Config, s: State, k: nat, t: nat, u: nat)
    requires Shape(cfg, s) && cfg.mode == SlotMode && t < |cfg.rules| && u < |cfg.rules|
    requires var p := Steps(cfg, s, k); p.deficit[t] > 0 && p.deficit[u] > 0
    requires t !in Failed(cfg, s, k) && u !in Failed(cfg, s, k)
    ensures var p := Steps(cfg, s, k);
            -1 <= (Grants(p.plan, t) - Grants(s.plan, t)) - (Grants(p.plan, u) - Grants(s.plan, u)) <= 1
  {
    var r := StepsRound(cfg, s.plan, s.cur, s, {}, 0, k);
  }

  // Phase is what the loop reaches, in some number of steps.
  lemma {:induction false} PhaseIsSteps(cfg: Config, s: State) returns (k: nat)
    requires Shape(cfg, s) && 0 <= s.free && LoopEnds(cfg, s)
    ensures Steps(cfg, s, k) == Phase(cfg, s)
    decreases s.free, s.left, Distance(cfg, s)
  {
    k := 0;
    if !Done(s) {
      StepShrinks(cfg, s);
      k := PhaseIsSteps(cfg, Step(cfg, s));
      k := k + 1;
    }
  }
}
