// CONT mode: a terminal keeps the cursor until it is satisfied or cannot be served.
module ContMode {
  import opened Optional
  import opened Superframe
  import opened Scheduler
  import opened WorkConservation

  // The entries of a plan from base on.
  ghost function Fresh(s: State, base: nat): (bs: seq<Burst>)
    requires base <= |s.plan|
  {
    s.plan[base..]
  }

  ghost predicate Contiguous(bs: seq<Burst>) {
    forall i, j, k | 0 <= i < j < k < |bs| && bs[i].id == bs[k].id :: bs[j].id == bs[i].id
  }

  // Every terminal served in this phase has gone quiet, but for the one at the cursor if
  // it was served last.
  ghost predicate ServedAreQuiet(cfg: Config, s: State, base: nat)
    requires Shape(cfg, s) && base <= |s.plan|
  {
    forall i | base <= i < |s.plan| && !(s.plan[i].id == s.plan[|s.plan| - 1].id == s.cur) ::
      0 <= s.plan[i].id < |cfg.rules| && Quiet(cfg, s, s.plan[i].id)
  }

  ghost predicate OneRunEach(cfg: Config, s: State, base: nat) {
    Shape(cfg, s) && base <= |s.plan| && Contiguous(Fresh(s, base)) && ServedAreQuiet(cfg, s, base)
  }

  // Moving the cursor off a quiet terminal.
  lemma MoveKeeps(cfg: Config, s: State, s': State, base: nat)
    requires OneRunEach(cfg, s, base) && Quiet(cfg, s, s.cur)
    requires Shape(cfg, s') && s' == s.(left := s'.left, cur := s'.cur)
    ensures OneRunEach(cfg, s', base)
  {
    forall i | base <= i < |s'.plan| ensures 0 <= s'.plan[i].id < |cfg.rules| && Quiet(cfg, s', s'.plan[i].id) {
      if s.plan[i].id == s.cur {
        SameEligible(cfg, s, s', s.cur);
      } else {
        assert Quiet(cfg, s, s.plan[i].id);
        SameEligible(cfg, s, s', s.plan[i].id);
      }
    }
  }

  lemma ContiguousPush(bs: seq<Burst>, b: Burst)
    requires Contiguous(bs) && forall i | 0 <= i < |bs| && bs[i].id == b.id :: bs[|bs| - 1].id == b.id
    ensures Contiguous(bs + [b])
  {
    var r := bs + [b];
    forall i, j, k | 0 <= i < j < k < |r| && r[i].id == r[k].id ensures r[j].id == r[i].id {
      if k == |bs| && j < |bs| - 1 {
        assert bs[i].id == bs[|bs| - 1].id;
      }
    }
  }

  lemma GrantKeeps(cfg: Config, s: State, c: Cell, base: nat)
    requires OneRunEach(cfg, s, base) && cfg.mode == ContMode && s.deficit[s.cur] > 0 &&
             Choice(cfg, s, s.cur) == Some(c)
    ensures OneRunEach(cfg, Place(cfg, s, s.cur, c), base)
  {
    var s' := Place(cfg, s, s.cur, c);
    var n := |s.plan|;
    NoChoiceIffQuiet(cfg, s, s.cur);
    assert Fresh(s', base) == Fresh(s, base) + [s'.plan[n]];
    forall i | 0 <= i < |Fresh(s, base)| && Fresh(s, base)[i].id == s.cur ensures s.plan[n - 1].id == s.cur {
      assert s.plan[base + i].id == s.cur;
    }
    ContiguousPush(Fresh(s, base), s'.plan[n]);
    forall i | base <= i < |s'.plan| && s'.plan[i].id != s.cur
      ensures 0 <= s'.plan[i].id < |cfg.rules| && Quiet(cfg, s', s'.plan[i].id)
    {
      assert Quiet(cfg, s, s.plan[i].id);
      SameEligible(cfg, s, s', s.plan[i].id);
    }
  }

  lemma ServeKeepsRuns(cfg: Config, s: State, base: nat)
    requires OneRunEach(cfg, s, base) && cfg.mode == ContMode && 1 <= s.left && s.deficit[s.cur] > 0
    ensures OneRunEach(cfg, Serve(cfg, s), base)
  {
    match Choice(cfg, s, s.cur)
    case Some(c) => GrantKeeps(cfg, s, c, base);
    case None =>
      NoChoiceIffQuiet(cfg, s, s.cur);
      MoveKeeps(cfg, s, Serve(cfg, s), base);
  }

  lemma {:induction false} StepsKeepRuns(cfg: Config, s: State, base: nat, k: nat)
    requires OneRunEach(cfg, s, base) && cfg.mode == ContMode
    ensures OneRunEach(cfg, Steps(cfg, s, k), base)
    decreases k
  {
    if 0 < k && !Done(s) {
      var q := Seek(cfg, s);
      if s.deficit[s.cur] <= 0 {
        MoveKeeps(cfg, s, q, base);
      }
      if 0 < q.left {
        ServeKeepsRuns(cfg, q, base);
      }
      StepsKeepRuns(cfg, Step(cfg, s), base, k - 1);
    }
  }

  // In CONT mode the bursts of one terminal follow each other in the plan of a phase: a
  // terminal once left is not served again before the phase ends.
  lemma ContModeIsContiguous(cfg: Config, s: State)
    requires Shape(cfg, s) && cfg.mode == ContMode && 0 <= s.free && LoopEnds(cfg, s)
    ensures |s.plan| <= |Phase(cfg, s).plan| && Contiguous(Phase(cfg, s).plan[|s.plan|..])
  {
    var k := PhaseIsSteps(cfg, s);
    StepsKeepRuns(cfg, s, |s.plan|, k);
  }
}
