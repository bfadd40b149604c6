// The books of a run, told from its events alone.
module Accounts {
  import opened Optional
  import opened Sequences
  import opened Scheduler
  import opened BurstPlan
  import opened Superframes

  // The rate terminal t asked for last.
  ghost function LastRate(es: seq<Event>, t: nat): nat {
    if es == [] then 0
    else
      match es[|es| - 1]
      case Report(u, rate, _) => if u == t then rate else LastRate(es[..|es| - 1], t)
      case Superframe => LastRate(es[..|es| - 1], t)
  }

  // All volumes it asked for.
  ghost function Reported(es: seq<Event>, t: nat): nat {
    if es == [] then 0
    else
      Reported(es[..|es| - 1], t) +
      match es[|es| - 1]
      case Report(u, _, volume) => if u == t then volume else 0
      case Superframe => 0
  }

  // Those it had asked for by the last superframe.
  ghost function Entered(es: seq<Event>, t: nat): nat {
    if es == [] then 0
    else if es[|es| - 1].Superframe? then Reported(es, t)
    else Entered(es[..|es| - 1], t)
  }

  // Constant and requested rate, for every superframe so far.
  ghost function Rated(opt: Options, es: seq<Event>, t: nat): nat
    requires t < |opt.cra|
  {
    if es == [] then 0
    else Rated(opt, es[..|es| - 1], t) + if es[|es| - 1].Superframe? then opt.cra[t] + LastRate(es, t) else 0
  }

  // Bytes the burst plans so far give it.
  ghost function Granted(cfg: Config, opt: Options, es: seq<Event>, t: nat): nat
    requires ValidOptions(cfg, opt) && ValidEvents(cfg, es) && Run(cfg, opt, es).Some?
  {
    if es == [] then 0
    else
      var before := es[..|es| - 1];
      Granted(cfg, opt, before, t) +
      if es[|es| - 1].Superframe? then PlanBytes(Plan(cfg, opt, Run(cfg, opt, before).value).plan, t) else 0
  }

  // Bytes cut so far: at every superframe, what was owed beyond max_req_buf_.
  ghost function Cut(cfg: Config, opt: Options, es: seq<Event>, t: nat): nat
    requires ValidOptions(cfg, opt) && ValidEvents(cfg, es) && Run(cfg, opt, es).Some? && t < |cfg.rules|
  {
    if es == [] then 0
    else
      var before := es[..|es| - 1];
      Cut(cfg, opt, before, t) +
      if es[|es| - 1].Superframe? then Excess(opt, Owed(cfg, opt, Run(cfg, opt, before).value, t)) else 0
  }

  ghost function Excess(opt: Options, owed: int): nat {
    if owed > opt.maxReq then owed - opt.maxReq else 0
  }

  // The books of t agree with the events.
  ghost predicate Told(cfg: Config, opt: Options, es: seq<Event>, t: nat, y: System)
    requires ValidOptions(cfg, opt) && ValidEvents(cfg, es) && Run(cfg, opt, es) == Some(y) && t < |cfg.rules|
  {
    var b := y.books[t];
    && y.rate[t] == LastRate(es, t) && y.volume[t] == Reported(es, t) - Entered(es, t)
    && b.rated == Rated(opt, es, t) && b.received == Reported(es, t) && b.entered == Entered(es, t)
    && b.granted == Granted(cfg, opt, es, t) && b.cut == Cut(cfg, opt, es, t)
  }

  // The run so far has come to y.
  ghost predicate Reaches(cfg: Config, opt: Options, es: seq<Event>, y: System) {
    ValidOptions(cfg, opt) && ValidEvents(cfg, es) && Run(cfg, opt, es) == Some(y)
  }

  lemma ReportTold(cfg: Config, opt: Options, before: seq<Event>, e: Event, t: nat, y: System)
    requires Reaches(cfg, opt, before, y) && t < |cfg.rules| && e.Report? && e.t < |cfg.rules|
    requires Told(cfg, opt, before, t, y)
    ensures var es, y' := before + [e], Receive(y, e.t, e.rate, e.volume);
            Reaches(cfg, opt, es, y') && Told(cfg, opt, es, t, y')
  {
    assert (before + [e])[..|before|] == before;
  }

  lemma SuperframeRuns(cfg: Config, opt: Options, before: seq<Event>, y: System)
    requires Reaches(cfg, opt, before, y) && Returns(cfg, opt, y)
    ensures Reaches(cfg, opt, before + [Event.Superframe], Settle(cfg, opt, y, Plan(cfg, opt, y)))
  {
    assert (before + [Event.Superframe])[..|before|] == before;
  }

  lemma SuperframeCounts(cfg: Config, opt: Options, before: seq<Event>, t: nat, y: System)
    requires Reaches(cfg, opt, before, y) && Returns(cfg, opt, y) && t < |cfg.rules|
    ensures var es := before + [Event.Superframe];
            && LastRate(es, t) == LastRate(before, t) && Reported(es, t) == Reported(before, t) == Entered(es, t)
            && Rated(opt, es, t) == Rated(opt, before, t) + opt.cra[t] + LastRate(before, t)
            && ValidEvents(cfg, es) && Run(cfg, opt, es).Some?
            && Granted(cfg, opt, es, t) == Granted(cfg, opt, before, t) + PlanBytes(Plan(cfg, opt, y).plan, t)
            && Cut(cfg, opt, es, t) == Cut(cfg, opt, before, t) + Excess(opt, Owed(cfg, opt, y, t))
  {
    SuperframeRuns(cfg, opt, before, y);
    assert (before + [Event.Superframe])[..|before|] == before;
  }

  lemma PlanGrants(cfg: Config, opt: Options, y: System, t: nat) returns (s: State)
    requires ValidSystem(cfg, opt, y) && Returns(cfg, opt, y) && t < |cfg.rules|
    ensures s == Plan(cfg, opt, y) && s.granted[t] == PlanBytes(s.plan, t)
  {
    s := Plan(cfg, opt, y);
    PlanBalances(cfg, opt, y, s, t);
  }

  lemma SuperframeTold(cfg: Config, opt: Options, before: seq<Event>, t: nat, y: System)
    requires Reaches(cfg, opt, before, y) && Returns(cfg, opt, y) && t < |cfg.rules| && Told(cfg, opt, before, t, y)
    ensures var es, y' := before + [Event.Superframe], Settle(cfg, opt, y, Plan(cfg, opt, y));
            Reaches(cfg, opt, es, y') && Told(cfg, opt, es, t, y')
  {
    SuperframeRuns(cfg, opt, before, y);
    SuperframeCounts(cfg, opt, before, t, y);
    var s := PlanGrants(cfg, opt, y, t);
    SettleBooks(cfg, opt, y, s, t);
    CarriedOver(cfg, opt, y, t);
  }

  lemma SettleBooks(cfg: Config, opt: Options, y: System, s: State, t: nat)
    requires ValidSystem(cfg, opt, y) && Shape(cfg, s) && t < |cfg.rules|
    requires forall u | 0 <= u < |cfg.rules| :: 0 <= s.granted[u]
    ensures var b, y' := y.books[t], Settle(cfg, opt, y, s);
            && y'.rate[t] == y.rate[t] && y'.volume[t] == 0
            && y'.books[t] == b.(rated := b.rated + opt.cra[t] + y.rate[t], entered := b.entered + y.volume[t],
                                 granted := b.granted + s.granted[t], cut := y'.books[t].cut,
                                   forgiven := y'.books[t].forgiven)
  {
  }

  // A rate counts once for every superframe until it is replaced; a volume counts once,
  // at the first superframe after it.
  lemma {:induction false} BooksAreEvents(cfg: Config, opt: Options, es: seq<Event>, t: nat, y: System)
    requires Reaches(cfg, opt, es, y) && t < |cfg.rules|
    ensures Told(cfg, opt, es, t, y)
  {
    if es != [] {
      var before, e := es[..|es| - 1], es[|es| - 1];
      LastApart(es);
      var y0 := Run(cfg, opt, before).value;
      BooksAreEvents(cfg, opt, before, t, y0);
      if e.Superframe? {
        SuperframeTold(cfg, opt, before, t, y0);
      } else {
        ReportTold(cfg, opt, before, e, t, y0);
      }
    }
  }

  // Over every run: what the plans give a terminal, plus what is still in its deficit and
  // what max_req_buf_ cut, is what it was given a rate for and asked for, plus the debt
  // forgiven; with debt carried over, grants stay within what was asked for plus one
  // burst minus one.
  lemma GrantsWithinRequests(cfg: Config, opt: Options, es: seq<Event>, t: nat, y: System)
    requires Reaches(cfg, opt, es, y) && t < |cfg.rules|
    ensures Granted(cfg, opt, es, t) + y.deficit[t] + Cut(cfg, opt, es, t) ==
            Rated(opt, es, t) + Entered(es, t) + y.books[t].forgiven
    ensures !opt.forget ==>
              Granted(cfg, opt, es, t) <= Rated(opt, es, t) + Reported(es, t) + LargestBurst(cfg.frames) - 1
  {
    BooksAreEvents(cfg, opt, es, t, y);
    RunKeepsAccount(cfg, opt, es, t);
  }
}
