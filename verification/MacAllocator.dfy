// The allocator object: frames, terminals and ledgers updated in place.
module MacAllocator {
  import opened Optional
  import opened Superframe
  import opened Scheduler
  import opened Superframes
  import opened StaleFrame
  import opened TerminalMask

  const MAX_CARR: nat := 20
  const MAX_SLOTS: nat := 256
  const NOTHING_TO_SEND := -2

  // The timeslot grid of one frame.
  class Frame {
    const dim: FrameDim
    const cells: array2<int>

    ghost predicate Valid() {
      && 1 <= dim.timeslots <= MAX_SLOTS && dim.carriers <= MAX_CARR
      && cells.Length0 == MAX_CARR && cells.Length1 == MAX_SLOTS
    }

    constructor (carriers: nat, timeslots: nat, burst: nat)
      requires carriers <= MAX_CARR && 1 <= timeslots <= MAX_SLOTS
      ensures Valid() && fresh(cells) && dim == FrameDim(carriers, timeslots, burst)
    {
      dim := FrameDim(carriers, timeslots, burst);
      cells := new int[MAX_CARR, MAX_SLOTS];
    }

    method Reset()
      requires Valid()
      modifies cells
      ensures forall i, j | 0 <= i < dim.carriers && 0 <= j < dim.timeslots :: cells[i, j] == NOTHING_TO_SEND
    {
      for i := 0 to dim.carriers
        invariant forall k, j | 0 <= k < i && 0 <= j < dim.timeslots :: cells[k, j] == NOTHING_TO_SEND
      {
        for j := 0 to dim.timeslots
          invariant forall k, l | 0 <= k < i && 0 <= l < dim.timeslots :: cells[k, l] == NOTHING_TO_SEND
          invariant forall l | 0 <= l < j :: cells[i, l] == NOTHING_TO_SEND
        {
          cells[i, j] := NOTHING_TO_SEND;
        }
      }
    }
  }

  // The terminal burst time plan: slotNum entries of bdes are in use.
  class Tbtp {
    var slotNum: nat
    const bdes: array<Burst>

    constructor ()
      ensures slotNum == 0 && bdes.Length == MAX_SLOTS && fresh(bdes)
    {
      slotNum := 0;
      bdes := new Burst[MAX_SLOTS](i => Burst(0, 0.0, 0));
    }

    ghost predicate Valid()
      reads this
    {
      bdes.Length == MAX_SLOTS && slotNum <= MAX_SLOTS
    }

    ghost function Entries(): (es: seq<Burst>)
      requires Valid()
      reads this, bdes
    {
      bdes[..slotNum]
    }
  }

  class AllocatorMFTDMA {
    const nodes: nat
    const duration: real
    const mode: Mode
    const layout: Layout
    const threshold: int
    const maxReq: nat
    const forget: bool

    const sf: seq<Frame>
    const tr: seq<Terminal>
    const maskSize: nat
    const slotCount: nat

    const deficit: array<int>
    const a: array<int>
    const constRate: array<nat>
    const reqRate: array<nat>
    const reqVolume: array<nat>

    var freeSlots: int
    var leftToCheck: int
    var curTerm: nat

    // Where each burst of the current plan was placed, and the run's books.
    ghost var cells: seq<Cell>
    ghost var books: seq<Book>

    // Frames are added one by one, each multiplying the mask size and adding its slots.
    static method MakeFrames(dims: seq<FrameDim>) returns (frames: seq<Frame>, size: nat, slots: nat)
      requires forall f | 0 <= f < |dims| :: dims[f].carriers <= MAX_CARR && 1 <= dims[f].timeslots <= MAX_SLOTS
      ensures |frames| == |dims| && size == MaskSize(dims) && slots == SlotCount(dims)
      ensures forall f | 0 <= f < |frames| :: frames[f].Valid() && frames[f].dim == dims[f] && fresh(frames[f].cells)
      ensures forall f, g | 0 <= f < g < |frames| :: frames[f].cells != frames[g].cells
    {
      frames, size, slots := [], 1, 0;
      while |frames| < |dims|
        invariant |frames| <= |dims|
        invariant size == MaskSize(dims[..|frames|]) && slots == SlotCount(dims[..|frames|])
        invariant forall f | 0 <= f < |frames| ::
                    frames[f].Valid() && frames[f].dim == dims[f] && fresh(frames[f].cells)
        invariant forall f, g | 0 <= f < g < |frames| :: frames[f].cells != frames[g].cells
      {
        var d := dims[|frames|];
        OneMoreFrame(dims, |frames|);
        var frame := new Frame(d.carriers, d.timeslots, d.burst);
        size, slots := size * d.timeslots, slots + d.carriers * d.timeslots;
        frames := frames + [frame];
      }
      assert dims[..|frames|] == dims;
    }

    static method MakeTerminals(rules: seq<seq<Rule>>) returns (terms: seq<Terminal>)
      ensures |terms| == |rules|
      ensures forall t | 0 <= t < |terms| ::
                terms[t].Valid() && terms[t].id == t && terms[t].rules == rules[t] && fresh(terms[t].bytes)
      ensures forall t, u | 0 <= t < u < |terms| :: terms[t].bytes != terms[u].bytes
    {
      terms := [];
      while |terms| < |rules|
        invariant |terms| <= |rules|
        invariant forall t | 0 <= t < |terms| ::
                    terms[t].Valid() && terms[t].id == t && terms[t].rules == rules[t] && fresh(terms[t].bytes)
        invariant forall t, u | 0 <= t < u < |terms| :: terms[t].bytes != terms[u].bytes
      {
        var term := new Terminal(|terms|, rules[|terms|]);
        terms := terms + [term];
      }
    }

    static method Create(dims: seq<FrameDim>, rules: seq<seq<Rule>>, opt: Options, duration: real,
                         mode: Mode, layout: Layout, threshold: int) returns (al: AllocatorMFTDMA)
      requires forall f | 0 <= f < |dims| :: dims[f].carriers <= MAX_CARR && 1 <= dims[f].timeslots <= MAX_SLOTS
      requires MaskSize(dims) <= 8 * MSK_LEN && SlotCount(dims) <= MAX_SLOTS
      requires ValidOptions(Config(dims, duration, rules, mode, layout, threshold), opt)
      ensures al.Cfg() == Config(dims, duration, rules, mode, layout, threshold) && al.Opt() == opt
      ensures al.Running() && al.Standing() == Boot(al.Cfg())
    {
      var frames, size, slots := MakeFrames(dims);
      var terms := MakeTerminals(rules);
      al := new AllocatorMFTDMA(frames, terms, size, slots, opt, duration, mode, layout, threshold);
      assert al.Dims() == dims;
      assert al.Cfg().rules == rules;
    }

    constructor (frames: seq<Frame>, terms: seq<Terminal>, size: nat, slots: nat, opt: Options, duration: real,
                 mode: Mode, layout: Layout, threshold: int)
      ensures sf == frames && tr == terms && maskSize == size && slotCount == slots && nodes == |terms|
      ensures this.duration == duration && this.mode == mode && this.layout == layout && this.threshold == threshold
      ensures maxReq == opt.maxReq && forget == opt.forget
      ensures deficit.Length == a.Length == constRate.Length == reqRate.Length == reqVolume.Length == nodes
      ensures fresh(deficit) && fresh(a) && fresh(constRate) && fresh(reqRate) && fresh(reqVolume)
      ensures deficit != a && constRate != reqRate && constRate != reqVolume && reqRate != reqVolume
      ensures |opt.cra| == |terms| ==> constRate[..] == opt.cra
      ensures deficit[..] == reqRate[..] == reqVolume[..] == seq(|terms|, i => 0)
      ensures leftToCheck == 0 && curTerm == 0 && books == seq(|terms|, i => Superframes.Book(0, 0, 0, 0, 0, 0))
    {
      sf, tr, maskSize, slotCount, nodes := frames, terms, size, slots, |terms|;
      maxReq, forget := opt.maxReq, opt.forget;
      this.duration, this.mode, this.layout, this.threshold := duration, mode, layout, threshold;
      deficit := new int[|terms|](i => 0);
      a := new int[|terms|](i => 0);
      constRate := new nat[|terms|](i => if 0 <= i < |opt.cra| then opt.cra[i] else 0);
      reqRate := new nat[|terms|](i => 0);
      reqVolume := new nat[|terms|](i => 0);
      freeSlots, leftToCheck, curTerm, cells := 0, 0, 0, [];
      books := seq(|terms|, i => Superframes.Book(0, 0, 0, 0, 0, 0));
    }

    // ---------- Abstraction ----------

    ghost function Dims(): (ds: seq<FrameDim>) {
      seq(|sf|, f requires 0 <= f < |sf| => sf[f].dim)
    }

    ghost function Cfg(): (cfg: Config) {
      Config(Dims(), duration, seq(|tr|, t requires 0 <= t < |tr| => tr[t].rules), mode, layout, threshold)
    }

    // Constant facts about the object: nothing in it is shared, and the superframe is
    // within the limits the allocator was built for.
    ghost predicate Valid() {
      && (forall f | 0 <= f < |sf| :: sf[f].Valid())
      && (forall f, g | 0 <= f < g < |sf| :: sf[f].cells != sf[g].cells)
      && 0 < nodes == |tr|
      && (forall t | 0 <= t < nodes :: tr[t].Valid() && tr[t].id == t)
      && (forall t, u | 0 <= t < u < nodes :: tr[t].bytes != tr[u].bytes)
      && GridArrays() !! MaskArrays() !! Ledgers()
      && deficit.Length == a.Length == constRate.Length == reqRate.Length == reqVolume.Length == nodes
      && deficit != a && constRate != reqRate && constRate != reqVolume && reqRate != reqVolume
      && ValidConfig(Cfg())
      && maskSize == MaskSize(Dims()) <= 8 * MSK_LEN
      && slotCount == SlotCount(Dims()) <= MAX_SLOTS
    }

    ghost function GridArrays(): (os: set<object>) {
      set f | 0 <= f < |sf| :: sf[f].cells
    }

    ghost function MaskArrays(): (os: set<object>) {
      set t | 0 <= t < |tr| :: tr[t].bytes
    }

    ghost function Ledgers(): (os: set<object>) {
      {this as object, deficit as object, a as object, constRate as object, reqRate as object, reqVolume as object}
    }

    ghost function Grid(): (g: map<Cell, int>)
      requires Valid()
      reads GridArrays()
    {
      map c: Cell | c in Universe(Dims()) && InGrid(c) && sf[c.f].cells[c.i, c.j] != NOTHING_TO_SEND ::
        sf[c.f].cells[c.i, c.j]
    }

    ghost predicate InGrid(c: Cell) {
      c.f < |sf| && c.i < sf[c.f].dim.carriers && c.j < sf[c.f].dim.timeslots
    }

    ghost function Masks(): (ms: seq<set<nat>>)
      requires Valid()
      reads MaskArrays()
    {
      seq(nodes, t requires 0 <= t < nodes reads MaskArrays() => tr[t].Mask(maskSize))
    }

    // ---------- Placing a burst ----------

    method SetCell(f: nat, i: nat, j: nat, t: nat)
      requires Valid() && InFrame(Dims(), Cell(f, i, j))
      modifies sf[f].cells
      ensures Grid() == old(Grid())[Cell(f, i, j) := t]
    {
      sf[f].cells[i, j] := t;
    }

    method MarkSlot(f: nat, i: nat, j: nat, t: nat)
      requires Valid() && t < nodes && InFrame(Dims(), Cell(f, i, j))
      modifies tr[t].bytes
      ensures Masks() == old(Masks())[t := old(Masks())[t] + Bits(Dims(), Cell(f, i, j))]
    {
      SlotFits(Dims(), Cell(f, i, j));
      tr[t].SetMask(j, maskSize / sf[f].dim.timeslots);
    }

    // Gives cell (f, i, j) to terminal t, in the grid and in the terminal's bitmap.
    method Occupy(f: nat, i: nat, j: nat, t: nat) returns (offset: real)
      requires Valid() && t < nodes && InFrame(Dims(), Cell(f, i, j))
      modifies sf[f].cells, tr[t].bytes
      ensures Outcome(Some(Cell(f, i, j)), t, offset, old(Grid()), old(Masks()))
    {
      ghost var g, ms := Grid(), Masks();
      assert sf[f].cells in GridArrays() && tr[t].bytes in MaskArrays();
      SetCell(f, i, j, tr[t].id);
      assert Masks() == ms;
      ghost var g' := Grid();
      MarkSlot(f, i, j, t);
      assert Grid() == g';
      offset := j as real * duration / sf[f].dim.timeslots as real;
      assert offset == Start(Dims(), duration, Cell(f, i, j)) >= 0.0 by {
        SlotInside(Dims(), duration, Cell(f, i, j));
      }
    }

    // The test made at every cell of a frame.
    method IsOpen(f: nat, i: nat, j: nat, t: nat) returns (ok: bool)
      requires Valid() && t < nodes && InFrame(Dims(), Cell(f, i, j))
      ensures ok <==> Open(Cfg(), Grid(), Masks()[t], Cell(f, i, j))
    {
      SlotFits(Dims(), Cell(f, i, j));
      var fp, tp := sf[f], tr[t];
      ok := fp.cells[i, j] == NOTHING_TO_SEND;
      if ok {
        ok := tp.TestMask(j, maskSize / fp.dim.timeslots);
      }
    }

    // The first open timeslot of carrier i, or all of its timeslots.
    method ScanRow(f: nat, i: nat, t: nat) returns (j: nat)
      requires Valid() && f < |sf| && i < sf[f].dim.carriers && t < nodes
      ensures j <= sf[f].dim.timeslots
      ensures forall k | 0 <= k < j :: !Open(Cfg(), Grid(), Masks()[t], Cell(f, i, k))
      ensures j < sf[f].dim.timeslots ==> Open(Cfg(), Grid(), Masks()[t], Cell(f, i, j))
    {
      ghost var cfg, g, m := Cfg(), Grid(), Masks()[t];
      j := 0;
      while j < sf[f].dim.timeslots
        invariant j <= sf[f].dim.timeslots
        invariant forall k | 0 <= k < j :: !Open(cfg, g, m, Cell(f, i, k))
      {
        var ok := IsOpen(f, i, j, t);
        if ok {
          return;
        }
        j := j + 1;
      }
    }

    // The scan of firstfit.
    method ScanFirst(f: nat, t: nat) returns (r: Option<Cell>)
      requires Valid() && f < |sf| && t < nodes
      ensures IsFit(Cfg(), Grid(), Masks()[t], Layout.FirstFit, f, r)
    {
      ghost var cfg, g, m := Cfg(), Grid(), Masks()[t];
      for i := 0 to sf[f].dim.carriers
        invariant forall c: Cell | Open(cfg, g, m, c) && c.f == f :: i <= c.i
      {
        var j := ScanRow(f, i, t);
        forall c: Cell | Open(cfg, g, m, c) && c.f == f ensures i < c.i || (c.i == i && j <= c.j) {
          assert c == Cell(c.f, c.i, c.j);
        }
        if j < sf[f].dim.timeslots {
          return Some(Cell(f, i, j));
        }
      }
      return None;
    }

    // The scan of bestfit.
    method ScanBest(f: nat, t: nat) returns (r: Option<Cell>)
      requires Valid() && f < |sf| && t < nodes
      ensures IsFit(Cfg(), Grid(), Masks()[t], Layout.BestFit, f, r)
    {
      ghost var cfg, g, m := Cfg(), Grid(), Masks()[t];
      var carriers, timeslots := sf[f].dim.carriers, sf[f].dim.timeslots;
      WidthExact(cfg.frames, f);
      var iOpt, jOpt: nat := -1, maskSize;
      for i := 0 to carriers
        invariant BestBefore(cfg, g, m, f, iOpt, jOpt, i, 0)
      {
        for j := 0 to timeslots
          invariant BestBefore(cfg, g, m, f, iOpt, jOpt, i, j)
        {
          var ok := IsOpen(f, i, j, t);
          BestNext(cfg, g, m, f, iOpt, jOpt, i, j);
          if ok && j < jOpt {
            iOpt, jOpt := i, j;
          }
        }
        BestNextRow(cfg, g, m, f, iOpt, jOpt, i);
      }
      r := if iOpt < 0 then None else Some(Cell(f, iOpt, jOpt));
    }

    // Takes the cell found, or reports that there is none.
    method Take(found: Option<Cell>, f: nat, t: nat, ghost g: map<Cell, int>, ghost ms: seq<set<nat>>)
      returns (offset: real)
      requires Valid() && f < |sf| && t < nodes && g == Grid() && ms == Masks()
      requires found.Some? ==> found.value.f == f && InFrame(Dims(), found.value)
      modifies sf[f].cells, tr[t].bytes
      ensures Outcome(found, t, offset, g, ms)
    {
      offset := -1.0;
      if found.Some? {
        offset := Occupy(f, found.value.i, found.value.j, t);
      }
    }

    method FirstFit(f: nat, t: nat) returns (offset: real, ghost r: Option<Cell>)
      requires Valid() && f < |sf| && t < nodes
      modifies sf[f].cells, tr[t].bytes
      ensures IsFit(Cfg(), old(Grid()), old(Masks())[t], Layout.FirstFit, f, r)
      ensures Outcome(r, t, offset, old(Grid()), old(Masks()))
    {
      ghost var g, ms := Grid(), Masks();
      var found := ScanFirst(f, t);
      assert Grid() == g && Masks() == ms;
      r := found;
      offset := Take(found, f, t, g, ms);
    }

    method BestFit(f: nat, t: nat) returns (offset: real, ghost r: Option<Cell>)
      requires Valid() && f < |sf| && t < nodes
      modifies sf[f].cells, tr[t].bytes
      ensures IsFit(Cfg(), old(Grid()), old(Masks())[t], Layout.BestFit, f, r)
      ensures Outcome(r, t, offset, old(Grid()), old(Masks()))
    {
      ghost var g, ms := Grid(), Masks();
      var found := ScanBest(f, t);
      assert Grid() == g && Masks() == ms;
      r := found;
      offset := Take(found, f, t, g, ms);
    }

    // What a fit attempt did: nothing, or one cell given to t from time offset on.
    ghost predicate Outcome(r: Option<Cell>, t: nat, offset: real, g: map<Cell, int>, ms: seq<set<nat>>)
      requires Valid() && t < |ms|
      requires r.Some? ==> InFrame(Dims(), r.value)
      reads GridArrays(), MaskArrays()
    {
      match r
      case None => offset < 0.0 && Grid() == g && Masks() == ms
      case Some(c) =>
        && offset == Start(Dims(), duration, c) >= 0.0
        && Grid() == g[c := t]
        && Masks() == ms[t := ms[t] + Bits(Dims(), c)]
    }
 
    // ---------- assign_timeslot ----------

    // The plan does not share storage with the allocator.
    ghost predicate Apart(p: Tbtp) {
      && p.bdes.Length == MAX_SLOTS
      && p !in GridArrays() && p !in MaskArrays() && p !in Ledgers()
      && p.bdes !in GridArrays() && p.bdes !in MaskArrays() && p.bdes !in Ledgers()
    }

    // The scheduler state, with the first t entries of the plan in use.
    ghost function Now(p: Tbtp, t: nat): (s: State)
      requires Valid() && Apart(p) && t <= MAX_SLOTS
      reads this`freeSlots, this`leftToCheck, this`curTerm, this`cells, deficit, a, p.bdes, GridArrays(), MaskArrays()
    {
      State(deficit[..], a[..], freeSlots, leftToCheck, curTerm, Grid(), Masks(), p.bdes[..t], cells)
    }

    // The inner do-while loop: s is the scheduler state before it.
    method SeekTerminal(ghost cfg: Config, ghost s: State)
      requires |cfg.rules| == nodes && Shape(cfg, s) && 1 <= s.left
      requires s.deficit == deficit[..] && s.cur == curTerm && s.left == leftToCheck
      modifies this`curTerm, this`leftToCheck
      ensures curTerm == Advance(cfg, s).cur && leftToCheck == Advance(cfg, s).left
    {
      NextIsModulo(curTerm, nodes);
      leftToCheck := leftToCheck - 1;
      curTerm := (curTerm + 1) % nodes;
      ghost var q := s.(left := s.left - 1, cur := Next(cfg, s.cur));
      while deficit[curTerm] <= 0 && leftToCheck != 0
        invariant Shape(cfg, q) && q.deficit == deficit[..] && q.cur == curTerm && q.left == leftToCheck
        invariant Advance(cfg, s) == Pending(cfg, q)
        decreases leftToCheck
      {
        NextIsModulo(curTerm, nodes);
        leftToCheck := leftToCheck - 1;
        curTerm := (curTerm + 1) % nodes;
        q := q.(left := q.left - 1, cur := Next(cfg, q.cur));
      }
    }

    // Where the do-while goes from the end of one of its turns.
    static ghost function Pending(cfg: Config, q: State): State
      requires Shape(cfg, q)
    {
      if q.deficit[q.cur] <= 0 && 0 < q.left then Advance(cfg, q) else q
    }

    // The locals frame and offset hold what held says: None stands for a frame never set,
    // -1 for a null one.
    ghost predicate Locals(frame: Option<int>, offset: real, held: Held)
      requires Valid()
    {
      match held
      case Unset => frame == None
      case Null => frame == Some(-1)
      case Kept(c) => frame == Some(c.f) && InFrame(Dims(), c) && offset == Start(Dims(), duration, c)
    }

    // The loop over the rules of terminal t. When no rule applies, frame and offset keep
    // the values they had before.
    method TryFrames(t: nat, stale: Option<int>, staleOffset: real)
      returns (frame: Option<int>, offset: real, ghost r: Option<Cell>)
      requires Valid() && t < nodes
      modifies GridArrays(), MaskArrays()
      ensures r == TryRules(Cfg(), old(Grid()), old(Masks())[t], deficit[t], t, 0)
      ensures !HasRule(Cfg(), t, deficit[t]) ==> frame == stale && offset == staleOffset
      ensures HasRule(Cfg(), t, deficit[t]) ==> frame == Some(if r.Some? then r.value.f else -1)
      ensures r.Some? ==> Outcome(r, t, offset, old(Grid()), old(Masks()))
      ensures r == None ==> Grid() == old(Grid()) && Masks() == old(Masks())
    {
      ghost var cfg, g, ms := Cfg(), Grid(), Masks();
      var rules := tr[t].rules;
      frame, offset, r := stale, staleOffset, None;
      var i := 0;
      while i < |rules|
        invariant i <= |rules|
        invariant Grid() == g && Masks() == ms && r == None
        invariant TryRules(cfg, g, ms[t], deficit[t], t, 0) == TryRules(cfg, g, ms[t], deficit[t], t, i)
        invariant if forall k | 0 <= k < i :: !Applies(cfg, rules[k], deficit[t])
                  then frame == stale && offset == staleOffset else frame == Some(-1)
      {
        if !(rules[i].small && deficit[t] > threshold) {
          assert Applies(cfg, rules[i], deficit[t]);
          frame := Some(rules[i].frame);
          offset, r := Attempt(rules[i].frame, t);
          if offset >= 0.0 {
            return;
          }
          frame := Some(-1);
        }
        i := i + 1;
      }
    }

    // One attempt, by the layout in force.
    method Attempt(f: nat, t: nat) returns (offset: real, ghost r: Option<Cell>)
      requires Valid() && f < |sf| && t < nodes
      modifies GridArrays(), MaskArrays()
      ensures r == Fit(Cfg(), old(Grid()), old(Masks())[t], layout, f)
      ensures Outcome(r, t, offset, old(Grid()), old(Masks()))
    {
      assert sf[f].cells in GridArrays() && tr[t].bytes in MaskArrays();
      ghost var g, m := Grid(), Masks()[t];
      match layout {
        case FirstFit => offset, r := FirstFit(f, t);
        case BestFit => offset, r := BestFit(f, t);
      }
      FitUnique(Cfg(), g, m, layout, f, r, Fit(Cfg(), g, m, layout, f));
    }

    // Books one burst of the given frame for terminal t: ledgers and plan entry k.
    method Book(p: Tbtp, k: nat, t: nat, frame: nat, offset: real, ghost c: Cell)
      requires Valid() && Apart(p) && k < MAX_SLOTS && t < nodes && frame < |sf|
      modifies this`freeSlots, this`cells, deficit, a, p.bdes
      ensures Now(p, k + 1) == Booked(old(Now(p, k)), t, Burst(t, offset, sf[frame].dim.burst), c)
    {
      assert this in Ledgers() && deficit in Ledgers() && a in Ledgers();
      ghost var plan := p.bdes[..k];
      ghost var g, ms := Grid(), Masks();
      var size := sf[frame].dim.burst;
      freeSlots := freeSlots - 1;
      deficit[t] := deficit[t] - size;
      p.bdes[k] := Burst(t, offset, size);
      a[t] := a[t] + size;
      cells := cells + [c];
      assert p.bdes[..k + 1] == plan + [Burst(t, offset, size)];
      assert Grid() == g;
      assert Masks() == ms;
    }

    static ghost function Booked(s: State, t: nat, b: Burst, c: Cell): State
      requires t < |s.deficit| && t < |s.granted|
    {
      s.(deficit := s.deficit[t := s.deficit[t] - b.size], granted := s.granted[t := s.granted[t] + b.size],
         free := s.free - 1, plan := s.plan + [b], cells := s.cells + [c])
    }

    // Tries to give the terminal under the cursor one burst. Without a rule that applies it
    // is given that of the frame left over, if any.
    method Grant(p: Tbtp, k: nat, stale: Option<int>, staleOffset: real, ghost held: Held)
      returns (k': nat, frame: Option<int>, offset: real, ghost held': Held)
      requires Valid() && Apart(p) && k < MAX_SLOTS && Locals(stale, staleOffset, held)
      requires Shape(Cfg(), Now(p, k))
      modifies this`freeSlots, this`cells, deficit, a, p.bdes, GridArrays(), MaskArrays()
      ensures k' <= MAX_SLOTS && Locals(frame, offset, held') && held' == Tried(Cfg(), old(Loop(Now(p, k), held)))
      ensures Now(p, k') == if held'.Kept? then Booking(Cfg(), old(Now(p, k)), held'.cell) else old(Now(p, k))
    {
      ghost var s := Now(p, k);
      ghost var r;
      frame, offset, r := TryFrames(curTerm, stale, staleOffset);
      assert r == Choice(Cfg(), s, s.cur);
      held' := Tried(Cfg(), Loop(s, held));
      HeldNow(frame, offset, stale, staleOffset, s, held, r);
      k' := k;
      if frame != None && frame != Some(-1) {
        ghost var s1 := Now(p, k);
        assert s1 == if HasRule(Cfg(), s.cur, s.deficit[s.cur]) then Marked(Cfg(), s, held'.cell) else s;
        Book(p, k, curTerm, frame.value, offset, held'.cell);
        k' := k + 1;
        BookedIsBooking(Cfg(), s, s1, held'.cell);
      }
    }

    // What the locals hold after the rules have been tried.
    lemma HeldNow(frame: Option<int>, offset: real, stale: Option<int>, staleOffset: real, s: State, held: Held,
                  r: Option<Cell>)
      requires Valid() && Shape(Cfg(), s) && Locals(stale, staleOffset, held) && r == Choice(Cfg(), s, s.cur)
      requires !HasRule(Cfg(), s.cur, s.deficit[s.cur]) ==> frame == stale && offset == staleOffset
      requires HasRule(Cfg(), s.cur, s.deficit[s.cur]) ==> frame == Some(if r.Some? then r.value.f else -1)
      requires r.Some? ==> InFrame(Dims(), r.value) && offset == Start(Dims(), duration, r.value)
      ensures Locals(frame, offset, Tried(Cfg(), Loop(s, held)))
      ensures !HasRule(Cfg(), s.cur, s.deficit[s.cur]) ==> r == None
    {
      if !HasRule(Cfg(), s.cur, s.deficit[s.cur]) {
        NoRuleNoChoice(Cfg(), s, s.cur);
      }
    }

    // Sets the budget and the cursor.
    method Move(p: Tbtp, k: nat, left: int, cur: nat)
      requires Valid() && Apart(p) && k <= MAX_SLOTS
      modifies this`leftToCheck, this`curTerm
      ensures Now(p, k) == old(Now(p, k)).(left := left, cur := cur)
    {
      assert this in Ledgers();
      leftToCheck, curTerm := left, cur;
    }

    // The rest of a turn, once the cursor has found a terminal that asks; ok is false where
    // the source goes on with a frame never set.
    method ServeTerminal(p: Tbtp, k: nat, stale: Option<int>, staleOffset: real, ghost held: Held)
      returns (ok: bool, k': nat, frame: Option<int>, offset: real, ghost held': Held)
      requires Valid() && Apart(p) && k < MAX_SLOTS && Locals(stale, staleOffset, held)
      requires Shape(Cfg(), Now(p, k)) && 0 < leftToCheck
      modifies this`freeSlots, this`leftToCheck, this`curTerm, this`cells
      modifies deficit, a, p.bdes, GridArrays(), MaskArrays()
      ensures k' <= MAX_SLOTS && Locals(frame, offset, held')
      ensures RawServe(Cfg(), old(Loop(Now(p, k), held))) == if ok then Some(Loop(Now(p, k'), held')) else None
    {
      k', frame, offset, held' := Grant(p, k, stale, staleOffset, held);
      ok := frame != None;
      if !ok {
        return;
      }
      MoveOn(p, k', frame != Some(-1));
    }

    // The end of a turn: the budget, and on to the next terminal.
    method MoveOn(p: Tbtp, k: nat, booked: bool)
      requires Valid() && Apart(p) && k <= MAX_SLOTS && Shape(Cfg(), Now(p, k))
      modifies this`leftToCheck, this`curTerm
      ensures Now(p, k) == Onward(Cfg(), old(Now(p, k)), booked)
    {
      ghost var s := Now(p, k);
      NextIsModulo(curTerm, nodes);
      var left, cur := leftToCheck, curTerm;
      if booked {
        if mode == SlotMode {
          left := nodes;
        }
      } else if mode == ContMode {
        left := left - 1;
        cur := (cur + 1) % nodes;
      }
      if mode == SlotMode {
        cur := (cur + 1) % nodes;
      }
      Move(p, k, left, cur);
      assert Now(p, k) == s.(left := left, cur := cur);
    }

    // One turn of the outer loop.
    method Turn(p: Tbtp, k: nat, stale: Option<int>, staleOffset: real, ghost held: Held)
      returns (ok: bool, k': nat, frame: Option<int>, offset: real, ghost held': Held)
      requires Valid() && Apart(p) && k < MAX_SLOTS && Locals(stale, staleOffset, held)
      requires Shape(Cfg(), Now(p, k)) && 0 < leftToCheck
      modifies this`freeSlots, this`leftToCheck, this`curTerm, this`cells
      modifies deficit, a, p.bdes, GridArrays(), MaskArrays()
      ensures k' <= MAX_SLOTS && Locals(frame, offset, held')
      ensures RawStep(Cfg(), old(Loop(Now(p, k), held))) == if ok then Some(Loop(Now(p, k'), held')) else None
    {
      ghost var s := Now(p, k);
      ok, frame, offset, held', k' := true, stale, staleOffset, held, k;
      if deficit[curTerm] <= 0 {
        SeekTerminal(Cfg(), s);
        if leftToCheck == 0 {
          return;
        }
      }
      assert Now(p, k) == Seek(Cfg(), s);
      ok, k', frame, offset, held' := ServeTerminal(p, k, stale, staleOffset, held);
    }

    // The loop, from entry k on; trace lists where it is at the start of its turns and at
    // the end.
    method TakeTurns(p: Tbtp, k: nat, ghost trace: seq<Loop>) returns (ok: bool, k': nat)
      requires Valid() && Apart(p) && k <= MAX_SLOTS && Trace(Cfg(), trace) && trace[0] == Loop(Now(p, k), Unset)
      modifies this`freeSlots, this`leftToCheck, this`curTerm, this`cells
      modifies deficit, a, p.bdes, GridArrays(), MaskArrays()
      ensures k' <= MAX_SLOTS && (ok <==> Done(trace[|trace| - 1].s)) && (ok ==> Now(p, k') == trace[|trace| - 1].s)
    {
      k' := k;
      var frame: Option<int>, offset := None, 0.0;
      ghost var i: nat, held := 0, Unset;
      ok := true;
      while freeSlots != 0 && leftToCheck != 0
        invariant ok && k' <= MAX_SLOTS && Locals(frame, offset, held)
        invariant i < |trace| && trace[i] == Loop(Now(p, k'), held)
        decreases |trace| - i
      {
        assert Link(Cfg(), trace, i);
        ok, k', frame, offset, held := Turn(p, k', frame, offset, held);
        if !ok {
          return;
        }
        i := i + 1;
      }
      assert Link(Cfg(), trace, i);
    }

    // The loop, which ends within turns turns; ok is false where the source goes on with a
    // frame never set.
    method AssignTimeslot(p: Tbtp, ghost turns: nat) returns (ok: bool)
      requires Valid() && Apart(p) && p.slotNum <= MAX_SLOTS && Counted(Cfg(), Now(p, p.slotNum))
      requires EndsWithin(Cfg(), Loop(Now(p, p.slotNum), Unset), turns)
      modifies this`freeSlots, this`leftToCheck, this`curTerm, this`cells, deficit, a
      modifies p`slotNum, p.bdes, GridArrays(), MaskArrays()
      ensures p.slotNum <= MAX_SLOTS
      ensures match RawSteps(Cfg(), old(Loop(Now(p, p.slotNum), Unset)), turns)
              case None => !ok
              case Some(l) => ok && Now(p, p.slotNum) == l.s
    {
      ghost var trace := TraceOf(Cfg(), Loop(Now(p, p.slotNum), Unset), turns);
      var k;
      ok, k := TakeTurns(p, p.slotNum, trace);
      assert p !in GridArrays() && p !in MaskArrays();
      p.slotNum := k;
    }

    // ---------- allocation ----------

    method ResetAllocator()
      requires Valid()
      modifies this`freeSlots, this`cells, a, GridArrays(), MaskArrays()
      ensures a[..] == seq(nodes, i => 0) && freeSlots == slotCount && cells == []
      ensures Grid() == map[] && Masks() == seq(nodes, i => {})
    {
      ResetGrants();
      assert this in Ledgers() && a in Ledgers();
      ResetFrames();
      ResetMasks();
      assert Grid() == map[] && a[..] == seq(nodes, i => 0);
      freeSlots := slotCount;
      cells := [];
    }

    method ResetGrants()
      requires Valid()
      modifies a
      ensures a[..] == seq(nodes, i => 0)
    {
      var i := 0;
      while i < nodes
        invariant i <= nodes && forall k | 0 <= k < i :: a[k] == 0
      {
        a[i] := 0;
        i := i + 1;
      }
    }

    method ResetFrames()
      requires Valid()
      modifies GridArrays()
      ensures Grid() == map[]
    {
      var i := 0;
      while i < |sf|
        invariant i <= |sf|
        invariant forall c: Cell | InGrid(c) && c.f < i :: sf[c.f].cells[c.i, c.j] == NOTHING_TO_SEND
      {
        assert sf[i].cells in GridArrays();
        sf[i].Reset();
        i := i + 1;
      }
    }

    method ResetMasks()
      requires Valid()
      modifies MaskArrays()
      ensures Masks() == seq(nodes, i => {})
    {
      var i := 0;
      while i < nodes
        invariant i <= nodes && forall t | 0 <= t < i :: tr[t].Mask(maskSize) == {}
      {
        assert tr[i].bytes in MaskArrays();
        tr[i].Reset(maskSize);
        i := i + 1;
      }
    }

    method InitRequestQueues(req: array<nat>)
      requires Valid() && req.Length == nodes && req in Ledgers() - {this, deficit as object}
      modifies deficit, this`leftToCheck
      ensures deficit[..] == seq(nodes, i requires 0 <= i < nodes => old(deficit[..])[i] + old(req[..])[i])
      ensures leftToCheck == nodes && req[..] == old(req[..])
    {
      ghost var before := deficit[..];
      var i := 0;
      while i < nodes
        invariant i <= nodes && req[..] == old(req[..])
        invariant forall k | 0 <= k < i :: deficit[k] == before[k] + req[k]
        invariant forall k | i <= k < nodes :: deficit[k] == before[k]
      {
        deficit[i] := deficit[i] + req[i];
        i := i + 1;
      }
      leftToCheck := nodes;
    }

    // The requests of a phase enter the deficits.
    method EnterRequests(p: Tbtp, req: array<nat>)
      requires Valid() && Apart(p) && p.slotNum <= MAX_SLOTS && Shape(Cfg(), Now(p, p.slotNum))
      requires req.Length == nodes && req in Ledgers() - {this, deficit as object, a as object}
      modifies this`leftToCheck, deficit
      ensures Now(p, p.slotNum) == Request(Cfg(), old(Now(p, p.slotNum)), old(req[..]))
    {
      ghost var g, ms := Grid(), Masks();
      assert this in Ledgers() && deficit in Ledgers();
      InitRequestQueues(req);
      assert Grid() == g;
      assert Masks() == ms;
    }

    // One request phase.
    method RequestPhase(p: Tbtp, req: array<nat>, ghost turns: nat) returns (ok: bool)
      requires Valid() && Apart(p) && p.slotNum <= MAX_SLOTS && Counted(Cfg(), Now(p, p.slotNum))
      requires req.Length == nodes && req in Ledgers() - {this, deficit as object, a as object}
      requires PhaseEnds(Cfg(), Now(p, p.slotNum), req[..], turns)
      modifies this`freeSlots, this`leftToCheck, this`curTerm, this`cells, deficit, a
      modifies p`slotNum, p.bdes, GridArrays(), MaskArrays()
      ensures p.slotNum <= MAX_SLOTS && Reached(p, ok, RawPhase(Cfg(), old(Now(p, p.slotNum)), old(req[..]), turns))
    {
      EnterRequests(p, req);
      ok := AssignTimeslot(p, turns);
    }

    // A phase failed, or ended in the state now.
    ghost predicate Reached(p: Tbtp, ok: bool, r: Option<State>)
      requires Valid() && Apart(p) && p.slotNum <= MAX_SLOTS
      reads this`freeSlots, this`leftToCheck, this`curTerm, this`cells, deficit, a, p`slotNum, p.bdes, GridArrays(),
        MaskArrays()
    {
      r == if ok then Some(Now(p, p.slotNum)) else None
    }

    // The VBDC phase, which forgets the volumes once they have entered the deficits.
    method VolumePhase(p: Tbtp, ghost turns: nat) returns (ok: bool)
      requires Valid() && Apart(p) && p.slotNum <= MAX_SLOTS && Counted(Cfg(), Now(p, p.slotNum))
      requires PhaseEnds(Cfg(), Now(p, p.slotNum), reqVolume[..], turns)
      modifies this`freeSlots, this`leftToCheck, this`curTerm, this`cells, deficit, a, reqVolume
      modifies p`slotNum, p.bdes, GridArrays(), MaskArrays()
      ensures p.slotNum <= MAX_SLOTS
      ensures Reached(p, ok, RawPhase(Cfg(), old(Now(p, p.slotNum)), old(reqVolume[..]), turns))
      ensures reqVolume[..] == seq(nodes, i => 0)
    {
      EnterVolumes(p);
      ok := AssignTimeslot(p, turns);
    }

    method EnterVolumes(p: Tbtp)
      requires Valid() && Apart(p) && p.slotNum <= MAX_SLOTS && Shape(Cfg(), Now(p, p.slotNum))
      modifies this`leftToCheck, deficit, reqVolume
      ensures Now(p, p.slotNum) == Request(Cfg(), old(Now(p, p.slotNum)), old(reqVolume[..]))
      ensures reqVolume[..] == seq(nodes, i => 0)
    {
      EnterRequests(p, reqVolume);
      ghost var g, ms := Grid(), Masks();
      assert reqVolume in Ledgers();
      ClearVolumes();
      assert Grid() == g;
      assert Masks() == ms;
    }

    method ClearVolumes()
      requires Valid()
      modifies reqVolume
      ensures reqVolume[..] == seq(nodes, i => 0)
    {
      var i := 0;
      while i < nodes
        invariant i <= nodes && forall k | 0 <= k < i :: reqVolume[k] == 0
      {
        reqVolume[i] := 0;
        i := i + 1;
      }
    }

    // Cuts deficits to max_req_buf_, then forgives debts if so configured.
    method ClipDeficits()
      requires Valid()
      modifies deficit
      ensures deficit[..] == seq(nodes, t requires 0 <= t < nodes => Clip(maxReq, forget, old(deficit[..])[t]))
    {
      ghost var before := deficit[..];
      var i := 0;
      while i < nodes
        invariant i <= nodes
        invariant forall k | 0 <= k < i :: deficit[k] == Clip(maxReq, false, before[k])
        invariant forall k | i <= k < nodes :: deficit[k] == before[k]
      {
        if deficit[i] > maxReq {
          deficit[i] := maxReq;
        }
        i := i + 1;
      }
      if forget {
        i := 0;
        while i < nodes
          invariant i <= nodes
          invariant forall k | 0 <= k < i :: deficit[k] == Clip(maxReq, true, before[k])
          invariant forall k | i <= k < nodes :: deficit[k] == Clip(maxReq, false, before[k])
        {
          if deficit[i] < 0 {
            deficit[i] := 0;
          }
          i := i + 1;
        }
      }
    }

    // ---------- The allocator within a run ----------

    ghost function Opt(): Options
      reads constRate
    {
      Options(constRate[..], maxReq, forget)
    }

    ghost function Standing(): System
      requires Valid()
      reads this`curTerm, this`books, deficit, reqRate, reqVolume
    {
      System(deficit[..], reqRate[..], reqVolume[..], curTerm, books)
    }

    ghost predicate Running()
      reads this`curTerm, this`books, this`leftToCheck, deficit, constRate, reqRate, reqVolume
    {
      Valid() && ValidSystem(Cfg(), Opt(), Standing()) && 0 <= leftToCheck <= nodes
    }

    // A capacity request: the rate replaces the last one, the volume adds to what waits.
    method RcvReq(slotNum: nat, rate: nat, volume: nat)
      requires Running() && slotNum < nodes
      modifies this`books, reqRate, reqVolume
      ensures Running() && Some(Standing()) == React(Cfg(), Opt(), old(Standing()), Report(slotNum, rate, volume))
    {
      reqRate[slotNum] := rate;
      reqVolume[slotNum] := reqVolume[slotNum] + volume;
      books := books[slotNum := books[slotNum].(received := books[slotNum].received + volume)];
    }

    // One superframe whose phases end within the given turns: the plan, the grants and the
    // state left behind, or ok is false where the source goes on with a frame never set.
    method Allocation(ghost turns: Turns) returns (p: Tbtp, ok: bool)
      requires Running() && RawReturns(Cfg(), Opt(), Standing(), turns)
      modifies this`freeSlots, this`leftToCheck, this`curTerm, this`cells, this`books, deficit, a, reqVolume
      modifies GridArrays(), MaskArrays()
      ensures fresh(p) && fresh(p.bdes) && p.Valid()
      ensures match RawPlan(Cfg(), Opt(), old(Standing()), turns)
              case None => !ok
              case Some(s) =>
                && ok && Running() && Standing() == Settle(Cfg(), Opt(), old(Standing()), s)
                && p.Entries() == s.plan && a[..] == s.granted
    {
      ghost var y := Standing();
      p := new Tbtp();
      ok := ThreePhases(p, turns);
      if ok {
        CloseSuperframe(p, y, Now(p, p.slotNum));
      }
    }

    // The end of allocation(), once the last phase has left the state s.
    method CloseSuperframe(p: Tbtp, ghost y: System, ghost s: State)
      requires Valid() && ValidSystem(Cfg(), Opt(), y) && Counted(Cfg(), s) && Apart(p) && p.Valid() &&
               s == Now(p, p.slotNum)
      requires forall t | 0 <= t < |s.granted| :: 0 <= s.granted[t]
      requires y.rate == reqRate[..] && reqVolume[..] == seq(nodes, i => 0)
      modifies this`books, deficit
      ensures Running() && Standing() == Settle(Cfg(), Opt(), y, s)
      ensures p.Entries() == s.plan && a[..] == s.granted
    {
      ClipDeficits();
      books := Settle(Cfg(), Opt(), y, s).books;
    }

    // allocation() up to the end of the third phase.
    method ThreePhases(p: Tbtp, ghost turns: Turns) returns (ok: bool)
      requires Running() && RawReturns(Cfg(), Opt(), Standing(), turns) && Apart(p) && p.slotNum == 0
      modifies this`freeSlots, this`leftToCheck, this`curTerm, this`cells, deficit, a, reqVolume
      modifies p`slotNum, p.bdes, GridArrays(), MaskArrays()
      ensures p.slotNum <= MAX_SLOTS && Reached(p, ok, RawPlan(Cfg(), Opt(), old(Standing()), turns))
      ensures ok ==> reqVolume[..] == seq(nodes, i => 0)
    {
      ghost var cfg, opt, y := Cfg(), Opt(), Standing();
      ResetCounts(cfg, y.deficit, y.cur);
      StartOver(p);
      LeftIsReset(cfg, Reset(cfg, y.deficit, y.cur), leftToCheck, opt.cra, turns.cra);
      ok := RequestPhase(p, constRate, turns.cra);
      if ok {
        ok := LastPhases(p, turns);
      }
    }

    // The RBDC and VBDC phases.
    method LastPhases(p: Tbtp, ghost turns: Turns) returns (ok: bool)
      requires Valid() && Apart(p) && p.slotNum <= MAX_SLOTS && Counted(Cfg(), Now(p, p.slotNum))
      requires LastReturn(Cfg(), Now(p, p.slotNum), reqRate[..], reqVolume[..], turns)
      modifies this`freeSlots, this`leftToCheck, this`curTerm, this`cells, deficit, a, reqVolume
      modifies p`slotNum, p.bdes, GridArrays(), MaskArrays()
      ensures p.slotNum <= MAX_SLOTS
      ensures Reached(p, ok, RawLast(Cfg(), old(Now(p, p.slotNum)), old(reqRate[..]), old(reqVolume[..]), turns))
      ensures ok ==> reqVolume[..] == seq(nodes, i => 0)
    {
      ok := RequestPhase(p, reqRate, turns.rbdc);
      if ok {
        ok := VolumePhase(p, turns.vbdc);
      }
    }

    // reset_allocator, for an empty plan.
    method StartOver(p: Tbtp)
      requires Valid() && Apart(p) && p.slotNum == 0 && curTerm < nodes && 0 <= leftToCheck <= nodes
      modifies this`freeSlots, this`cells, a, GridArrays(), MaskArrays()
      ensures Now(p, 0) == Reset(Cfg(), deficit[..], curTerm).(left := leftToCheck)
    {
      ResetAllocator();
    }
  }

  lemma OneMoreFrame(dims: seq<FrameDim>, n: nat)
    requires n < |dims|
    ensures MaskSize(dims[..n + 1]) == MaskSize(dims[..n]) * dims[n].timeslots
    ensures SlotCount(dims[..n + 1]) == SlotCount(dims[..n]) + dims[n].carriers * dims[n].timeslots
  {
    assert dims[..n + 1][..n] == dims[..n];
  }

  // The pair (iOpt, jOpt) is the best-fit choice among the open cells before (i, j) in
  // scanning order; iOpt is negative while there is none.
  ghost predicate BestBefore(cfg: Config, g: map<Cell, int>, m: set<nat>, f: nat, iOpt: int, jOpt: nat, i: nat, j: nat)
    requires ValidConfig(cfg) && f < |cfg.frames|
  {
    && (iOpt < 0 ==> jOpt == MaskSize(cfg.frames))
    && (iOpt >= 0 ==> Open(cfg, g, m, Cell(f, iOpt, jOpt)) && (iOpt < i || (iOpt == i && jOpt < j)))
    && forall c: Cell | Open(cfg, g, m, c) && c.f == f && (c.i < i || (c.i == i && c.j < j)) ::
         0 <= iOpt && Precedes(Layout.BestFit, Cell(f, iOpt, jOpt), c)
  }

  lemma BestNext(cfg: Config, g: map<Cell, int>, m: set<nat>, f: nat, iOpt: int, jOpt: nat, i: nat, j: nat)
    requires ValidConfig(cfg) && f < |cfg.frames| && j < cfg.frames[f].timeslots <= MaskSize(cfg.frames)
    requires BestBefore(cfg, g, m, f, iOpt, jOpt, i, j)
    ensures if Open(cfg, g, m, Cell(f, i, j)) && j < jOpt then BestBefore(cfg, g, m, f, i, j, i, j + 1)
            else BestBefore(cfg, g, m, f, iOpt, jOpt, i, j + 1)
  {
    forall c: Cell | Open(cfg, g, m, c) && c.f == f && (c.i < i || (c.i == i && c.j < j + 1))
      ensures c == Cell(f, i, j) || (0 <= iOpt && Precedes(Layout.BestFit, Cell(f, iOpt, jOpt), c))
    {
    }
  }

  lemma BestNextRow(cfg: Config, g: map<Cell, int>, m: set<nat>, f: nat, iOpt: int, jOpt: nat, i: nat)
    requires ValidConfig(cfg) && f < |cfg.frames| && BestBefore(cfg, g, m, f, iOpt, jOpt, i, cfg.frames[f].timeslots)
    ensures BestBefore(cfg, g, m, f, iOpt, jOpt, i + 1, 0)
  {
  }

  // A cell marked in the grid and in the bitmap of the terminal under the cursor.
  ghost function Marked(cfg: Config, s: State, c: Cell): State
    requires Shape(cfg, s) && InFrame(cfg.frames, c)
  {
    s.(grid := s.grid[c := s.cur], mask := s.mask[s.cur := s.mask[s.cur] + Bits(cfg.frames, c)])
  }

  // Marking a cell found and then booking the burst is placing it; booking alone is
  // booking it again.
  lemma BookedIsBooking(cfg: Config, s: State, s1: State, c: Cell)
    requires Shape(cfg, s) && InFrame(cfg.frames, c)
    requires s1 == if HasRule(cfg, s.cur, s.deficit[s.cur]) then Marked(cfg, s, c) else s
    ensures var b := Burst(s.cur, Start(cfg.frames, cfg.duration, c), cfg.frames[c.f].burst);
            AllocatorMFTDMA.Booked(s1, s.cur, b, c) == Booking(cfg, s, c)
  {
  }
}
