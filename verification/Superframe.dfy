// The geometry of an MF-TDMA superframe: frames of carriers and timeslots, the
// cells they offer, and the bit ranges that place cells of different frames on one
// common time grid.
module Superframe {

  datatype FrameDim = FrameDim(carriers: nat, timeslots: nat, burst: nat)

  // Timeslot j of carrier i in frame f.
  datatype Cell = Cell(f: nat, i: nat, j: nat)

  ghost predicate ValidFrames(fs: seq<FrameDim>) {
    forall f | 0 <= f < |fs| :: 1 <= fs[f].timeslots
  }

  // The least common time grid the code uses: the product of all timeslot counts,
  // multiplied up as frames are added.
  function MaskSize(fs: seq<FrameDim>): nat {
    if fs == [] then 1 else MaskSize(fs[..|fs| - 1]) * fs[|fs| - 1].timeslots
  }

  function SlotCount(fs: seq<FrameDim>): nat {
    if fs == [] then 0
    else SlotCount(fs[..|fs| - 1]) + fs[|fs| - 1].carriers * fs[|fs| - 1].timeslots
  }

  function SuperframeBytes(fs: seq<FrameDim>): nat {
    if fs == [] then 0
    else var d := fs[|fs| - 1]; SuperframeBytes(fs[..|fs| - 1]) + d.carriers * d.timeslots * d.burst
  }

  predicate InFrame(fs: seq<FrameDim>, c: Cell) {
    c.f < |fs| && c.i < fs[c.f].carriers && c.j < fs[c.f].timeslots
  }

  // ---------- All cells, listed ----------

  function Row(f: nat, i: nat, timeslots: nat): (r: seq<Cell>) {
    seq(timeslots, j requires 0 <= j => Cell(f, i, j))
  }

  function FrameCells(f: nat, carriers: nat, timeslots: nat): (r: seq<Cell>) {
    if carriers == 0 then []
    else FrameCells(f, carriers - 1, timeslots) + Row(f, carriers - 1, timeslots)
  }

  function AllCells(fs: seq<FrameDim>): (r: seq<Cell>) {
    if fs == [] then []
    else
      var n := |fs| - 1;
      AllCells(fs[..n]) + FrameCells(n, fs[n].carriers, fs[n].timeslots)
  }

  ghost predicate NoDup<T>(s: seq<T>) {
    forall a, b | 0 <= a < b < |s| :: s[a] != s[b]
  }

  lemma NoDupAppend<T>(s: seq<T>, t: seq<T>)
    requires NoDup(s) && NoDup(t)
    requires forall x | x in s :: x !in t
    ensures NoDup(s + t)
  {
    forall a, b | 0 <= a < b < |s + t| ensures (s + t)[a] != (s + t)[b] {
      if a < |s| <= b {
        assert (s + t)[a] in s && (s + t)[b] in t;
      }
    }
  }

  lemma {:induction false} FrameCellsListed(f: nat, carriers: nat, timeslots: nat)
    ensures NoDup(FrameCells(f, carriers, timeslots))
    ensures |FrameCells(f, carriers, timeslots)| == carriers * timeslots
    ensures forall c: Cell :: c in FrameCells(f, carriers, timeslots) <==> c.f == f && c.i < carriers && c.j < timeslots
  {
    if carriers > 0 {
      FrameCellsListed(f, carriers - 1, timeslots);
      var front, row := FrameCells(f, carriers - 1, timeslots), Row(f, carriers - 1, timeslots);
      forall c: Cell ensures c in row <==> c.f == f && c.i == carriers - 1 && c.j < timeslots {
        if c.f == f && c.i == carriers - 1 && c.j < timeslots {
          assert row[c.j] == c;
        }
      }
      NoDupAppend(front, row);
      assert (carriers - 1) * timeslots + timeslots == carriers * timeslots;
    }
  }

  // AllCells lists every cell of the superframe once, and there are SlotCount of them.
  lemma {:induction false} AllCellsListed(fs: seq<FrameDim>)
    ensures NoDup(AllCells(fs))
    ensures |AllCells(fs)| == SlotCount(fs)
    ensures forall c: Cell :: c in AllCells(fs) <==> InFrame(fs, c)
  {
    if fs != [] {
      var n := |fs| - 1;
      AllCellsListed(fs[..n]);
      FrameCellsListed(n, fs[n].carriers, fs[n].timeslots);
      NoDupAppend(AllCells(fs[..n]), FrameCells(n, fs[n].carriers, fs[n].timeslots));
    }
  }

  ghost function Universe(fs: seq<FrameDim>): (u: set<Cell>)
    ensures forall c: Cell :: c in u <==> InFrame(fs, c)
  {
    AllCellsListed(fs);
    set c | c in AllCells(fs)
  }

  lemma {:induction false} NoDupCard<T>(s: seq<T>)
    requires NoDup(s)
    ensures |set x | x in s| == |s|
  {
    if s != [] {
      NoDupCard(s[1..]);
      assert (set x | x in s) == {s[0]} + (set x | x in s[1..]);
    }
  }

  lemma UniverseCard(fs: seq<FrameDim>)
    ensures |Universe(fs)| == SlotCount(fs)
  {
    AllCellsListed(fs);
    NoDupCard(AllCells(fs));
    assert Universe(fs) == set c | c in AllCells(fs);
  }

  // ---------- Bytes ----------

  ghost predicate AllIn(fs: seq<FrameDim>, cs: seq<Cell>) {
    forall k | 0 <= k < |cs| :: InFrame(fs, cs[k])
  }

  // Bytes offered by a list of cells.
  ghost function CellBytes(fs: seq<FrameDim>, cs: seq<Cell>): nat
    requires AllIn(fs, cs)
  {
    if cs == [] then 0
    else
      CellBytes(fs, cs[..|cs| - 1]) + fs[cs[|cs| - 1].f].burst
  }

  lemma {:induction false} CellBytesAppend(fs: seq<FrameDim>, cs: seq<Cell>, ds: seq<Cell>)
    requires AllIn(fs, cs)
    requires AllIn(fs, ds)
    ensures AllIn(fs, cs + ds)
    ensures CellBytes(fs, cs + ds) == CellBytes(fs, cs) + CellBytes(fs, ds)
  {
    if ds == [] {
      assert cs + ds == cs;
    } else {
      CellBytesAppend(fs, cs, ds[..|ds| - 1]);
      assert (cs + ds)[..|cs + ds| - 1] == cs + ds[..|ds| - 1];
    }
  }

  lemma {:induction false} CellBytesUniform(fs: seq<FrameDim>, cs: seq<Cell>, f: nat)
    requires f < |fs| && AllIn(fs, cs) && forall k | 0 <= k < |cs| :: cs[k].f == f
    ensures CellBytes(fs, cs) == |cs| * fs[f].burst
  {
    if cs != [] {
      CellBytesUniform(fs, cs[..|cs| - 1], f);
      assert (|cs| - 1) * fs[f].burst + fs[f].burst == |cs| * fs[f].burst;
    }
  }

  lemma {:induction false} CellBytesPrefix(fs: seq<FrameDim>, cs: seq<Cell>)
    requires fs != [] && AllIn(fs[..|fs| - 1], cs)
    ensures AllIn(fs, cs)
    ensures CellBytes(fs, cs) == CellBytes(fs[..|fs| - 1], cs)
  {
    if cs != [] {
      CellBytesPrefix(fs, cs[..|cs| - 1]);
    }
  }

  // The byte total the Tcl front end keeps is the total over the listed cells.
  lemma {:induction false} AllCellsBytes(fs: seq<FrameDim>)
    ensures AllIn(fs, AllCells(fs))
    ensures CellBytes(fs, AllCells(fs)) == SuperframeBytes(fs)
  {
    AllCellsListed(fs);
    if fs != [] {
      var n := |fs| - 1;
      var d := fs[n];
      AllCellsListed(fs[..n]);
      AllCellsBytes(fs[..n]);
      FrameCellsListed(n, d.carriers, d.timeslots);
      var last := FrameCells(n, d.carriers, d.timeslots);
      CellBytesPrefix(fs, AllCells(fs[..n]));
      CellBytesUniform(fs, last, n);
      CellBytesAppend(fs, AllCells(fs[..n]), last);
    }
  }

  lemma {:induction false} CellBytesRemove(fs: seq<FrameDim>, cs: seq<Cell>, k: nat)
    requires k < |cs| && AllIn(fs, cs)
    ensures AllIn(fs, cs[..k] + cs[k + 1..])
    ensures InFrame(fs, cs[k])
    ensures CellBytes(fs, cs) == CellBytes(fs, cs[..k] + cs[k + 1..]) + fs[cs[k].f].burst
  {
    assert cs == cs[..k + 1] + cs[k + 1..];
    assert cs[..k + 1][..k] == cs[..k];
    CellBytesAppend(fs, cs[..k + 1], cs[k + 1..]);
    CellBytesAppend(fs, cs[..k], cs[k + 1..]);
  }

  // Distinct cells drawn from a list never outweigh it.
  lemma {:induction false} CellBytesWithin(fs: seq<FrameDim>, cs: seq<Cell>, us: seq<Cell>)
    requires NoDup(cs) && forall c | c in cs :: c in us
    requires AllIn(fs, us) && AllIn(fs, cs)
    ensures CellBytes(fs, cs) <= CellBytes(fs, us)
  {
    if cs != [] {
      var x := cs[|cs| - 1];
      assert x in cs;
      var k :| 0 <= k < |us| && us[k] == x;
      var rest := us[..k] + us[k + 1..];
      forall c | c in cs[..|cs| - 1] ensures c in rest {
        assert c in cs;
        var m :| 0 <= m < |us| && us[m] == c;
        assert m != k;
        assert c == if m < k then rest[m] else rest[m - 1];
      }
      CellBytesRemove(fs, us, k);
      CellBytesWithin(fs, cs[..|cs| - 1], rest);
    }
  }

  // ---------- Time ----------

  // Width in bits of one timeslot of frame f.
  ghost function Width(fs: seq<FrameDim>, f: nat): nat
    requires f < |fs| && ValidFrames(fs)
  {
    MaskSize(fs) / fs[f].timeslots
  }

  ghost predicate InRange(j: nat, w: nat, b: nat) {
    j * w <= b < (j + 1) * w
  }

  ghost function Range(j: nat, w: nat): set<nat> {
    set b: nat | b < (j + 1) * w && InRange(j, w, b)
  }

  ghost function Bits(fs: seq<FrameDim>, c: Cell): set<nat>
    requires ValidFrames(fs) && InFrame(fs, c)
  {
    Range(c.j, Width(fs, c.f))
  }

  lemma ProductDivides(a: nat, b: nat, t: nat, k: nat)
    requires t >= 1 && a == t * k
    ensures a * b == t * (k * b)
  {
  }

  // Every timeslot count divides the mask size exactly, so slots fill the grid with no
  // remainder and every slot has at least one bit.
  lemma {:induction false} WidthExact(fs: seq<FrameDim>, f: nat)
    requires ValidFrames(fs) && f < |fs|
    ensures Width(fs, f) * fs[f].timeslots == MaskSize(fs)
    ensures 1 <= Width(fs, f)
    ensures fs[f].timeslots <= MaskSize(fs)
  {
    MaskSizePositive(fs);
    var k := Cofactor(fs, f);
    var t := fs[f].timeslots;
    DivExact(t, k);
    assert Width(fs, f) == k;
  }

  lemma DivExact(t: nat, k: nat)
    requires 1 <= t && 1 <= t * k
    ensures (t * k) / t == k && 1 <= k && t <= t * k
  {
    DivUnique(t * k, t, k);
    assert t * 1 <= t * k;
  }

  lemma ScaleUp(t: int, d: int)
    requires 1 <= t && 1 <= d
    ensures t <= t * d && t * -d <= -t
  {
    assert t * d - t == t * (d - 1) >= 0;
  }

  lemma DivUnique(x: nat, t: nat, k: nat)
    requires 1 <= t && x == t * k
    ensures x / t == k
  {
    var q := x / t;
    var d := k - q;
    assert t * d == t * k - t * q;
    if d >= 1 {
      ScaleUp(t, d);
    } else if d <= -1 {
      ScaleUp(t, -d);
    }
  }

  lemma {:induction false} MaskSizePositive(fs: seq<FrameDim>)
    requires ValidFrames(fs)
    ensures 1 <= MaskSize(fs)
  {
    if fs != [] {
      MaskSizePositive(fs[..|fs| - 1]);
      assert 1 * 1 <= MaskSize(fs[..|fs| - 1]) * fs[|fs| - 1].timeslots;
    }
  }

  ghost function {:induction false} Cofactor(fs: seq<FrameDim>, f: nat): (k: nat)
    requires ValidFrames(fs) && f < |fs|
    ensures MaskSize(fs) == fs[f].timeslots * k
  {
    var n := |fs| - 1;
    if f == n then MaskSize(fs[..n])
    else
      var k := Cofactor(fs[..n], f);
      ProductDivides(MaskSize(fs[..n]), fs[n].timeslots, fs[f].timeslots, k);
      k * fs[n].timeslots
  }

  // Time of the left edge of timeslot k, when ts timeslots share d seconds.
  ghost function Edge(k: nat, d: real, ts: nat): real
    requires 1 <= ts
  {
    k as real * d / ts as real
  }

  // Where a slot starts and ends inside a superframe lasting duration.
  ghost function Start(fs: seq<FrameDim>, duration: real, c: Cell): real
    requires ValidFrames(fs) && InFrame(fs, c)
  {
    Edge(c.j, duration, fs[c.f].timeslots)
  }

  ghost function End(fs: seq<FrameDim>, duration: real, c: Cell): real
    requires ValidFrames(fs) && InFrame(fs, c)
  {
    Edge(c.j + 1, duration, fs[c.f].timeslots)
  }

  lemma EdgeIsTicks(k: nat, d: real, ts: nat, w: nat, m: nat)
    requires 1 <= ts && 1 <= m && w * ts == m
    ensures Edge(k, d, ts) == (k * w) as real * (d / m as real)
  {
    var kr, tr, wr := k as real, ts as real, w as real;
    var x := d / m as real;
    assert (k * w) as real == kr * wr;
    assert d == x * m as real == (x * wr) * tr;
    assert kr * d == (kr * wr * x) * tr;
    assert (kr * d) / tr == kr * wr * x;
  }

  lemma OrderScales(a: nat, b: nat, x: real)
    requires x > 0.0
    ensures a <= b <==> a as real * x <= b as real * x
  {
    if a > b {
      assert (a as real - b as real) * x > 0.0;
    } else {
      assert (b as real - a as real) * x >= 0.0;
    }
  }

  // Edges of two timeslots, whatever their frames, come in the order of their bits.
  lemma EdgesCompare(k: nat, l: nat, d: real, ts: nat, us: nat, w: nat, v: nat, m: nat)
    requires 1 <= ts && 1 <= us && 1 <= m && w * ts == m && v * us == m && d > 0.0
    ensures Edge(k, d, ts) <= Edge(l, d, us) <==> k * w <= l * v
  {
    EdgeIsTicks(k, d, ts, w, m);
    EdgeIsTicks(l, d, us, v, m);
    assert d / m as real > 0.0;
    OrderScales(k * w, l * v, d / m as real);
  }

  lemma RangesDisjoint(j: nat, w: nat, k: nat, v: nat)
    requires 1 <= w && 1 <= v
    ensures Range(j, w) !! Range(k, v) <==> (j + 1) * w <= k * v || (k + 1) * v <= j * w
  {
    assert (j + 1) * w == j * w + w && (k + 1) * v == k * v + v;
    if Range(j, w) !! Range(k, v) {
      var m := if j * w < k * v then k * v else j * w;
      assert m in Range(j, w) || m in Range(k, v);
      assert m !in Range(j, w) || m !in Range(k, v);
    }
  }

  ghost predicate Overlap(fs: seq<FrameDim>, duration: real, c: Cell, d: Cell)
    requires ValidFrames(fs) && InFrame(fs, c) && InFrame(fs, d)
  {
    Start(fs, duration, c) < End(fs, duration, d) && Start(fs, duration, d) < End(fs, duration, c)
  }

  // Two cells share a bit exactly when their time intervals overlap, whatever the
  // timeslot counts of their frames.
  lemma BitsDisjointIffTimesDisjoint(fs: seq<FrameDim>, duration: real, c: Cell, d: Cell)
    requires ValidFrames(fs) && InFrame(fs, c) && InFrame(fs, d) && duration > 0.0
    ensures Bits(fs, c) !! Bits(fs, d) <==> !Overlap(fs, duration, c, d)
  {
    var w, v, m := Width(fs, c.f), Width(fs, d.f), MaskSize(fs);
    MaskSizePositive(fs);
    WidthExact(fs, c.f);
    WidthExact(fs, d.f);
    RangesDisjoint(c.j, w, d.j, v);
    EdgesCompare(c.j + 1, d.j, duration, fs[c.f].timeslots, fs[d.f].timeslots, w, v, m);
    EdgesCompare(d.j + 1, c.j, duration, fs[d.f].timeslots, fs[c.f].timeslots, v, w, m);
  }

  lemma RangeInside(j: nat, w: nat, ts: nat, m: nat)
    requires j < ts && w * ts == m
    ensures (j + 1) * w <= m && forall b | b in Range(j, w) :: b < m
  {
    assert (j + 1) * w <= ts * w;
  }

  lemma EdgeInside(j: nat, d: real, ts: nat)
    requires j < ts && d > 0.0
    ensures 0.0 <= Edge(j, d, ts) < Edge(j + 1, d, ts) <= d
  {
    EdgesCompare(0, j, d, ts, ts, 1, 1, ts);
    EdgesCompare(j + 1, j, d, ts, ts, 1, 1, ts);
    EdgesCompare(j + 1, ts, d, ts, ts, 1, 1, ts);
    EdgeIsTicks(ts, d, ts, 1, ts);
  }

  // Slots lie inside the superframe and their bits inside the mask.
  lemma SlotInside(fs: seq<FrameDim>, duration: real, c: Cell)
    requires ValidFrames(fs) && InFrame(fs, c) && duration > 0.0
    ensures 0.0 <= Start(fs, duration, c) < End(fs, duration, c) <= duration
    ensures forall b | b in Bits(fs, c) :: b < MaskSize(fs)
    ensures (c.j + 1) * Width(fs, c.f) <= MaskSize(fs)
  {
    WidthExact(fs, c.f);
    RangeInside(c.j, Width(fs, c.f), fs[c.f].timeslots, MaskSize(fs));
    EdgeInside(c.j, duration, fs[c.f].timeslots);
  }

  // The timeslots of a frame are of equal length, each begins where the one before ends,
  // and together they fill the superframe.
  lemma SlotsTile(fs: seq<FrameDim>, duration: real, c: Cell)
    requires ValidFrames(fs) && InFrame(fs, c) && duration > 0.0
    ensures End(fs, duration, c) - Start(fs, duration, c) == duration / fs[c.f].timeslots as real
    ensures c.j == 0 ==> Start(fs, duration, c) == 0.0
    ensures c.j + 1 == fs[c.f].timeslots ==> End(fs, duration, c) == duration
    ensures c.j + 1 < fs[c.f].timeslots ==> End(fs, duration, c) == Start(fs, duration, c.(j := c.j + 1))
  {
    var ts := fs[c.f].timeslots;
    EdgeIsTicks(c.j, duration, ts, 1, ts);
    EdgeIsTicks(c.j + 1, duration, ts, 1, ts);
    EdgeIsTicks(ts, duration, ts, 1, ts);
    OneMoreTick(c.j, duration / ts as real);
  }

  lemma OneMoreTick(k: nat, x: real)
    ensures (k + 1) as real * x == k as real * x + x
  {
  }

  // The mask of frames together is the product of their masks.
  lemma {:induction false} MaskSizesMultiply(fs: seq<FrameDim>, gs: seq<FrameDim>)
    ensures MaskSize(fs + gs) == MaskSize(fs) * MaskSize(gs)
    ensures |gs| == 1 ==> MaskSize(gs) == gs[0].timeslots
  {
    if gs == [] {
      assert fs + gs == fs;
    } else {
      var n := |gs| - 1;
      MaskSizesMultiply(fs, gs[..n]);
      assert (fs + gs)[..|fs| + n] == fs + gs[..n];
      MultiplyOn(MaskSize(fs), MaskSize(gs[..n]), gs[n].timeslots);
    }
  }

  lemma MultiplyOn(a: nat, b: nat, c: nat)
    ensures (a * b) * c == a * (b * c)
  {
  }

  // Everything setmask and testmask need to know about one slot.
  lemma SlotFits(fs: seq<FrameDim>, c: Cell)
    requires ValidFrames(fs) && InFrame(fs, c)
    ensures c.j < fs[c.f].timeslots <= MaskSize(fs)
    ensures (c.j + 1) * (MaskSize(fs) / fs[c.f].timeslots) <= MaskSize(fs)
    ensures Bits(fs, c) == Range(c.j, MaskSize(fs) / fs[c.f].timeslots)
  {
    WidthExact(fs, c.f);
    RangeInside(c.j, Width(fs, c.f), fs[c.f].timeslots, MaskSize(fs));
  }
}
