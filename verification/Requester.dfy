// Volume requests: the window of volumes asked for, as values.
module Requester {
  // A request period: bytes waiting, and bytes that arrived, which the rate request
  // covers.
  datatype Sample = Sample(backlog: nat, input: nat)

  function Sum(s: seq<nat>): (t: nat) {
    if s == [] then 0 else Sum(s[..|s| - 1]) + s[|s| - 1]
  }

  // Sum of the last n of a sequence.
  function Window(s: seq<nat>, n: nat): (t: nat) {
    if n == 0 || s == [] then 0 else Window(s[..|s| - 1], n - 1) + s[|s| - 1]
  }

  // Volume booked, when outstanding bytes were booked in the rest of the window.
  function Volume(x: Sample, outstanding: nat): nat {
    if x.backlog > outstanding + x.input then x.backlog - outstanding - x.input else 0
  }

  // The volumes booked in a run.
  function Volumes(xs: seq<Sample>, win: nat): (vs: seq<nat>)
    requires win > 0
    ensures |vs| == |xs|
  {
    if xs == [] then []
    else
      var vs := Volumes(xs[..|xs| - 1], win);
      vs + [Volume(xs[|xs| - 1], Window(vs, win - 1))]
  }

  lemma OneMoreVolume(xs: seq<Sample>, x: Sample, win: nat)
    requires win > 0
    ensures Volumes(xs + [x], win) == Volumes(xs, win) + [Volume(x, Window(Volumes(xs, win), win - 1))]
  {
    assert (xs + [x])[..|xs|] == xs;
  }

  // All that is booked in the window.
  function Outstanding(xs: seq<Sample>, win: nat): nat
    requires win > 0
  {
    Window(Volumes(xs, win), win)
  }

  // ---------- Properties ----------

  // The window slides: the new volume enters, the oldest leaves.
  lemma NewestEnters(vs: seq<nat>, v: nat, n: nat)
    requires n > 0
    ensures Window(vs + [v], n) == Window(vs, n - 1) + v
  {
    assert (vs + [v])[..|vs|] == vs;
  }

  lemma {:induction false} OldestLeaves(vs: seq<nat>, n: nat)
    requires n > 0
    ensures Window(vs, n) == Window(vs, n - 1) + if n <= |vs| then vs[|vs| - n] else 0
  {
    if vs != [] && n > 1 {
      OldestLeaves(vs[..|vs| - 1], n - 1);
    }
  }

  lemma {:induction false} LongerWindow(vs: seq<nat>, n: nat, m: nat)
    requires n <= m
    ensures Window(vs, n) <= Window(vs, m)
  {
    if n > 0 && vs != [] {
      LongerWindow(vs[..|vs| - 1], n - 1, m - 1);
    }
  }

  // What is booked always covers the backlog the rate request does not, and booking
  // something makes it cover that exactly.
  lemma BacklogIsCovered(xs: seq<Sample>, win: nat)
    requires win > 0 && xs != []
    ensures var x := xs[|xs| - 1];
            && x.backlog <= Outstanding(xs, win) + x.input
            && (0 < Volumes(xs, win)[|xs| - 1] ==> x.backlog == Outstanding(xs, win) + x.input)
  {
    NewestEnters(Volumes(xs[..|xs| - 1], win), Volumes(xs, win)[|xs| - 1], win);
  }

  // Largest excess of backlog over input in the last n samples, 0 if there is none.
  ghost function Peak(xs: seq<Sample>, n: nat): (m: nat)
    ensures forall i | 0 <= i < |xs| && |xs| - n <= i :: xs[i].backlog - xs[i].input <= m
    ensures m == 0 || exists i | 0 <= i < |xs| && |xs| - n <= i :: xs[i].backlog - xs[i].input == m
    decreases n
  {
    if n == 0 || xs == [] then 0
    else
      var m := Peak(xs[..|xs| - 1], n - 1);
      var d := xs[|xs| - 1].backlog - xs[|xs| - 1].input;
      assert forall i | 0 <= i < |xs| - 1 :: xs[i] == xs[..|xs| - 1][i];
      if d > m then d else m
  }

  lemma {:induction false} BookedWithin(xs: seq<Sample>, win: nat, n: nat)
    requires win > 0 && n <= win
    ensures Window(Volumes(xs, win), n) <= Peak(xs, n)
    decreases n
  {
    if n > 0 && xs != [] {
      var vs := Volumes(xs[..|xs| - 1], win);
      BookedWithin(xs[..|xs| - 1], win, n - 1);
      LongerWindow(vs, n - 1, win - 1);
      NewestEnters(vs, Volume(xs[|xs| - 1], Window(vs, win - 1)), n);
    }
  }

  // The running total never exceeds the largest backlog, less input, of the samples the
  // window spans.
  lemma TotalIsBounded(xs: seq<Sample>, win: nat)
    requires win > 0
    ensures Outstanding(xs, win) <= Peak(xs, win)
  {
    BookedWithin(xs, win, win);
  }

  // ---------- Capping ----------

  function Capped(v: nat, max: nat): nat {
    if v > max then max else v
  }

  // The volumes actually asked for.
  function Asked(vs: seq<nat>, max: nat): (ws: seq<nat>)
    ensures |ws| == |vs|
  {
    if vs == [] then [] else Asked(vs[..|vs| - 1], max) + [Capped(vs[|vs| - 1], max)]
  }

  lemma {:induction false} CappingLoses(vs: seq<nat>, max: nat, n: nat)
    ensures Window(Asked(vs, max), n) <= Window(vs, n)
    ensures Window(Asked(vs, max), n) == Window(vs, n) <==> forall i | 0 <= i < |vs| && |vs| - n <= i :: vs[i] <= max
  {
    if n > 0 && vs != [] {
      var us := vs[..|vs| - 1];
      CappingLoses(us, max, n - 1);
      NewestEnters(Asked(us, max), Capped(vs[|vs| - 1], max), n);
      assert forall i | 0 <= i < |us| :: vs[i] == us[i];
    }
  }

  // Volumes are booked before they are capped, so after a booking the volumes asked for
  // over the window cover the backlog exactly when none of them was capped.
  lemma AskedCoversIffUncapped(xs: seq<Sample>, win: nat, max: nat)
    requires win > 0 && xs != [] && 0 < Volumes(xs, win)[|xs| - 1]
    ensures var x, vs := xs[|xs| - 1], Volumes(xs, win);
            x.backlog <= Window(Asked(vs, max), win) + x.input <==>
              forall i | 0 <= i < |vs| && |vs| - win <= i :: vs[i] <= max
  {
    BacklogIsCovered(xs, win);
    CappingLoses(Volumes(xs, win), max, win);
  }

  // ---------- The ring ----------

  // Position in a ring of w entries, j places back from the one last written.
  function Slot(last: nat, j: nat, w: nat): (r: nat)
    requires last < w && j < w
    ensures r < w
  {
    if j <= last then last - j else last - j + w
  }

  // The ring holds the last volumes, going back from entry last.
  ghost predicate IsRing(ring: seq<nat>, vs: seq<nat>, last: nat) {
    && last < |ring|
    && forall j | 0 <= j < |ring| :: ring[Slot(last, j, |ring|)] == if j < |vs| then vs[|vs| - 1 - j] else 0
  }

  function NextSlot(last: nat, w: nat): (r: nat)
    requires last < w
    ensures r < w && r == (last + 1) % w
  {
    if last + 1 == w then 0 else last + 1
  }

  // The entry about to be written holds the oldest volume of the window.
  lemma OldestIsNext(ring: seq<nat>, vs: seq<nat>, last: nat)
    requires IsRing(ring, vs, last)
    ensures var w := |ring|; ring[NextSlot(last, w)] == if w <= |vs| then vs[|vs| - w] else 0
  {
    assert Slot(last, |ring| - 1, |ring|) == NextSlot(last, |ring|);
  }

  lemma RingAdvances(ring: seq<nat>, vs: seq<nat>, last: nat, v: nat)
    requires IsRing(ring, vs, last)
    ensures IsRing(ring[NextSlot(last, |ring|) := v], vs + [v], NextSlot(last, |ring|))
  {
    var w := |ring|;
    var next := NextSlot(last, w);
    forall j | 0 <= j < w
      ensures ring[next := v][Slot(next, j, w)] == if j < |vs| + 1 then (vs + [v])[|vs| - j] else 0
    {
      if j > 0 {
        assert Slot(next, j, w) == Slot(last, j - 1, w) != next;
      }
    }
  }

  lemma {:induction false} SumUpdate(s: seq<nat>, i: nat, v: nat)
    requires i < |s|
    ensures s[i] <= Sum(s) && Sum(s[i := v]) == Sum(s) - s[i] + v
  {
    var n := |s| - 1;
    if i < n {
      SumUpdate(s[..n], i, v);
      assert s[i := v][..n] == s[..n][i := v];
    } else {
      assert s[i := v][..n] == s[..n];
    }
  }

  // The ring, the volumes booked so far, and the running total.
  ghost predicate Booked(ring: seq<nat>, vs: seq<nat>, total: nat, last: nat) {
    IsRing(ring, vs, last) && total == Sum(ring) == Window(vs, |ring|)
  }

  // Replacing the oldest entry by the new volume keeps all of this.
  lemma BookingKeeps(ring: seq<nat>, vs: seq<nat>, total: nat, last: nat, x: Sample)
    requires Booked(ring, vs, total, last)
    ensures var next := NextSlot(last, |ring|);
            && ring[next] <= total && total - ring[next] == Window(vs, |ring| - 1)
            && var v := Volume(x, total - ring[next]);
               Booked(ring[next := v], vs + [v], total - ring[next] + v, next)
  {
    OldestIsNext(ring, vs, last);
    var v := Volume(x, Window(vs, |ring| - 1));
    RingAdvances(ring, vs, last, v);
    NewTotal(ring, vs, total, NextSlot(last, |ring|), v);
  }

  lemma BookingDone(ring: seq<nat>, vs: seq<nat>, total: nat, last: nat, x: Sample,
                    ring': seq<nat>, vs': seq<nat>, total': nat, last': nat)
    requires Booked(ring, vs, total, last) && last' == NextSlot(last, |ring|) && ring[last'] <= total
    requires var v := Volume(x, total - ring[last']);
             ring' == ring[last' := v] && vs' == vs + [v] && total' == total - ring[last'] + v
    ensures Booked(ring', vs', total', last')
  {
    BookingKeeps(ring, vs, total, last, x);
  }

  lemma NewTotal(ring: seq<nat>, vs: seq<nat>, total: nat, last: nat, v: nat)
    requires last < |ring| && total == Sum(ring) == Window(vs, |ring|)
    requires ring[last] == if |ring| <= |vs| then vs[|vs| - |ring|] else 0
    ensures ring[last] <= total && total - ring[last] == Window(vs, |ring| - 1)
    ensures Sum(ring[last := v]) == total - ring[last] + v == Window(vs + [v], |ring|)
  {
    SumUpdate(ring, last, v);
    OldestLeaves(vs, |ring|);
    NewestEnters(vs, v, |ring|);
  }

  lemma {:induction false} SumZeros(s: seq<nat>)
    requires forall i | 0 <= i < |s| :: s[i] == 0
    ensures Sum(s) == 0
  {
    if s != [] {
      SumZeros(s[..|s| - 1]);
    }
  }
}
