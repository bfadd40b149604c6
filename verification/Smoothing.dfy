// The rate request: measured rates smoothed by a first-order filter.
module Smoothing {
  function Smooth(prev: real, alpha: real, sample: real): real {
    alpha * prev + (1.0 - alpha) * sample
  }

  lemma SmoothShifts(base: real, alpha: real, d: real, e: real)
    ensures Smooth(base + d, alpha, base + e) == base + Smooth(d, alpha, e)
    ensures Smooth(base - d, alpha, base - e) == base - Smooth(d, alpha, e)
  {
  }

  lemma SmoothNotNegative(d: real, alpha: real, e: real)
    requires 0.0 <= alpha <= 1.0 && 0.0 <= d && 0.0 <= e
    ensures 0.0 <= Smooth(d, alpha, e)
  {
    var beta := 1.0 - alpha;
    assert 0.0 <= alpha * d && 0.0 <= beta * e;
  }

  // The smoothed rate stays among the rates measured.
  lemma SmoothStaysBetween(prev: real, alpha: real, sample: real, lo: real, hi: real)
    requires 0.0 <= alpha <= 1.0 && lo <= prev <= hi && lo <= sample <= hi
    ensures lo <= Smooth(prev, alpha, sample) <= hi
  {
    SmoothNotNegative(prev - lo, alpha, sample - lo);
    SmoothShifts(lo, alpha, prev - lo, sample - lo);
    SmoothNotNegative(hi - prev, alpha, hi - sample);
    SmoothShifts(hi, alpha, hi - prev, hi - sample);
  }

  // ---------- Many samples ----------

  // The rate after samples xs.
  function Smoothed(rate: real, alpha: real, xs: seq<real>): real {
    if xs == [] then rate else Smooth(Smoothed(rate, alpha, xs[..|xs| - 1]), alpha, xs[|xs| - 1])
  }

  lemma OneMoreSample(rate: real, alpha: real, xs: seq<real>, x: real)
    ensures Smoothed(rate, alpha, xs + [x]) == alpha * Smoothed(rate, alpha, xs) + (1.0 - alpha) * x
  {
    assert (xs + [x])[..|xs|] == xs;
  }

  function Power(a: real, n: nat): real {
    if n == 0 then 1.0 else a * Power(a, n - 1)
  }

  // What is left of a sample when so many later ones have come.
  function Share(alpha: real, x: real, age: nat): real {
    if age == 0 then (1.0 - alpha) * x else alpha * Share(alpha, x, age - 1)
  }

  lemma {:induction false} ShareIs(alpha: real, x: real, age: nat)
    ensures Share(alpha, x, age) == Power(alpha, age) * ((1.0 - alpha) * x)
  {
    if age > 0 {
      ShareIs(alpha, x, age - 1);
      Associates(alpha, Power(alpha, age - 1), (1.0 - alpha) * x);
    }
  }

  // What is left of the first i samples when n have come.
  function Shares(alpha: real, xs: seq<real>, n: nat, i: nat): real
    requires i <= |xs| && i <= n
  {
    if i == 0 then 0.0 else Shares(alpha, xs, n, i - 1) + Share(alpha, xs[i - 1], n - i)
  }

  // One sample later all have faded by the factor alpha.
  lemma {:induction false} SharesFade(alpha: real, xs: seq<real>, n: nat, i: nat)
    requires i <= |xs| && i <= n
    ensures Shares(alpha, xs, n + 1, i) == alpha * Shares(alpha, xs, n, i)
  {
    if i > 0 {
      SharesFade(alpha, xs, n, i - 1);
      Distributes(alpha, Shares(alpha, xs, n, i - 1), Share(alpha, xs[i - 1], n - i));
    }
  }

  lemma Distributes(a: real, b: real, c: real)
    ensures a * (b + c) == a * b + a * c
  {
  }

  lemma {:induction false} SharesPrefix(alpha: real, xs: seq<real>, x: real, n: nat, i: nat)
    requires i <= |xs| && i <= n
    ensures Shares(alpha, xs + [x], n, i) == Shares(alpha, xs, n, i)
  {
    if i > 0 {
      SharesPrefix(alpha, xs, x, n, i - 1);
    }
  }

  // The rate is the sum of what is left of all samples and of the first rate.
  lemma {:induction false} SmoothedIsShares(rate: real, alpha: real, xs: seq<real>)
    ensures Smoothed(rate, alpha, xs) == Power(alpha, |xs|) * rate + Shares(alpha, xs, |xs|, |xs|)
  {
    if xs != [] {
      var n := |xs| - 1;
      SmoothedIsShares(rate, alpha, xs[..n]);
      SharesFade(alpha, xs[..n], n, n);
      assert xs == xs[..n] + [xs[n]];
      SharesPrefix(alpha, xs[..n], xs[n], n + 1, n);
      Distributes(alpha, Power(alpha, n) * rate, Shares(alpha, xs[..n], n, n));
      Associates(alpha, Power(alpha, n), rate);
    }
  }

  lemma Associates(a: real, b: real, c: real)
    ensures a * (b * c) == (a * b) * c
  {
  }

  // While the same rate is measured, the distance to it falls by the factor alpha each
  // time.
  lemma {:induction false} PastFades(rate: real, alpha: real, xs: seq<real>, x: real)
    requires forall i | 0 <= i < |xs| :: xs[i] == x
    ensures Smoothed(rate, alpha, xs) - x == Power(alpha, |xs|) * (rate - x)
  {
    if xs != [] {
      var n := |xs| - 1;
      PastFades(rate, alpha, xs[..n], x);
      var r := Smoothed(rate, alpha, xs[..n]);
      SmoothTowards(r, alpha, x);
      Associates(alpha, Power(alpha, n), rate - x);
    }
  }

  lemma SmoothTowards(r: real, alpha: real, x: real)
    ensures Smooth(r, alpha, x) - x == alpha * (r - x)
  {
  }
}
