// The capacity requester object: rate and volume requests, and the ring of volumes.
module MacRequester {
  import opened Optional
  import opened Requester
  import opened Smoothing

  const MAX_TIME_WIN: nat := 512

  datatype Request = Request(rate: int, volume: int)

  // lround: to the nearest integer, halves away from zero.
  function Round(x: real): (n: int)
    ensures x - 0.5 <= n as real <= x + 0.5
    ensures x == n as real - 0.5 ==> 0 < n
    ensures x == n as real + 0.5 ==> n < 0
  {
    if x >= 0.0 then (x + 0.5).Floor else -(0.5 - x).Floor
  }

  // Conversion to int: towards zero.
  function Truncate(x: real): (n: int)
    ensures x >= 0.0 ==> n as real <= x < n as real + 1.0
    ensures x <= 0.0 ==> n as real - 1.0 < x <= n as real
  {
    if x >= 0.0 then x.Floor else -(-x).Floor
  }

  // The rate request is the smoothed rate, rounded, with its limits applied; the lower
  // limit wins.
  function LimitRate(c: real, min: real, max: real): (r: real)
    ensures min <= r && (min <= max ==> r <= max) && (max < min ==> r == min)
    ensures min <= max ==> r == c || (c < min && r == min) || (max < c && r == max)
  {
    var capped := if c > max then max else c;
    if capped < min then min else capped
  }

  // The limit of a volume request is a real number too.
  function LimitVolume(v: int, max: real): (r: int)
    ensures v as real <= max ==> r == v
    ensures v as real > max ==> r == Truncate(max)
    ensures v as real > max && 0.0 <= max ==> r as real <= max < r as real + 1.0
  {
    if v as real > max then Truncate(max) else v
  }

  // For volumes it is a cap at its whole part, to which the results on capping apply.
  lemma LimitIsCap(v: nat, max: real)
    requires 0.0 <= max
    ensures 0 <= Truncate(max) && LimitVolume(v, max) == Capped(v, Truncate(max))
  {
    if v as real > max {
      assert v > max.Floor;
    }
  }

  class RequesterCombiner {
    const rbdc: bool
    const vbdc: bool
    const avbdc: bool
    const win: nat
    const maxRbdc: real
    const minRbdc: real
    const maxVbdc: real
    const alpha: real
    const delay: real
    var prevIn: nat
    var inputCur: nat
    var bufferCur: int
    var rateReq: real
    var last: nat
    var totalVol: nat
    const vecVol: array<nat>
    // The samples volumes were booked for.
    ghost var history: seq<Sample>
    // The rates measured.
    ghost var measured: seq<real>

    constructor (rbdc: bool, vbdc: bool, avbdc: bool, win: nat, maxRbdc: real, minRbdc: real, maxVbdc: real,
      alpha: real, delay: real)
      requires 0 < win <= MAX_TIME_WIN && 0.0 < delay
      ensures Valid() && history == [] && measured == [] && prevIn == 0 && fresh(vecVol)
      ensures this.rbdc == rbdc && this.vbdc == vbdc && this.avbdc == avbdc && this.win == win
      ensures this.maxRbdc == maxRbdc && this.minRbdc == minRbdc && this.maxVbdc == maxVbdc
      ensures this.alpha == alpha && this.delay == delay
    {
      this.rbdc, this.vbdc, this.avbdc, this.win := rbdc, vbdc, avbdc, win;
      this.maxRbdc, this.minRbdc, this.maxVbdc, this.alpha, this.delay := maxRbdc, minRbdc, maxVbdc, alpha, delay;
      prevIn, inputCur, bufferCur, rateReq, last, totalVol, history, measured := 0, 0, 0, 0.0, 0, 0, [], [];
      vecVol := new nat[MAX_TIME_WIN](i => 0);
      new;
      SumZeros(vecVol[..win]);
    }

    ghost predicate Valid()
      reads this, vecVol
    {
      ValidVolumes() && 0.0 < delay && rateReq == Smoothed(0.0, alpha, measured)
    }

    // The ring shows the volumes booked so far.
    ghost predicate ValidVolumes()
      reads this`last, this`totalVol, this`history, vecVol
    {
      && 0 < win <= MAX_TIME_WIN == vecVol.Length
      && Booked(vecVol[..win], Volumes(history, win), totalVol, last)
    }

    // rate: bytes that arrived since the last call, smoothed into a rate.
    method Rate(barrivals: nat) returns (r: int)
      requires Valid() && prevIn <= barrivals
      modifies this`inputCur, this`rateReq, this`prevIn, this`measured
      ensures Valid() && inputCur == barrivals - old(prevIn) && prevIn == barrivals
      ensures measured == old(measured) + [(barrivals - old(prevIn)) as real * 0.008 / delay]
      ensures rateReq == Smoothed(0.0, alpha, measured) && r == Round(rateReq)
    {
      inputCur := barrivals - prevIn;
      var rateKbps := inputCur as real * 0.008 / delay;
      rateReq := alpha * rateReq + (1.0 - alpha) * rateKbps;
      prevIn := barrivals;
      r := Round(rateReq);
      OneMoreSample(0.0, alpha, measured, rateKbps);
      measured := measured + [rateKbps];
    }

    // The branch for volume requests.
    method BookVolume(backlog: nat) returns (v: nat)
      requires ValidVolumes()
      modifies this`last, this`totalVol, this`history, vecVol
      ensures ValidVolumes() && history == old(history) + [Sample(backlog, inputCur)]
      ensures v == Volumes(history, win)[|history| - 1]
    {
      ghost var ring, vs, x := vecVol[..win], Volumes(history, win), Sample(backlog, inputCur);
      ghost var total, place := totalVol, last;
      BookingKeeps(ring, vs, total, place, x);
      v := ReplaceOldest(backlog);
      OneMoreVolume(history, x, win);
      history := history + [x];
      BookingDone(ring, vs, total, place, x, vecVol[..win], Volumes(history, win), totalVol, last);
    }

    // The oldest volume of the ring gives way to a new one.
    method ReplaceOldest(backlog: nat) returns (v: nat)
      requires last < win <= vecVol.Length && vecVol[NextSlot(last, win)] <= totalVol
      modifies this`last, this`totalVol, vecVol
      ensures last == NextSlot(old(last), win) && vecVol[..win] == old(vecVol[..win])[last := v]
      ensures totalVol == old(totalVol) - old(vecVol[..win])[last] + v
      ensures v == Volume(Sample(backlog, inputCur), old(totalVol) - old(vecVol[..win])[last])
    {
      last := (last + 1) % win;
      totalVol := totalVol - vecVol[last];
      v := 0;
      if backlog > totalVol + inputCur {
        v := backlog - totalVol - inputCur;
      }
      vecVol[last] := v;
      totalVol := totalVol + v;
    }

    // dorequest: None when neither kind of request is made. barrivals counts all bytes
    // that arrived so far, backlog those waiting.
    method DoRequest(barrivals: nat, backlog: nat) returns (r: Option<Request>)
      requires Valid() && prevIn <= barrivals
      modifies this, vecVol
      ensures Valid() && (r.None? <==> !rbdc && !vbdc)
      ensures inputCur == if rbdc then barrivals - old(prevIn) else old(inputCur)
      ensures prevIn == if rbdc then barrivals else old(prevIn)
      ensures measured ==
              if rbdc then old(measured) + [(barrivals - old(prevIn)) as real * 0.008 / delay] else old(measured)
      ensures r.Some? && rbdc ==> r.value.rate == Truncate(LimitRate(Round(rateReq) as real, minRbdc, maxRbdc))
      ensures r.Some? && !rbdc ==> r.value.rate == Truncate(if 0.0 > maxRbdc then maxRbdc else 0.0)
      ensures history == if vbdc then old(history) + [Sample(backlog, inputCur)] else old(history)
      ensures if r.Some? then r.value.volume == bufferCur else bufferCur == old(bufferCur)
      ensures vbdc ==> bufferCur == LimitVolume(Volumes(history, win)[|history| - 1], maxVbdc)
      ensures !vbdc && r.Some? ==> bufferCur == LimitVolume(if avbdc then backlog else old(bufferCur), maxVbdc)
    {
      if !(rbdc || vbdc) {
        return None;
      }
      var rate := RateRequest(barrivals);
      var volume := VolumeRequest(backlog);
      return Some(Request(rate, volume));
    }

    method RateRequest(barrivals: nat) returns (r: int)
      requires Valid() && prevIn <= barrivals
      modifies this`inputCur, this`rateReq, this`prevIn, this`measured
      ensures Valid()
      ensures measured ==
              if rbdc then old(measured) + [(barrivals - old(prevIn)) as real * 0.008 / delay] else old(measured)
      ensures inputCur == if rbdc then barrivals - old(prevIn) else old(inputCur)
      ensures prevIn == if rbdc then barrivals else old(prevIn)
      ensures r == Truncate(if rbdc then LimitRate(Round(rateReq) as real, minRbdc, maxRbdc)
                            else if 0.0 > maxRbdc then maxRbdc else 0.0)
    {
      var cRate := 0.0;
      if rbdc {
        var rounded := Rate(barrivals);
        cRate := rounded as real;
      }
      if cRate > maxRbdc {
        cRate := maxRbdc;
      }
      if cRate < minRbdc && rbdc {
        cRate := minRbdc;
      }
      r := Truncate(cRate);
    }

    method VolumeRequest(backlog: nat) returns (v: int)
      requires Valid()
      modifies this`last, this`totalVol, this`history, this`bufferCur, vecVol
      ensures Valid() && history == (if vbdc then old(history) + [Sample(backlog, inputCur)] else old(history))
      ensures v == bufferCur
      ensures vbdc ==> v == LimitVolume(Volumes(history, win)[|history| - 1], maxVbdc)
      ensures !vbdc ==> v == LimitVolume(if avbdc then backlog else old(bufferCur), maxVbdc)
    {
      if avbdc || vbdc {
        bufferCur := backlog;
      }
      if vbdc {
        bufferCur := BookVolume(backlog);
      }
      if bufferCur as real > maxVbdc {
        bufferCur := Truncate(maxVbdc);
      }
      v := bufferCur;
    }
  }
}
