// How a terminal turns the burst plan it receives into its own transmissions.
module MacTdmaDama {
  import opened Superframe
  import opened Scheduler
  import opened BurstPlan
  import opened MacAllocator

  // A transmission put on the event list: when, how many bytes, how many cells.
  datatype Transmission = Transmission(offset: real, size: nat, cells: nat)

  // Positions of the entries of a plan that name a terminal.
  ghost function Positions(plan: seq<Burst>, id: nat): (ps: seq<nat>)
    ensures forall x | 0 <= x < |ps| :: ps[x] < |plan| && plan[ps[x]].id == id
    ensures forall x, y | 0 <= x < y < |ps| :: ps[x] < ps[y]
    ensures forall k | 0 <= k < |plan| && plan[k].id == id :: k in ps
  {
    if plan == [] then []
    else
      var n := |plan| - 1;
      var ps := Positions(plan[..n], id);
      if plan[n].id == id then ps + [n] else ps
  }

  ghost function Decode(plan: seq<Burst>, id: nat, cellLen: nat): (ts: seq<Transmission>)
    requires 0 < cellLen
    ensures |ts| == |Positions(plan, id)|
  {
    var ps := Positions(plan, id);
    seq(|ps|, x requires 0 <= x < |ps| =>
      Transmission(plan[ps[x]].offset, plan[ps[x]].size, plan[ps[x]].size / cellLen))
  }

  class MacTdmaDama {
    const slotNum: nat
    const slotPacketLen: nat

    constructor (slotNum: nat, slotPacketLen: nat)
      ensures this.slotNum == slotNum && this.slotPacketLen == slotPacketLen
    {
      this.slotNum, this.slotPacketLen := slotNum, slotPacketLen;
    }

    method BtpDecoding(p: Tbtp) returns (ts: seq<Transmission>)
      requires p.Valid() && 0 < slotPacketLen
      ensures ts == Decode(p.Entries(), slotNum, slotPacketLen)
    {
      ts := [];
      ghost var plan := p.Entries();
      var i := 0;
      while i < p.slotNum
        invariant i <= p.slotNum
        invariant ts == Decode(plan[..i], slotNum, slotPacketLen)
      {
        var b := p.bdes[i];
        assert plan[..i + 1][..i] == plan[..i];
        DecodePrefix(plan[..i + 1], slotNum, slotPacketLen);
        if b.id == slotNum {
          ts := ts + [Transmission(b.offset, b.size, b.size / slotPacketLen)];
        }
        i := i + 1;
      }
      assert plan[..i] == plan;
    }
  }

  ghost function Bytes(ts: seq<Transmission>): nat {
    if ts == [] then 0 else Bytes(ts[..|ts| - 1]) + ts[|ts| - 1].size
  }

  lemma {:induction false} DecodePrefix(plan: seq<Burst>, id: nat, cellLen: nat)
    requires 0 < cellLen && plan != []
    ensures var n := |plan| - 1; var b := plan[n];
            Decode(plan, id, cellLen) == Decode(plan[..n], id, cellLen) +
              if b.id == id then [Transmission(b.offset, b.size, b.size / cellLen)] else []
  {
  }

  // Every transmission takes as many whole cells as fit its bytes.
  lemma DecodedCells(plan: seq<Burst>, id: nat, cellLen: nat, x: nat)
    requires 0 < cellLen && x < |Decode(plan, id, cellLen)|
    ensures var t := Decode(plan, id, cellLen)[x]; t.cells * cellLen <= t.size < (t.cells + 1) * cellLen
  {
    var size := Decode(plan, id, cellLen)[x].size;
    assert size == size / cellLen * cellLen + size % cellLen;
  }

  lemma {:induction false} DecodedBytes(plan: seq<Burst>, id: nat, cellLen: nat)
    requires 0 < cellLen
    ensures Bytes(Decode(plan, id, cellLen)) == PlanBytes(plan, id)
  {
    if plan != [] {
      DecodePrefix(plan, id, cellLen);
      DecodedBytes(plan[..|plan| - 1], id, cellLen);
      var ts := Decode(plan, id, cellLen);
      if plan[|plan| - 1].id == id {
        assert ts[..|ts| - 1] == Decode(plan[..|plan| - 1], id, cellLen);
      } else {
        assert ts == Decode(plan[..|plan| - 1], id, cellLen);
      }
    }
  }

  // What a terminal transmits in a superframe is what it was granted; its transmissions
  // start and end inside the superframe and never overlap.
  lemma TransmissionsMatchGrant(cfg: Config, s: State, t: nat, cellLen: nat)
    requires Inv(cfg, s) && t < |cfg.rules| && 0 < cellLen
    ensures var ts, ps := Decode(s.plan, t, cellLen), Positions(s.plan, t);
            && Bytes(ts) == s.granted[t]
            && (forall x | 0 <= x < |ts| :: 0.0 <= ts[x].offset == Start(cfg.frames, cfg.duration, s.cells[ps[x]]))
            && (forall x | 0 <= x < |ts| ::
                  ts[x].offset < End(cfg.frames, cfg.duration, s.cells[ps[x]]) <= cfg.duration)
            && forall x, y | 0 <= x < y < |ts| :: !Overlap(cfg.frames, cfg.duration, s.cells[ps[x]], s.cells[ps[y]])
  {
    DecodedBytes(s.plan, t, cellLen);
    var ts, ps := Decode(s.plan, t, cellLen), Positions(s.plan, t);
    forall x | 0 <= x < |ts|
      ensures 0.0 <= ts[x].offset == Start(cfg.frames, cfg.duration, s.cells[ps[x]])
      ensures ts[x].offset < End(cfg.frames, cfg.duration, s.cells[ps[x]]) <= cfg.duration
    {
      assert Describes(cfg, s, ps[x]);
      SlotInside(cfg.frames, cfg.duration, s.cells[ps[x]]);
    }
    forall x, y | 0 <= x < y < |ts| ensures !Overlap(cfg.frames, cfg.duration, s.cells[ps[x]], s.cells[ps[y]]) {
      OneBurstAtATime(cfg, s, ps[x], ps[y]);
    }
  }
}
