// The transmit bitmap of a terminal: a fixed array of bytes, one bit for each tick of
// the common time grid.
module TerminalMask {
  import opened Superframe
  import opened Scheduler

  const MSK_LEN: nat := 512

  // 1 << k
  function Bit(k: nat): bv8
    requires k < 8
  {
    if k == 0 then 1 else if k == 1 then 2 else if k == 2 then 4 else if k == 3 then 8
    else if k == 4 then 16 else if k == 5 then 32 else if k == 6 then 64 else 128
  }

  predicate Has(x: bv8, k: nat)
    requires k < 8
  {
    x & Bit(k) != 0
  }

  lemma HasOr(x: bv8, k: nat, m: nat)
    requires k < 8 && m < 8
    ensures Has(x | Bit(k), m) <==> k == m || Has(x, m)
  {
  }

  // Bit b of a row of bytes.
  predicate HasAt(bytes: seq<bv8>, b: nat)
    requires b < 8 * |bytes|
  {
    Has(bytes[b / 8], b % 8)
  }

  // Or-ing bit k into its byte sets that bit and no other.
  lemma OneBitSet(bytes: seq<bv8>, k: nat, b: nat)
    requires k < 8 * |bytes| && b < 8 * |bytes|
    ensures HasAt(bytes[k / 8 := bytes[k / 8] | Bit(k % 8)], b) <==> HasAt(bytes, b) || b == k
  {
    if b / 8 == k / 8 {
      HasOr(bytes[k / 8], k % 8, b % 8);
    }
  }

  lemma HasNone(m: nat)
    requires m < 8
    ensures !Has(0, m)
  {
  }

  class Terminal {
    const id: nat
    const rules: seq<Rule>
    const bytes: array<bv8>

    ghost predicate Valid()
    {
      bytes.Length == MSK_LEN
    }

    constructor (id: nat, rules: seq<Rule>)
      ensures Valid() && fresh(bytes) && this.id == id && this.rules == rules
    {
      this.id := id;
      this.rules := rules;
      bytes := new bv8[MSK_LEN];
    }

    ghost predicate At(b: nat)
      requires Valid() && b < 8 * MSK_LEN
      reads bytes
    {
      Has(bytes[b / 8], b % 8)
    }

    // The bits set below size.
    ghost function Mask(size: nat): (m: set<nat>)
      requires Valid() && size <= 8 * MSK_LEN
      reads bytes
    {
      set b: nat | b < size && At(b)
    }

    // Clears the bytes that hold the first masksize bits.
    method Reset(masksize: nat)
      requires Valid() && masksize <= 8 * MSK_LEN
      modifies bytes
      ensures Mask(masksize) == {}
    {
      var n := (masksize + 7) / 8;
      var i := 0;
      while i < n
        invariant i <= n <= MSK_LEN
        invariant forall k | 0 <= k < i :: bytes[k] == 0
      {
        bytes[i] := 0;
        i := i + 1;
      }
      forall b: nat | b < masksize ensures !At(b) {
        HasNone(b % 8);
      }
    }

    method SetMask(p: nat, fieldsize: nat)
      requires Valid() && (p + 1) * fieldsize <= 8 * MSK_LEN
      modifies bytes
      ensures forall size: nat | size <= 8 * MSK_LEN && (p + 1) * fieldsize <= size ::
                Mask(size) == old(Mask(size)) + Range(p, fieldsize)
    {
      var firstbit := p * fieldsize;
      assert firstbit + fieldsize == (p + 1) * fieldsize;
      var i := 0;
      while i < fieldsize
        invariant i <= fieldsize
        invariant forall b: nat | b < 8 * MSK_LEN :: At(b) <==> old(At(b)) || firstbit <= b < firstbit + i
      {
        SetBit(firstbit + i);
        i := i + 1;
      }
    }

    // The loop body of setmask.
    method SetBit(k: nat)
      requires Valid() && k < 8 * MSK_LEN
      modifies bytes
      ensures forall b: nat | b < 8 * MSK_LEN :: At(b) <==> old(At(b)) || b == k
    {
      var j1, j2 := k / 8, k % 8;
      ghost var before := bytes[..];
      bytes[j1] := bytes[j1] | Bit(j2);
      assert bytes[..] == before[j1 := before[j1] | Bit(j2)];
      forall b: nat | b < 8 * MSK_LEN ensures At(b) <==> HasAt(before, b) || b == k {
        OneBitSet(before, k, b);
        assert At(b) == HasAt(bytes[..], b);
      }
      assert forall b: nat | b < 8 * MSK_LEN :: HasAt(before, b) == old(At(b));
    }

    method TestMask(p: nat, fieldsize: nat) returns (ok: bool)
      requires Valid() && (p + 1) * fieldsize <= 8 * MSK_LEN
      ensures forall size: nat | size <= 8 * MSK_LEN && (p + 1) * fieldsize <= size ::
                ok <==> Range(p, fieldsize) !! Mask(size)
    {
      var firstbit := p * fieldsize;
      assert firstbit + fieldsize == (p + 1) * fieldsize;
      var i := 0;
      while i < fieldsize
        invariant i <= fieldsize
        invariant forall b: nat | firstbit <= b < firstbit + i :: !At(b)
      {
        var j1, j2 := (firstbit + i) / 8, (firstbit + i) % 8;
        if Has(bytes[j1], j2) {
          assert At(firstbit + i) && InRange(p, fieldsize, firstbit + i);
          assert firstbit + i in Range(p, fieldsize);
          return false;
        }
        i := i + 1;
      }
      return true;
    }
  }
}
