/** The 4-bit count-min sketch behind the cache's admission policy. */
module CmSketch {
  import opened Arithmetic

  type u8 = x: int | 0 <= x < 256

  /** Bitwise exclusive or. */
  function Xor(a: nat, b: nat): nat {
    if a == 0 && b == 0 then 0 else (a + b) % 2 + 2 * Xor(a / 2, b / 2)
  }

  function Pow2(n: nat): (p: nat)
    ensures p > 0 && (n > 0 ==> p % 2 == 0)
  {
    if n == 0 then 1 else 2 * Pow2(n - 1)
  }

  /** The operations of a run. */
  datatype Op = Bump(item: nat) | Halve

  function Saturate(n: nat): nat {
    if n < 15 then n + 1 else 15
  }

  /** How often an item was counted: saturating at 15, halved at every reset. */
  function Exact(run: seq<Op>, item: nat): (n: nat)
    ensures n <= 15
  {
    if run == [] then 0
    else
      var n, op := Exact(run[..|run| - 1], item), run[|run| - 1];
      match op
      case Bump(x) => if x == item then Saturate(n) else n
      case Halve => n / 2
  }

  /** Between two resets the exact count is the number of increments, up to 15. */
  lemma {:induction false} ExactCounts(run: seq<Op>, item: nat)
    requires Halve !in run
    ensures Exact(run, item) == Min(15, multiset(run)[Bump(item)])
  {
    if run != [] {
      var front, op := run[..|run| - 1], run[|run| - 1];
      assert run == front + [op];
      ExactCounts(front, item);
    }
  }

  lemma ExactHalves(run: seq<Op>, item: nat)
    ensures Exact(run + [Halve], item) == Exact(run, item) / 2
  {
    assert (run + [Halve])[..|run|] == run;
  }

  /** The slot of an item in a shard: (item ^ seed) & mask. */
  function Slot(seed: nat, capacity: nat, item: nat): (s: nat)
    requires capacity > 0
    ensures s < capacity
  {
    Xor(item, seed) % capacity
  }

  lemma XorBits(a: nat, b: nat)
    ensures Xor(a, b) % 2 == (a + b) % 2 && Xor(a, b) / 2 == Xor(a / 2, b / 2)
  {
    var x, y := Xor(a, b), Xor(a / 2, b / 2);
    assert x == (a + b) % 2 + 2 * y;
    Bits(x % 2, x / 2, (a + b) % 2, y);
  }

  lemma SlotStep(seed: nat, m: nat, a: nat, b: nat)
    requires m > 0
    ensures Slot(seed, 2 * m, a) == Slot(seed, 2 * m, b)
       <==> a % 2 == b % 2 && Slot(seed / 2, m, a / 2) == Slot(seed / 2, m, b / 2)
  {
    hide Xor;
    XorBits(a, seed);
    XorBits(b, seed);
    SameLowBits(Xor(a, seed), Xor(b, seed), m);
    SameParity(a, b, seed);
  }

  lemma SameParity(a: nat, b: nat, c: nat)
    ensures (a + c) % 2 == (b + c) % 2 <==> a % 2 == b % 2
  {
  }

  /** Two items share a slot exactly when they are congruent modulo the capacity,
      whatever the seed. */
  lemma {:induction false} SharedSlotIff(seed: nat, bits: nat, a: nat, b: nat)
    ensures Slot(seed, Pow2(bits), a) == Slot(seed, Pow2(bits), b) <==> a % Pow2(bits) == b % Pow2(bits)
    decreases bits
  {
    if bits > 0 {
      hide Slot;
      var m := Pow2(bits - 1);
      SharedSlotIff(seed / 2, bits - 1, a / 2, b / 2);
      SlotStep(seed, m, a, b);
      SameLowBits(a, b, m);
    }
  }

  /** What a slot counts: every item that falls into it. */
  function SlotCount(run: seq<Op>, seed: nat, capacity: nat, slot: nat): (n: nat)
    requires capacity > 0
    ensures n <= 15
  {
    if run == [] then 0
    else
      var n, op := SlotCount(run[..|run| - 1], seed, capacity, slot), run[|run| - 1];
      match op
      case Bump(x) => if Slot(seed, capacity, x) == slot then Saturate(n) else n
      case Halve => n / 2
  }

  /** Collisions can only add. */
  lemma {:induction false} SlotAtLeastExact(run: seq<Op>, seed: nat, capacity: nat, item: nat)
    requires capacity > 0
    ensures Exact(run, item) <= SlotCount(run, seed, capacity, Slot(seed, capacity, item))
  {
    if run != [] {
      SlotAtLeastExact(run[..|run| - 1], seed, capacity, item);
    }
  }

  // ---- packed nibbles ----

  /** The counter of a slot within its byte. */
  function Nibble(b: u8, slot: nat): (n: nat)
    ensures n < 16
  {
    if slot % 2 == 0 then b % 16 else b / 16
  }

  /** x & 0x77: bits 0 to 2 and 4 to 6. */
  function Mask77(x: u8): u8 {
    x % 8 + (x / 16) % 8 * 16
  }

  /** Adding one to a counter below 15 does not carry into its neighbour. */
  lemma BumpNibble(b: u8, slot: nat)
    requires Nibble(b, slot) < 15
    ensures b + (if slot % 2 == 0 then 1 else 16) < 256
    ensures var b': u8 := b + if slot % 2 == 0 then 1 else 16;
            Nibble(b', slot) == Nibble(b, slot) + 1 && Nibble(b', slot + 1) == Nibble(b, slot + 1)
  {
  }

  /** One shift and one mask halve both counters of a byte. */
  lemma HalveByte(b: u8)
    ensures Nibble(Mask77(b / 2), 0) == Nibble(b, 0) / 2
    ensures Nibble(Mask77(b / 2), 1) == Nibble(b, 1) / 2
  {
    var hi, lo := b / 16, b % 16;
    assert b / 2 == 8 * hi + lo / 2;
    assert (b / 2) % 8 == lo / 2;
    assert (b / 2) / 16 == hi / 2;
    assert (hi / 2) % 8 == hi / 2;
  }

  /** What Estimate reads for a slot: without a mask the upper neighbour's
      counter shines through on even slots. */
  function Reading(count: nat, neighbour: nat, slot: nat): nat {
    if slot % 2 == 0 && neighbour > 0 then 15 else count
  }

  function Min(a: nat, b: nat): nat {
    if a < b then a else b
  }

  /** The unmasked shift, capped at 15, is the reading. */
  lemma ReadingOf(b: u8, slot: nat, count: nat, neighbour: nat)
    requires Nibble(b, slot) == count && (slot % 2 == 0 ==> Nibble(b, slot + 1) == neighbour)
    ensures Min(15, b / if slot % 2 == 0 then 1 else 16) == Reading(count, neighbour, slot)
  {
  }

  function Read(run: seq<Op>, seed: nat, capacity: nat, item: nat): nat
    requires capacity > 0
  {
    var slot := Slot(seed, capacity, item);
    Reading(SlotCount(run, seed, capacity, slot), SlotCount(run, seed, capacity, slot + 1), slot)
  }

  function Estimated(run: seq<Op>, seeds: seq<nat>, capacity: nat, item: nat): nat
    requires capacity > 0
  {
    if seeds == [] then 15
    else Min(Estimated(run, seeds[..|seeds| - 1], capacity, item), Read(run, seeds[|seeds| - 1], capacity, item))
  }

  /** The sketch never underestimates: over every run of increments and resets the
      estimate is at least the exact count and at most 15. */
  lemma {:induction false} NeverUnder(run: seq<Op>, seeds: seq<nat>, capacity: nat, item: nat)
    requires capacity > 0
    ensures Exact(run, item) <= Estimated(run, seeds, capacity, item) <= 15
  {
    if seeds != [] {
      NeverUnder(run, seeds[..|seeds| - 1], capacity, item);
      SlotAtLeastExact(run, seeds[|seeds| - 1], capacity, item);
    }
  }

  /** No other item of the run falls into the slot, nor into its upper neighbour if
      that shines through. */
  ghost predicate Alone(run: seq<Op>, seed: nat, capacity: nat, item: nat)
    requires capacity > 0
  {
    var slot := Slot(seed, capacity, item);
    forall j :: 0 <= j < |run| && run[j].Bump? && run[j].item != item ==>
      var other := Slot(seed, capacity, run[j].item);
      other != slot && (slot % 2 == 0 ==> other != slot + 1)
  }

  lemma {:induction false} AloneCounts(run: seq<Op>, seed: nat, capacity: nat, item: nat)
    requires capacity > 0 && Alone(run, seed, capacity, item)
    ensures var slot := Slot(seed, capacity, item);
            && SlotCount(run, seed, capacity, slot) == Exact(run, item)
            && (slot % 2 == 0 ==> SlotCount(run, seed, capacity, slot + 1) == 0)
  {
    if run != [] {
      hide Slot;
      var front := run[..|run| - 1];
      assert forall j :: 0 <= j < |front| ==> front[j] == run[j];
      AloneCounts(front, seed, capacity, item);
      assert run[|run| - 1].Bump? && run[|run| - 1].item != item ==>
               Slot(seed, capacity, run[|run| - 1].item) != Slot(seed, capacity, item);
    }
  }

  lemma {:induction false} EstimatedAtMost(run: seq<Op>, seeds: seq<nat>, capacity: nat, item: nat, i: nat)
    requires capacity > 0 && i < |seeds|
    ensures Estimated(run, seeds, capacity, item) <= Read(run, seeds[i], capacity, item)
  {
    if i < |seeds| - 1 {
      EstimatedAtMost(run, seeds[..|seeds| - 1], capacity, item, i);
    }
  }

  /** The estimate is exact when the item is alone in some shard. */
  lemma AloneIsExact(run: seq<Op>, seeds: seq<nat>, capacity: nat, item: nat, i: nat)
    requires capacity > 0 && i < |seeds| && Alone(run, seeds[i], capacity, item)
    ensures Estimated(run, seeds, capacity, item) == Exact(run, item)
  {
    NeverUnder(run, seeds, capacity, item);
    EstimatedAtMost(run, seeds, capacity, item, i);
    AloneCounts(run, seeds[i], capacity, item);
  }

  class CMSketch4Bits {
    const capacity: nat
    const seeds: seq<nat>
    /** One row of packed counters per shard. */
    const data: array2<u8>
    ghost var run: seq<Op>

    ghost predicate Valid()
      reads this, data
    {
      && capacity > 0 && capacity % 2 == 0 && data.Length0 == |seeds| && data.Length1 == capacity / 2
      && forall i, slot :: 0 <= i < |seeds| && 0 <= slot < capacity ==>
           Nibble(data[i, slot / 2], slot) == SlotCount(run, seeds[i], capacity, slot)
    }

    constructor (capacityBit: nat, seeds: seq<nat>)
      requires capacityBit >= 1
      ensures Valid() && run == [] && this.seeds == seeds && capacity == Pow2(capacityBit) && fresh(data)
    {
      capacity := Pow2(capacityBit);
      this.seeds := seeds;
      data := new u8[|seeds|, Pow2(capacityBit) / 2]((_, _) => 0);
      run := [];
    }

    /** Increment: afterwards every counter of every shard is exactly what the run
        says, so no increment spilled into a neighbour. */
    method Increment(item: nat)
      requires Valid()
      modifies data, this`run
      ensures Valid() && run == old(run) + [Bump(item)]
    {
      ghost var run' := run + [Bump(item)];
      assert run'[..|run|] == run;
      for i := 0 to |seeds|
        invariant run == old(run)
        invariant forall j, slot :: 0 <= j < |seeds| && 0 <= slot < capacity ==>
                    Nibble(data[j, slot / 2], slot) == SlotCount(if j < i then run' else run, seeds[j], capacity, slot)
      {
        var index := Slot(seeds[i], capacity, item);
        var b := data[i, index / 2];
        if Nibble(b, index) < 15 {
          BumpNibble(b, index);
          data[i, index / 2] := b + if index % 2 == 0 then 1 else 16;
        }
        forall slot | 0 <= slot < capacity
          ensures Nibble(data[i, slot / 2], slot) == SlotCount(run', seeds[i], capacity, slot)
        {
          assert SlotCount(run', seeds[i], capacity, slot)
              == if index == slot then Saturate(SlotCount(run, seeds[i], capacity, slot))
                 else SlotCount(run, seeds[i], capacity, slot);
        }
      }
      run := run';
    }

    /** Estimate: the minimum over the shards of what each reading shows. */
    method Estimate(item: nat) returns (res: nat)
      requires Valid()
      ensures res == Estimated(run, seeds, capacity, item)
      ensures Exact(run, item) <= res <= 15
      ensures (exists i :: 0 <= i < |seeds| && Alone(run, seeds[i], capacity, item)) ==> res == Exact(run, item)
    {
      res := 15;
      for i := 0 to |seeds|
        invariant res == Estimated(run, seeds[..i], capacity, item) <= 15
      {
        var index := Slot(seeds[i], capacity, item);
        var b := data[i, index / 2];
        ReadingOf(b, index, SlotCount(run, seeds[i], capacity, index), SlotCount(run, seeds[i], capacity, index + 1));
        assert seeds[..i + 1][..i] == seeds[..i];
        res := Min(res, b / if index % 2 == 0 then 1 else 16);
      }
      assert seeds[..|seeds|] == seeds;
      NeverUnder(run, seeds, capacity, item);
      if i :| 0 <= i < |seeds| && Alone(run, seeds[i], capacity, item) {
        AloneIsExact(run, seeds, capacity, item, i);
      }
    }

    /** Reset halves every counter. */
    method Reset()
      requires Valid()
      modifies data, this`run
      ensures Valid() && run == old(run) + [Halve]
    {
      ghost var run' := run + [Halve];
      assert run'[..|run|] == run;
      for i := 0 to |seeds|
        invariant run == old(run)
        invariant forall j, slot :: 0 <= j < |seeds| && 0 <= slot < capacity ==>
                    Nibble(data[j, slot / 2], slot) == SlotCount(if j < i then run' else run, seeds[j], capacity, slot)
      {
        for k := 0 to capacity / 2
          invariant run == old(run)
          invariant forall j, slot :: 0 <= j < |seeds| && 0 <= slot < capacity ==>
                      Nibble(data[j, slot / 2], slot)
                      == SlotCount(if j < i || (j == i && slot / 2 < k) then run' else run, seeds[j], capacity, slot)
        {
          HalveByte(data[i, k]);
          assert Nibble(data[i, k], 2 * k) == SlotCount(run, seeds[i], capacity, 2 * k) by { assert 2 * k / 2 == k; }
          assert Nibble(data[i, k], 2 * k + 1) == SlotCount(run, seeds[i], capacity, 2 * k + 1)
            by { assert (2 * k + 1) / 2 == k; }
          data[i, k] := Mask77(data[i, k] / 2);
        }
      }
      run := run';
    }
  }
}
