/**
 * Index arithmetic of the DDR packet ring: 2,048 slots, batches of 32, and a 64-bit
 * completion bitmap. Absolute batch and slot numbers are unbounded here; the machine
 * words the sender really computes with are written out as remainders.
 */
module RingIndex {
  const RING_SLOTS: nat := 2048
  const BATCH_SLOTS: nat := 32
  const FLAG_BITS: nat := 64

  /** `x & ring_mask` */
  function Masked(x: int): nat { x % RING_SLOTS }

  /** `(a - b) & ring_mask` in 32-bit unsigned arithmetic. */
  function MaskedDiff(a: nat, b: nat): nat { Masked((a - b) % 0x1_0000_0000) }

  /** The slot number within one ring length below `produce` that the index `reg` stands for. */
  function Absolute(produce: nat, reg: nat): int { produce - Masked(produce - reg) }

  /** `(uint32_t)((batch * MAX_GSO_SLOTS) & ring_mask)`, the product in 64 bits. */
  function BatchStart(batch: nat): nat {
    Masked((batch * BATCH_SLOTS) % 0x1_0000_0000_0000_0000)
  }

  /** The half-ring comparison that may replace the frontier by the produce index. */
  function Clamp(frontier: nat, produce: nat): nat {
    if MaskedDiff(frontier, produce) < RING_SLOTS / 2 then produce else frontier
  }

  /** Bit `batch % 64` of the completion bitmap. */
  predicate Flag(flags: seq<bool>, batch: nat)
    requires |flags| == FLAG_BITS
  {
    flags[batch % FLAG_BITS]
  }

  function SetFlag(flags: seq<bool>, batch: nat, value: bool): (r: seq<bool>)
    requires |flags| == FLAG_BITS
    ensures |r| == FLAG_BITS
  {
    flags[batch % FLAG_BITS := value]
  }

  lemma FlagRepeats(flags: seq<bool>, batch: nat)
    requires |flags| == FLAG_BITS
    ensures Flag(flags, batch + FLAG_BITS) == Flag(flags, batch)
  {
  }

  /** In any window of 64 batches that holds `batch`, only its own flag changes. */
  lemma SetFlagInWindow(flags: seq<bool>, batch: nat, value: bool, base: nat)
    requires |flags| == FLAG_BITS && base <= batch < base + FLAG_BITS
    ensures forall b :: base <= b < base + FLAG_BITS ==>
              Flag(SetFlag(flags, batch, value), b) == if b == batch then value else Flag(flags, b)
  {
    forall b | base <= b < base + FLAG_BITS && b != batch
      ensures b % FLAG_BITS != batch % FLAG_BITS
    {
    }
  }

  function BitCount(flags: seq<bool>): nat {
    if flags == [] then 0 else (if flags[0] then 1 else 0) + BitCount(flags[1..])
  }

  lemma {:induction false} ClearingLowersBitCount(flags: seq<bool>, k: nat)
    requires k < |flags| && flags[k]
    ensures BitCount(flags[k := false]) == BitCount(flags) - 1
  {
    if k == 0 {
      assert flags[k := false][1..] == flags[1..];
    } else {
      ClearingLowersBitCount(flags[1..], k - 1);
      assert flags[k := false][1..] == flags[1..][k - 1 := false];
    }
  }

  /** The release loop: clear the flag of the first unreleased batch while it is set. */
  function Release(flags: seq<bool>, release: nat): (r: (seq<bool>, nat))
    requires |flags| == FLAG_BITS
    decreases BitCount(flags)
  {
    if Flag(flags, release) then
      ClearingLowersBitCount(flags, release % FLAG_BITS);
      Release(SetFlag(flags, release, false), release + 1)
    else (flags, release)
  }

  /** The loop passes exactly the run of set flags and keeps every later flag of the window. */
  lemma {:induction false} ReleaseStopsAtFirstClear(flags: seq<bool>, release: nat)
    requires |flags| == FLAG_BITS
    ensures var (f, r) := Release(flags, release);
            && |f| == FLAG_BITS && release <= r <= release + FLAG_BITS
            && !Flag(f, r)
            && (forall b :: release <= b < r ==> Flag(flags, b))
            && (r < release + FLAG_BITS ==> !Flag(flags, r))
            && (forall b :: release <= b < release + FLAG_BITS ==> Flag(f, b) == (r <= b && Flag(flags, b)))
    decreases BitCount(flags)
  {
    if Flag(flags, release) {
      ClearingLowersBitCount(flags, release % FLAG_BITS);
      var cleared := SetFlag(flags, release, false);
      ReleaseStopsAtFirstClear(cleared, release + 1);
      SetFlagInWindow(flags, release, false, release);
      var (f, r) := Release(cleared, release + 1);
      FlagRepeats(cleared, release);
      FlagRepeats(f, release);
      assert r <= release + FLAG_BITS;
      forall b | release <= b < release + FLAG_BITS
        ensures Flag(f, b) == (r <= b && Flag(flags, b))
      {
        if b != release {
          assert Flag(f, b) == (r <= b && Flag(cleared, b));
        }
      }
    }
  }

  // ----- masked arithmetic, one division at a time ---------------------------------------------

  lemma MaskedDropsLaps(laps: nat, slot: nat)
    requires slot < RING_SLOTS
    ensures Masked(RING_SLOTS * laps + slot) == slot
  {
  }

  lemma MaskedRepeats(slot: nat)
    ensures Masked(slot + RING_SLOTS) == Masked(slot)
  {
    var laps := slot / RING_SLOTS;
    assert slot + RING_SLOTS == RING_SLOTS * (laps + 1) + Masked(slot);
    MaskedDropsLaps(laps + 1, Masked(slot));
  }

  /** Going on by less than one lap. */
  lemma MaskedAhead(slot: nat, d: nat)
    requires d < RING_SLOTS
    ensures var m := Masked(slot) + d; Masked(slot + d) == if m < RING_SLOTS then m else m - RING_SLOTS
  {
    var laps, m := slot / RING_SLOTS, Masked(slot) + d;
    assert slot + d == RING_SLOTS * laps + m;
    if m < RING_SLOTS { MaskedDropsLaps(laps, m); } else { MaskedDropsLaps(laps + 1, m - RING_SLOTS); }
  }

  /** A difference of two slots, wrapped to 32 bits and masked. */
  lemma MaskedWrap(a: nat, b: nat)
    requires a < RING_SLOTS && b < RING_SLOTS
    ensures MaskedDiff(a, b) == if a >= b then a - b else a - b + RING_SLOTS
  {
    if a < b {
      assert (a - b) % 0x1_0000_0000 == 0x1_0000_0000 + a - b;
      MaskedDropsLaps(0x20_0000 - 1, a - b + RING_SLOTS);
    }
  }

  /** Inside one ring length the masked difference is the true distance. */
  lemma DiffIsDistance(ahead: nat, behind: nat)
    requires behind <= ahead < behind + RING_SLOTS
    ensures MaskedDiff(Masked(ahead), Masked(behind)) == ahead - behind
  {
    MaskedAhead(behind, ahead - behind);
    MaskedWrap(Masked(ahead), Masked(behind));
  }

  lemma AbsoluteOfMasked(produce: nat, slot: nat)
    requires slot <= produce < slot + RING_SLOTS
    ensures Absolute(produce, Masked(slot)) == slot
  {
    var laps := slot / RING_SLOTS;
    assert produce - Masked(slot) == RING_SLOTS * laps + (produce - slot);
    MaskedDropsLaps(laps, produce - slot);
  }

  lemma BatchStartIsMasked(batch: nat)
    ensures BatchStart(batch) == Masked(BATCH_SLOTS * batch) <= RING_SLOTS - BATCH_SLOTS
  {
    var laps, within := batch / FLAG_BITS, batch % FLAG_BITS;
    assert BATCH_SLOTS * batch == RING_SLOTS * laps + BATCH_SLOTS * within;
    MaskedDropsLaps(laps, BATCH_SLOTS * within);
    WordKeepsLaps(laps, BATCH_SLOTS * within);
  }

  /** What a claimer sees of its batch is what has been published from its first slot on. */
  lemma AvailableIsDistance(produce: nat, batch: nat)
    requires BATCH_SLOTS * batch <= produce < BATCH_SLOTS * batch + RING_SLOTS
    ensures MaskedDiff(Masked(produce), BatchStart(batch)) == produce - BATCH_SLOTS * batch
  {
    BatchStartIsMasked(batch);
    DiffIsDistance(produce, BATCH_SLOTS * batch);
  }

  /** Cutting to 64 bits removes whole laps. */
  lemma WordKeepsLaps(laps: nat, slot: nat)
    requires slot < RING_SLOTS
    ensures Masked((RING_SLOTS * laps + slot) % 0x1_0000_0000_0000_0000) == slot
  {
    var rounds, left := laps / 0x20_0000_0000_0000, laps % 0x20_0000_0000_0000;
    assert RING_SLOTS * laps + slot == 0x1_0000_0000_0000_0000 * rounds + (RING_SLOTS * left + slot);
    assert (RING_SLOTS * laps + slot) % 0x1_0000_0000_0000_0000 == RING_SLOTS * left + slot;
    MaskedDropsLaps(left, slot);
  }

  lemma SlotInBatch(batch: nat, k: nat)
    requires k < BATCH_SLOTS
    ensures Masked(BATCH_SLOTS * batch + k) == BatchStart(batch) + k
  {
    BatchStartIsMasked(batch);
    MaskedAhead(BATCH_SLOTS * batch, k);
  }

  /** Distinct slot numbers less than one ring length apart are distinct slots. */
  lemma SlotsDiffer(i: nat, j: nat)
    requires i < j < i + RING_SLOTS
    ensures Masked(i) != Masked(j)
  {
    MaskedAhead(i, j - i);
  }

  /** The writer's drop test is exact: it fires when one slot short of a full ring is in use. */
  lemma FullTestIsExact(produce: nat, consumed: nat)
    requires consumed <= produce < consumed + RING_SLOTS
    ensures Masked(produce + 1) == Masked(consumed) <==> produce + 1 == consumed + RING_SLOTS
  {
    MaskedAhead(consumed, produce - consumed);
    MaskedAhead(produce, 1);
  }

  /**
   * The exact clamp law. `frontier` and `produce` are absolute slot numbers at most
   * one ring length apart; the value pushed to the writer is the frontier exactly when
   * the backlog is at most half the ring, and is the produce index otherwise.
   */
  lemma ClampLaw(frontier: nat, produce: nat)
    requires frontier <= produce < frontier + RING_SLOTS
    ensures Clamp(Masked(frontier), Masked(produce)) == Masked(frontier) <==> produce - frontier <= RING_SLOTS / 2
    ensures produce - frontier > RING_SLOTS / 2 ==> Clamp(Masked(frontier), Masked(produce)) == Masked(produce)
  {
    MaskedAhead(frontier, produce - frontier);
    MaskedWrap(Masked(frontier), Masked(produce));
  }
}
