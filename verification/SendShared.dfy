/** The state two sender threads share, and the three critical pieces of a worker's loop. */
module SendShared {
  import opened Bytes
  import opened RingIndex
  import opened DrainProtocol

  /** `count` consecutive slots from `start`, wrapping at the end of the ring. */
  function Cyclic(ring: seq<Packet>, start: nat, count: nat): (r: seq<Packet>)
    requires |ring| == RING_SLOTS
    ensures |r| == count
    ensures forall k :: 0 <= k < count ==> r[k] == ring[(start + k) % RING_SLOTS]
  {
    seq(count, k requires 0 <= k < count => ring[(start + k) % RING_SLOTS])
  }

  class Shared {
    var claimBatch: nat
    var releaseBatch: nat
    var doneFlags: seq<bool>
    var consumeReg: nat

    ghost predicate Valid() reads this { |doneFlags| == FLAG_BITS }

    /** Start-up: begin at the batch boundary at or below the writer's produce index. */
    constructor (ctrlProduce: nat)
      ensures Valid() && claimBatch == releaseBatch && consumeReg == BATCH_SLOTS * claimBatch
      ensures consumeReg <= Masked(ctrlProduce) < consumeReg + BATCH_SLOTS
      ensures forall b: nat :: !Flag(doneFlags, b)
    {
      var produce0 := Masked(ctrlProduce);
      var aligned0 := produce0 / BATCH_SLOTS * BATCH_SLOTS;
      if aligned0 != produce0 {
        produce0 := aligned0;
      }
      claimBatch := produce0 / BATCH_SLOTS;
      releaseBatch := produce0 / BATCH_SLOTS;
      doneFlags := seq(FLAG_BITS, _ => false);
      consumeReg := produce0;
    }

    /** Claim the next batch in order, only if the writer has published all of it. */
    method Claim(ctrlProduce: nat) returns (claimed: bool, batch: nat, start: nat)
      requires Valid()
      modifies this`claimBatch
      ensures Valid() && batch == old(claimBatch) && start == BatchStart(batch)
      ensures claimed == (MaskedDiff(Masked(ctrlProduce), start) >= BATCH_SLOTS)
      ensures claimBatch == old(claimBatch) + if claimed then 1 else 0
    {
      var produce := Masked(ctrlProduce);
      batch := claimBatch;
      start := BatchStart(batch);
      var available := MaskedDiff(produce, start);
      claimed := available >= BATCH_SLOTS;
      if claimed {
        claimBatch := claimBatch + 1;
      }
    }

    /** Mark a batch complete, advance the frontier over complete batches, push it clamped. */
    method Complete(batch: nat, ctrlProduce: nat)
      requires Valid()
      modifies this`doneFlags, this`releaseBatch, this`consumeReg
      ensures Valid()
      ensures (doneFlags, releaseBatch) == Release(SetFlag(old(doneFlags), batch, true), old(releaseBatch))
      ensures consumeReg == Clamp(BatchStart(releaseBatch), Masked(ctrlProduce))
    {
      doneFlags := SetFlag(doneFlags, batch, true);
      while Flag(doneFlags, releaseBatch)
        invariant Valid()
        invariant Release(doneFlags, releaseBatch) == Release(SetFlag(old(doneFlags), batch, true), old(releaseBatch))
        decreases BitCount(doneFlags)
      {
        ClearingLowersBitCount(doneFlags, releaseBatch % FLAG_BITS);
        doneFlags := SetFlag(doneFlags, releaseBatch, false);
        releaseBatch := releaseBatch + 1;
      }
      var frontier := BatchStart(releaseBatch);
      var produceNow := Masked(ctrlProduce);
      if MaskedDiff(frontier, produceNow) < RING_SLOTS / 2 {
        frontier := produceNow;
      }
      consumeReg := frontier;
    }
  }

  /**
   * The two critical sections are the protocol's steps run back to back: `Claim` is `Look` and
   * `Decide`, `Complete` is `Complete`, `ReadBack` and `Push`, as far as the shared fields go.
   */
  lemma ClaimIsLookAndDecide(s: State, w: nat)
    requires Enabled(s, Look(w))
    ensures Enabled(Apply(s, Look(w)), Decide(w))
    ensures var t := Apply(Apply(s, Look(w)), Decide(w));
            var start := BatchStart(s.claim);
            var claimed := MaskedDiff(Masked(|s.published|), start) >= BATCH_SLOTS;
            && t == s.(workers := s.workers[w := if claimed then Sending(s.claim, start, BATCH_SLOTS) else Idle],
                       claim := s.claim + (if claimed then 1 else 0), owners := t.owners, lock := None)
            && t.owners == if claimed then s.owners + [w] else s.owners
  {
  }

  lemma CompleteIsThreeSteps(s: State, w: nat)
    requires Enabled(s, DrainProtocol.Complete(w))
    ensures var a := Apply(s, DrainProtocol.Complete(w));
            && Enabled(a, ReadBack(w)) && Enabled(Apply(a, ReadBack(w)), Push(w))
            && var t := Apply(Apply(a, ReadBack(w)), Push(w));
               && (t.done, t.release) == Release(SetFlag(s.done, s.workers[w].batch, true), s.release)
               && t.consumeReg == Clamp(BatchStart(t.release), Masked(|s.published|))
               && t == s.(workers := s.workers[w := Idle], done := t.done, release := t.release,
                          consumeReg := t.consumeReg, consumed := t.consumed, lock := None)
  {
    var a := Apply(s, DrainProtocol.Complete(w));
    var b := Apply(a, ReadBack(w));
    assert b.workers == s.workers[w := b.workers[w]];
  }

  /**
   * The send loop for one batch. `outcomes` says which `send_gso` calls succeed; a failed
   * call restarts the batch. When it ends, the last attempt has sent the 32 slots from
   * `start` in ring order, in as many parts as the ring end forces.
   */
  method SendBatch(ring: seq<Packet>, start: nat, outcomes: seq<bool>) returns (done: bool, sent: seq<Packet>)
    requires |ring| == RING_SLOTS && start < RING_SLOTS
    ensures done ==> sent == Cyclic(ring, start, BATCH_SLOTS)
    ensures (forall i :: 0 <= i < |outcomes| ==> outcomes[i]) && |outcomes| >= 2 ==> done
  {
    var used := 0;
    done, sent := false, [];
    while !done && used < |outcomes|
      invariant 0 <= used <= |outcomes|
      invariant done ==> sent == Cyclic(ring, start, BATCH_SLOTS)
      invariant (forall i :: 0 <= i < |outcomes| ==> outcomes[i]) && |outcomes| >= 2 ==> done || used == 0
      decreases |outcomes| - used
    {
      var remaining, cur, failed := BATCH_SLOTS, start, false;
      ghost var begun := used;
      sent := [];
      while remaining != 0 && !failed && used < |outcomes|
        invariant begun <= used <= |outcomes| && 0 <= remaining <= BATCH_SLOTS
        invariant |sent| == BATCH_SLOTS - remaining && cur == (start + |sent|) % RING_SLOTS
        invariant forall k :: 0 <= k < |sent| ==> sent[k] == ring[(start + k) % RING_SLOTS]
        invariant used == begun ==> !failed && remaining == BATCH_SLOTS && cur == start
        invariant used == begun + 1 ==> failed || remaining == 0 || cur == 0
        invariant used > begun + 1 ==> failed || remaining == 0
        invariant failed ==> exists i :: 0 <= i < |outcomes| && !outcomes[i]
        decreases |outcomes| - used
      {
        var part := PartSlots(cur, remaining);
        if outcomes[used] {
          sent := sent + ring[cur..cur + part];
          remaining := remaining - part;
          cur := Masked(cur + part);
        } else {
          failed := true;
        }
        used := used + 1;
      }
      done := !failed && remaining == 0;
    }
  }
}
