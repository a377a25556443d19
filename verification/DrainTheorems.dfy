/**
 * What the drain protocol guarantees on every interleaving of the writer and any number
 * of workers, and exactly where the guarantee ends.
 */
module DrainTheorems {
  import opened Bytes
  import opened RingIndex
  import opened DrainProtocol
  import opened DrainSafety

  lemma Reached(s0: State, steps: seq<Step>, t: State)
    requires Init(s0) && BoundedRun(s0, steps, t)
    ensures Inv(t)
  {
    InitHasInv(s0);
    RunKeepsInv(s0, steps, t);
  }

  /** Claimed by a worker and completed by it. */
  ghost predicate Completed(s: State, batch: nat) {
    s.first <= batch < s.claim && !Held(s.workers, batch)
  }

  /**
   * The reuse frontier is the first batch that is not complete, the bitmap never aliases,
   * and the consume index the writer acts on is a batch boundary at or below the frontier.
   */
  lemma {:induction false} FrontierIsLeastIncomplete(s0: State, steps: seq<Step>, t: State)
    requires Init(s0) && BoundedRun(s0, steps, t)
    ensures forall b: nat :: t.first <= b < t.release ==> Completed(t, b)
    ensures !Completed(t, t.release)
    ensures t.claim - t.release <= 63
    ensures |t.done| == 64 && forall b :: t.release <= b < t.release + 64 ==> (t.done[b % 64] <==> Completed(t, b))
    ensures 0 <= t.consumed <= 32 * t.release <= |t.published| < t.consumed + 2048
  {
    Reached(s0, steps, t);
    assert Flag(t.done, t.release) == t.done[t.release % 64];
    forall v: nat, b: nat | Holds(t.workers, v, b) ensures t.release <= b {
      assert WorkerInv(t.workers[v], |t.published|, t.claim, t.release);
    }
    forall b | t.release <= b < t.release + 64 ensures t.done[b % 64] <==> Completed(t, b) {
      assert Flag(t.done, b) == t.done[b % 64];
    }
  }

  /** No slot of a claimed, unreleased batch changes, whatever the writer and the workers do. */
  lemma ClaimedSlotsNeverOverwritten(s0: State, steps: seq<Step>, s: State, step: Step, batch: nat)
    requires Init(s0) && BoundedRun(s0, steps, s)
    requires Enabled(s, step) && HalfRing(s, step)
    requires s.release <= batch < s.claim
    ensures BATCH_SLOTS * (batch + 1) <= |s.published| && BatchStart(batch) + BATCH_SLOTS <= |s.slots|
    ensures Apply(s, step).slots[BatchStart(batch)..BatchStart(batch) + BATCH_SLOTS]
            == s.slots[BatchStart(batch)..BatchStart(batch) + BATCH_SLOTS]
            == BatchPackets(s.published, batch)
  {
    Reached(s0, steps, s);
    BatchReadsAsPublished(s.slots, s.published, s.release, batch);
    if step.WriterBurst? {
      var t := Apply(s, step);
      StepKeepsInv(s, step);
      BatchReadsAsPublished(t.slots, t.published, t.release, batch);
    }
  }

  /**
   * Conservation: every completed batch is on the wire exactly once and carries exactly
   * the 32 packets published into it; nothing else is on the wire.
   */
  lemma EveryBatchSentExactlyOnce(s0: State, steps: seq<Step>, t: State)
    requires Init(s0) && BoundedRun(s0, steps, t)
    ensures forall i :: 0 <= i < |t.wire| ==>
              && BATCH_SLOTS * (t.wire[i].batch + 1) <= |t.published|
              && t.wire[i].data == BatchPackets(t.published, t.wire[i].batch)
    ensures forall b: nat :: Completed(t, b) ==> exists i: nat :: i < |t.wire| && t.wire[i].batch == b
    ensures forall i, j :: 0 <= i < j < |t.wire| ==> t.wire[i].batch != t.wire[j].batch
  {
    Reached(s0, steps, t);
    forall b: nat | Completed(t, b) ensures exists i: nat :: i < |t.wire| && t.wire[i].batch == b {
      assert forall v: nat :: HoldsUnsent(t.workers, v, b) ==> Holds(t.workers, v, b);
      assert Sent(t.wire, b);
    }
  }

  /** A claim takes the next batch in publication order, fully published, held by nobody. */
  lemma ClaimsInPublicationOrder(s0: State, steps: seq<Step>, s: State, w: nat)
    requires Init(s0) && BoundedRun(s0, steps, s) && Enabled(s, Decide(w))
    ensures var t := Apply(s, Decide(w));
            if t.workers[w].Sending? then
              && t.workers[w].batch == s.first + |s.owners| && t.owners == s.owners + [w]
              && BATCH_SLOTS * (t.workers[w].batch + 1) <= |s.published|
              && (forall v: nat :: v != w ==> !Holds(t.workers, v, t.workers[w].batch))
            else t.owners == s.owners && t.claim == s.claim
  {
    Reached(s0, steps, s);
    assert WorkerInv(s.workers[w], |s.published|, s.claim, s.release);
    DecideKeeps(s, w);
  }

  /** The pushed consume index never moves back and never passes what was published. */
  lemma ConsumeIsMonotone(s0: State, steps: seq<Step>, s: State, step: Step)
    requires Init(s0) && BoundedRun(s0, steps, s)
    requires Enabled(s, step) && HalfRing(s, step)
    ensures s.consumed <= Apply(s, step).consumed <= |Apply(s, step).published|
  {
    Reached(s0, steps, s);
    StepKeepsInv(s, step);
    if step.Push? {
      assert !s.workers[step.w].Idle? && s.lock == Some(step.w);
      assert WorkerInv(s.workers[step.w], |s.published|, s.claim, s.release);
      BatchStartIsMasked(s.release);
      AbsoluteOfMasked(|s.published|, BATCH_SLOTS * s.release);
    }
  }

  /** The writer drops a packet exactly when 2,047 slots above the consume index are in use. */
  lemma WriterDropsIffFull(s0: State, steps: seq<Step>, t: State)
    requires Init(s0) && BoundedRun(s0, steps, t) && !t.writing
    ensures Enabled(t, WriterDrop) <==> |t.published| == t.consumed + 2047
    ensures Enabled(t, WriterBegin) <==> |t.published| < t.consumed + 2047
  {
    Reached(s0, steps, t);
    FullTestIsExact(|t.published|, t.consumed);
  }

  /** This worker can look and will then hold the next batch. */
  predicate CanClaim(t: State, w: nat) {
    Enabled(t, Look(w)) && Enabled(Apply(t, Look(w)), Decide(w))
    && Apply(Apply(t, Look(w)), Decide(w)).workers[w] == Sending(t.claim, BatchStart(t.claim), 32)
  }

  /** This worker holds a batch and can send it, or complete it once the lock is free. */
  predicate CanFinish(t: State, w: nat) {
    if w < |t.workers| && t.workers[w].Sending? && t.workers[w].remaining != 0 then Enabled(t, SendOk(w))
    else t.lock == None ==> Enabled(t, Complete(w))
  }

  /**
   * No reachable state is stuck: the lock owner can move on; a worker that holds a batch can send
   * or complete it; and with the lock free the writer can store a packet, every worker can claim
   * a batch, or some worker holds one.
   */
  lemma NeverStuck(s0: State, steps: seq<Step>, t: State)
    requires Init(s0) && BoundedRun(s0, steps, t) && t.phase == Running
    ensures t.lock.Some? ==>
              var w := t.lock.value;
              Enabled(t, Decide(w)) || Enabled(t, ReadBack(w)) || Enabled(t, Push(w))
    ensures forall w: nat :: w < |t.workers| && t.workers[w].Sending? ==> CanFinish(t, w)
    ensures t.lock == None ==>
              || Enabled(t, WriterBegin) || Enabled(t, WriterPublish)
              || (forall w: nat :: w < |t.workers| ==> CanClaim(t, w))
              || exists w: nat :: w < |t.workers| && t.workers[w].Sending?
  {
    Reached(s0, steps, t);
    HolderCanFinish(t);
    if t.lock.Some? {
      OwnerCanMove(t);
    } else {
      FreeLockProgress(t);
    }
  }

  lemma HolderCanFinish(t: State)
    requires Inv(t) && t.phase == Running
    ensures forall w: nat :: w < |t.workers| && t.workers[w].Sending? ==> CanFinish(t, w)
  {
    forall w: nat | w < |t.workers| && t.workers[w].Sending? ensures CanFinish(t, w) {
      assert WorkerInv(t.workers[w], |t.published|, t.claim, t.release);
      BatchStartIsMasked(t.workers[w].batch);
    }
  }

  lemma OwnerCanMove(t: State)
    requires LockInv(t.lock, t.workers) && t.lock.Some? && t.phase == Running
    ensures var w := t.lock.value;
            Enabled(t, Decide(w)) || Enabled(t, ReadBack(w)) || Enabled(t, Push(w))
  {
    var owner := t.workers[t.lock.value];
    assert owner.Looking? || owner.Completing? || owner.Pushing?;
  }

  lemma FreeLockProgress(t: State)
    requires Inv(t) && t.lock == None && t.phase == Running
    ensures || Enabled(t, WriterBegin) || Enabled(t, WriterPublish)
            || (forall w: nat :: w < |t.workers| ==> CanClaim(t, w))
            || (exists w: nat :: w < |t.workers| && t.workers[w].Sending?)
  {
    if forall w: nat :: w < |t.workers| ==> !t.workers[w].Sending? {
      AllIdleIsSettled(t);
      RoomOrBatch(|t.published|, t.consumed, t.claim);
      forall w: nat | w < |t.workers| ensures t.workers[w].Idle? { assert t.lock != Some(w); }
    }
  }

  /** With nothing claimed and unreleased, fewer than 32 slots in use leave the writer room. */
  lemma RoomOrBatch(produce: nat, consumed: nat, claim: nat)
    requires consumed == BATCH_SLOTS * claim <= produce < consumed + RING_SLOTS
    ensures MaskedDiff(Masked(produce), BatchStart(claim)) >= BATCH_SLOTS || Masked(produce + 1) != Masked(consumed)
  {
    AvailableIsDistance(produce, claim);
    FullTestIsExact(produce, consumed);
  }

  lemma AllIdleIsSettled(t: State)
    requires Inv(t) && t.lock == None
    requires forall w: nat :: w < |t.workers| ==> !t.workers[w].Sending?
    ensures t.consumed == BATCH_SLOTS * t.release && t.release == t.claim
  {
    assert Settled(t.workers) by {
      forall w: nat | w < |t.workers| ensures t.workers[w].Idle? { assert t.lock != Some(w); }
    }
    assert forall w: nat :: !Holds(t.workers, w, t.release);
    assert !Held(t.workers, t.release);
  }
}
