/** Every step of a run with at most half a ring of backlog keeps the protocol invariant. */
module DrainSafety {
  import opened Bytes
  import opened RingIndex
  import opened DrainProtocol

  // ----- facts about single components ----------------------------------------------------

  lemma MoveHolds(ws: seq<Worker>, w: nat, to: Worker, moved: seq<Worker>)
    requires w < |ws| && moved == ws[w := to]
    ensures forall v: nat, b: nat :: Holds(moved, v, b) ==
              if v == w then to.Sending? && to.batch == b else Holds(ws, v, b)
    ensures forall v: nat, b: nat :: HoldsUnsent(moved, v, b) ==
              if v == w then to.Sending? && to.batch == b && to.remaining != 0 else HoldsUnsent(ws, v, b)
  {
  }

  /** A move between states that hold no batch keeps every clause about holdings. */
  lemma QuietKeeps(s: State, w: nat, to: Worker, moved: seq<Worker>)
    requires Inv(s) && w < |s.workers| && !s.workers[w].Sending? && !to.Sending?
    requires moved == s.workers[w := to]
    ensures Exclusive(moved)
    ensures BitmapInv(s.done, s.claim, s.release, moved)
    ensures SentInv(s.wire, moved, s.first, s.claim)
  {
    MoveHolds(s.workers, w, to, moved);
    forall b: nat
      ensures Held(moved, b) == Held(s.workers, b)
      ensures Unsent(moved, b) == Unsent(s.workers, b)
    {
      if v: nat :| Holds(s.workers, v, b) { assert Holds(moved, v, b); }
      if v: nat :| Holds(moved, v, b) { assert Holds(s.workers, v, b); }
      if v: nat :| HoldsUnsent(s.workers, v, b) { assert HoldsUnsent(moved, v, b); }
      if v: nat :| HoldsUnsent(moved, v, b) { assert HoldsUnsent(s.workers, v, b); }
    }
  }

  // ----- the steps ------------------------------------------------------------------------

  lemma InitHasInv(s: State)
    requires Init(s)
    ensures Inv(s)
  {
  }

  lemma WriterBeginKeeps(s: State)
    requires Inv(s) && Enabled(s, WriterBegin)
    ensures Inv(Apply(s, WriterBegin))
  {
    FullTestIsExact(|s.published|, s.consumed);
  }

  lemma WriterBurstKeeps(s: State, data: Packet)
    requires Inv(s) && Enabled(s, WriterBurst(data))
    ensures Inv(Apply(s, WriterBurst(data)))
  {
    forall i | BATCH_SLOTS * s.release <= i < |s.published|
      ensures Masked(i) != Masked(|s.published|)
    {
      SlotsDiffer(i, |s.published|);
    }
  }

  lemma WriterPublishKeeps(s: State)
    requires Inv(s) && Enabled(s, WriterPublish)
    ensures Inv(Apply(s, WriterPublish))
  {
    var t := Apply(s, WriterPublish);
    WireAfterPublish(s.wire, s.published, s.first, s.claim, t.published);
  }

  lemma WireAfterPublish(wire: seq<Part>, published: seq<Packet>, first: nat, claim: nat, more: seq<Packet>)
    requires WireInv(wire, published, first, claim) && published <= more
    ensures WireInv(wire, more, first, claim)
  {
    forall i | 0 <= i < |wire|
      ensures BatchPackets(more, wire[i].batch) == BatchPackets(published, wire[i].batch)
    {
    }
  }

  lemma AlignKeeps(s: State)
    requires Inv(s) && Enabled(s, Align)
    ensures Inv(Apply(s, Align))
  {
  }

  lemma StartKeeps(s: State)
    requires Inv(s) && Enabled(s, Start)
    ensures Inv(Apply(s, Start))
  {
  }

  lemma LookKeeps(s: State, w: nat)
    requires Inv(s) && Enabled(s, Look(w))
    ensures Inv(Apply(s, Look(w)))
  {
    var t := Apply(s, Look(w));
    QuietKeeps(s, w, t.workers[w], t.workers);
    BatchStartIsMasked(s.claim);
    DiffIsDistance(|s.published|, BATCH_SLOTS * s.claim);
    assert WorkerInv(t.workers[w], |t.published|, t.claim, t.release);
  }

  lemma ReadBackKeeps(s: State, w: nat)
    requires Inv(s) && Enabled(s, ReadBack(w)) && HalfRing(s, ReadBack(w))
    ensures Inv(Apply(s, ReadBack(w)))
  {
    var t := Apply(s, ReadBack(w));
    BatchStartIsMasked(s.release);
    ClampLaw(BATCH_SLOTS * s.release, |s.published|);
    QuietKeeps(s, w, t.workers[w], t.workers);
    assert WorkerInv(t.workers[w], |t.published|, t.claim, t.release);
    assert !Settled(t.workers);
  }

  lemma PushKeeps(s: State, w: nat)
    requires Inv(s) && Enabled(s, Push(w))
    ensures Inv(Apply(s, Push(w)))
  {
    var t := Apply(s, Push(w));
    QuietKeeps(s, w, Idle, t.workers);
    assert WorkerInv(s.workers[w], |s.published|, s.claim, s.release);
    BatchStartIsMasked(s.release);
    AbsoluteOfMasked(|s.published|, BATCH_SLOTS * s.release);
    assert t.consumed == BATCH_SLOTS * s.release;
  }

  lemma DecideKeeps(s: State, w: nat)
    requires Inv(s) && Enabled(s, Decide(w))
    ensures Inv(Apply(s, Decide(w)))
  {
    var t := Apply(s, Decide(w));
    if t.claim == s.claim {
      QuietKeeps(s, w, Idle, t.workers);
    } else {
      assert WorkerInv(s.workers[w], |s.published|, s.claim, s.release);
      ClaimHolds(s, w, t);
      assert IndexInv(t);
    }
  }

  /** Claiming adds the batch to what is held and unsent, and nothing else changes hands. */
  lemma ClaimHolds(s: State, w: nat, t: State)
    requires Inv(s) && Enabled(s, Decide(w)) && t == Apply(s, Decide(w)) && t.claim == s.claim + 1
    requires t.claim - s.release < FLAG_BITS
    ensures Exclusive(t.workers)
    ensures BitmapInv(t.done, t.claim, t.release, t.workers)
    ensures SentInv(t.wire, t.workers, t.first, t.claim)
  {
    MoveHolds(s.workers, w, t.workers[w], t.workers);
    assert Holds(t.workers, w, s.claim) && HoldsUnsent(t.workers, w, s.claim);
    forall v: nat, b: nat | Holds(s.workers, v, b) ensures b < s.claim {
      assert WorkerInv(s.workers[v], |s.published|, s.claim, s.release);
    }
    forall b: nat
      ensures Held(t.workers, b) == (Held(s.workers, b) || b == s.claim)
      ensures Unsent(t.workers, b) == (Unsent(s.workers, b) || b == s.claim)
    {
      if v: nat :| Holds(s.workers, v, b) { assert Holds(t.workers, v, b); }
      if v: nat :| HoldsUnsent(s.workers, v, b) { assert HoldsUnsent(t.workers, v, b); }
    }
  }

  /** The slots of a claimed batch read as the packets published into it. */
  lemma BatchReadsAsPublished(slots: seq<Packet>, published: seq<Packet>, release: nat, batch: nat)
    requires Intact(slots, published, release)
    requires release <= batch && BATCH_SLOTS * (batch + 1) <= |published|
    ensures BatchStart(batch) + BATCH_SLOTS <= RING_SLOTS
    ensures slots[BatchStart(batch)..BatchStart(batch) + BATCH_SLOTS] == BatchPackets(published, batch)
  {
    BatchStartIsMasked(batch);
    var read, expected := slots[BatchStart(batch)..BatchStart(batch) + BATCH_SLOTS], BatchPackets(published, batch);
    forall k | 0 <= k < BATCH_SLOTS ensures read[k] == expected[k] {
      SlotInBatch(batch, k);
      assert slots[Masked(BATCH_SLOTS * batch + k)] == published[BATCH_SLOTS * batch + k];
    }
  }

  lemma SendOkKeeps(s: State, w: nat)
    requires Inv(s) && Enabled(s, SendOk(w))
    ensures Inv(Apply(s, SendOk(w)))
  {
    var t := Apply(s, SendOk(w));
    var batch := s.workers[w].batch;
    assert WorkerInv(s.workers[w], |s.published|, s.claim, s.release);
    BatchReadsAsPublished(s.slots, s.published, s.release, batch);
    SendHolds(s, w, batch, t);
  }

  lemma SendHolds(s: State, w: nat, batch: nat, t: State)
    requires Exclusive(s.workers) && BitmapInv(s.done, s.claim, s.release, s.workers)
    requires WireInv(s.wire, s.published, s.first, s.claim) && SentInv(s.wire, s.workers, s.first, s.claim)
    requires HoldsUnsent(s.workers, w, batch) && s.first <= batch < s.claim
    requires |t.workers| == |s.workers| && t.workers == s.workers[w := t.workers[w]]
    requires t.workers[w].Sending? && t.workers[w].batch == batch && t.workers[w].remaining == 0
    requires BATCH_SLOTS * (batch + 1) <= |s.published|
    requires t.wire == s.wire + [Part(batch, BatchPackets(s.published, batch))]
    ensures Exclusive(t.workers)
    ensures BitmapInv(s.done, s.claim, s.release, t.workers)
    ensures WireInv(t.wire, s.published, s.first, s.claim)
    ensures SentInv(t.wire, t.workers, s.first, s.claim)
  {
    MoveHolds(s.workers, w, t.workers[w], t.workers);
    forall b: nat
      ensures Held(t.workers, b) == Held(s.workers, b)
      ensures Unsent(t.workers, b) == (Unsent(s.workers, b) && b != batch)
      ensures Sent(t.wire, b) == (Sent(s.wire, b) || b == batch)
    {
      if v: nat :| Holds(s.workers, v, b) { assert Holds(t.workers, v, b); }
      if v: nat :| Holds(t.workers, v, b) { assert Holds(s.workers, v, b); }
      if v: nat :| HoldsUnsent(s.workers, v, b) && b != batch { assert HoldsUnsent(t.workers, v, b); }
      if v: nat :| HoldsUnsent(t.workers, v, b) { assert HoldsUnsent(s.workers, v, b); }
      if i: nat :| i < |s.wire| && s.wire[i].batch == b { assert t.wire[i].batch == b; }
      assert t.wire[|s.wire|].batch == batch;
    }
    assert !Sent(s.wire, batch);
  }

  lemma SendFailKeeps(s: State, w: nat)
    requires Inv(s) && Enabled(s, SendFail(w))
    ensures Inv(Apply(s, SendFail(w)))
  {
    assert WorkerInv(s.workers[w], |s.published|, s.claim, s.release);
    assert Apply(s, SendFail(w)).workers == s.workers;
  }

  lemma CompleteKeeps(s: State, w: nat)
    requires Inv(s) && Enabled(s, Complete(w))
    ensures Inv(Apply(s, Complete(w)))
  {
    var t := Apply(s, Complete(w));
    var batch := s.workers[w].batch;
    assert WorkerInv(s.workers[w], |s.published|, s.claim, s.release);
    CompleteHolds(s, w, batch, t.workers);
    CompleteFlags(s, w, batch, t);
    forall v: nat | v < |t.workers|
      ensures WorkerInv(t.workers[v], |t.published|, t.claim, t.release)
    {
      assert WorkerInv(s.workers[v], |s.published|, s.claim, s.release);
      assert v == w || s.lock != Some(v);
      if t.workers[v].Sending? {
        assert Holds(t.workers, v, t.workers[v].batch) && Held(t.workers, t.workers[v].batch);
      }
    }
    assert t.workers[w].Completing?;
  }

  lemma CompleteHolds(s: State, w: nat, batch: nat, moved: seq<Worker>)
    requires Inv(s) && Holds(s.workers, w, batch) && s.workers[w].remaining == 0
    requires moved == s.workers[w := Completing]
    ensures Exclusive(moved)
    ensures forall b: nat :: Held(moved, b) == (Held(s.workers, b) && b != batch)
    ensures SentInv(s.wire, moved, s.first, s.claim)
  {
    MoveHolds(s.workers, w, Completing, moved);
    forall b: nat
      ensures Held(moved, b) == (Held(s.workers, b) && b != batch)
      ensures Unsent(moved, b) == Unsent(s.workers, b)
    {
      if v: nat :| Holds(s.workers, v, b) && b != batch { assert Holds(moved, v, b); }
      if v: nat :| Holds(moved, v, b) { assert Holds(s.workers, v, b); }
      if v: nat :| HoldsUnsent(s.workers, v, b) { assert HoldsUnsent(moved, v, b); }
      if v: nat :| HoldsUnsent(moved, v, b) { assert HoldsUnsent(s.workers, v, b); }
    }
  }

  /** Completion moves the frontier to the least incomplete batch and keeps the bitmap exact. */
  lemma CompleteFlags(s: State, w: nat, batch: nat, t: State)
    requires Inv(s) && Enabled(s, Complete(w)) && batch == s.workers[w].batch && t == Apply(s, Complete(w))
    requires s.release <= batch < s.claim
    requires forall b: nat :: Held(t.workers, b) == (Held(s.workers, b) && b != batch)
    ensures s.release <= t.release <= s.claim
    ensures BitmapInv(t.done, t.claim, t.release, t.workers)
    ensures forall b: nat :: s.release <= b < s.claim && Held(t.workers, b) ==> t.release <= b
  {
    var marked := SetFlag(s.done, batch, true);
    SetFlagInWindow(s.done, batch, true, s.release);
    ReleaseStopsAtFirstClear(marked, s.release);
    assert Holds(s.workers, w, batch);
    assert !Flag(marked, s.claim);
    forall b | t.release <= b < t.release + FLAG_BITS
      ensures Flag(t.done, b) <==> b < t.claim && !Held(t.workers, b)
    {
      if s.release + FLAG_BITS <= b {
        FlagRepeats(t.done, b - FLAG_BITS);
        assert !Flag(t.done, b - FLAG_BITS);
      }
    }
    forall b: nat | s.release <= b < s.claim && Held(t.workers, b) ensures t.release <= b {
      assert !Flag(marked, b);
    }
  }

  lemma StepKeepsInv(s: State, step: Step)
    requires Inv(s) && Enabled(s, step) && HalfRing(s, step)
    ensures Inv(Apply(s, step))
  {
    match step
    case WriterBegin => WriterBeginKeeps(s);
    case WriterBurst(data) => WriterBurstKeeps(s, data);
    case WriterPublish => WriterPublishKeeps(s);
    case WriterDrop =>
    case Align => AlignKeeps(s);
    case Start => StartKeeps(s);
    case Look(w) => LookKeeps(s, w);
    case Decide(w) => DecideKeeps(s, w);
    case SendOk(w) => SendOkKeeps(s, w);
    case SendFail(w) => SendFailKeeps(s, w);
    case Complete(w) => CompleteKeeps(s, w);
    case ReadBack(w) => ReadBackKeeps(s, w);
    case Push(w) => PushKeeps(s, w);
  }

  lemma {:induction false} RunKeepsInv(s: State, steps: seq<Step>, t: State)
    requires Inv(s) && BoundedRun(s, steps, t)
    ensures Inv(t)
    decreases |steps|
  {
    if steps != [] {
      StepKeepsInv(s, steps[0]);
      RunKeepsInv(Apply(s, steps[0]), steps[1..], t);
    }
  }
}
