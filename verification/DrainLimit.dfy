/**
 * Why the drain protocol needs its backlog bound. The sender promises that a slot is only
 * reused once all workers are past it. The half-ring comparison breaks that promise for
 * every backlog above half the ring, and only then.
 */
module DrainLimit {
  import opened Bytes
  import opened RingIndex
  import opened DrainProtocol
  import opened DrainSafety

  ghost predicate NoReadBack(steps: seq<Step>) {
    forall i :: 0 <= i < |steps| ==> !steps[i].ReadBack?
  }

  lemma {:induction false} RunsWithoutReadBack(s: State, steps: seq<Step>, t: State)
    requires Runs(s, steps, t) && NoReadBack(steps)
    ensures BoundedRun(s, steps, t)
    decreases |steps|
  {
    if steps != [] {
      assert !steps[0].ReadBack?;
      RunsWithoutReadBack(Apply(s, steps[0]), steps[1..], t);
    }
  }

  lemma {:induction false} RunsCompose(s: State, a: seq<Step>, m: State, b: seq<Step>, t: State)
    requires Runs(s, a, m) && Runs(m, b, t)
    ensures Runs(s, a + b, t)
    decreases |a|
  {
    if a == [] {
      assert a + b == b;
    } else {
      RunsCompose(Apply(s, a[0]), a[1..], m, b, t);
      assert (a + b)[1..] == a[1..] + b;
    }
  }

  lemma OneStep(s: State, step: Step)
    requires Enabled(s, step)
    ensures Runs(s, [step], Apply(s, step))
  {
    assert Runs(Apply(s, step), [], Apply(s, step));
  }

  lemma ThenStep(s: State, a: seq<Step>, m: State, step: Step)
    requires Runs(s, a, m) && Enabled(m, step)
    ensures Runs(s, a + [step], Apply(m, step))
  {
    OneStep(m, step);
    RunsCompose(s, a, m, [step], Apply(m, step));
  }

  // ----- the writer running alone ---------------------------------------------------------

  function Stored(s: State, x: Packet): State
    requires |s.slots| == RING_SLOTS
  {
    s.(slots := s.slots[Masked(|s.published|) := x], published := s.published + [x], writing := false)
  }

  lemma StoreOne(s: State, x: Packet)
    requires !s.writing && |s.slots| == RING_SLOTS && !Full(s)
    ensures Runs(s, [WriterBegin, WriterBurst(x), WriterPublish], Stored(s, x))
  {
    var a := Apply(s, WriterBegin);
    var b := Apply(a, WriterBurst(x));
    OneStep(s, WriterBegin);
    ThenStep(s, [WriterBegin], a, WriterBurst(x));
    assert [WriterBegin] + [WriterBurst(x)] == [WriterBegin, WriterBurst(x)];
    ThenStep(s, [WriterBegin, WriterBurst(x)], b, WriterPublish);
    assert [WriterBegin, WriterBurst(x)] + [WriterPublish] == [WriterBegin, WriterBurst(x), WriterPublish];
    assert Apply(b, WriterPublish) == Stored(s, x);
  }

  /** With its consume index at `c`, the writer can store until one slot short of `c` + ring. */
  lemma {:induction false} StoreMany(s: State, c: nat, x: Packet, k: nat) returns (steps: seq<Step>, t: State)
    requires !s.writing && |s.slots| == RING_SLOTS && s.consumeReg == Masked(c)
    requires c <= |s.published| && |s.published| + k < c + RING_SLOTS
    ensures Runs(s, steps, t) && NoReadBack(steps)
    ensures t == s.(slots := t.slots, published := t.published) && |t.slots| == RING_SLOTS
    ensures |t.published| == |s.published| + k && s.published <= t.published
    ensures k == 0 ==> t == s
    ensures k > 0 ==> t.slots[Masked(|s.published| + k - 1)] == x
    decreases k
  {
    if k == 0 {
      steps, t := [], s;
    } else {
      FullTestIsExact(|s.published|, c);
      StoreOne(s, x);
      var m := Stored(s, x);
      var rest;
      rest, t := StoreMany(m, c, x, k - 1);
      steps := [WriterBegin, WriterBurst(x), WriterPublish] + rest;
      RunsCompose(s, [WriterBegin, WriterBurst(x), WriterPublish], m, rest, t);
    }
  }

  // ----- the theorem ----------------------------------------------------------------------

  /** However the run goes on, as long as later read-backs stay within half a ring, slots stay intact. */
  ghost predicate ReuseSafe(s: State, w: nat)
    requires Enabled(s, ReadBack(w))
  {
    forall rest: seq<Step>, t: State :: BoundedRun(Apply(s, ReadBack(w)), rest, t)
      ==> Intact(t.slots, t.published, t.release)
  }

  /** Above half a ring the produce index itself is about to be pushed, past every unsent slot. */
  lemma PushesProduceAboveHalfRing(s: State, w: nat)
    requires Inv(s) && Enabled(s, ReadBack(w)) && Backlog(s) > RING_SLOTS / 2
    ensures Apply(s, ReadBack(w)) == Move(s, w, Pushing(Masked(|s.published|)))
    ensures |s.published| + (if s.writing then 1 else 0) < BATCH_SLOTS * s.release + RING_SLOTS
  {
    BatchStartIsMasked(s.release);
    ClampLaw(BATCH_SLOTS * s.release, |s.published|);
  }

  /** The push, and on until the writer has published what it was writing. */
  lemma PushRun(s: State, w: nat) returns (steps: seq<Step>, t: State)
    requires IsWorker(s, w) && s.workers[w] == Pushing(Masked(|s.published|)) && |s.slots| == RING_SLOTS
    ensures Runs(s, steps, t) && NoReadBack(steps)
    ensures t.consumeReg == Masked(|s.published|) && t.workers == s.workers[w := Idle] && !t.writing
    ensures t.phase == s.phase && t.release == s.release && t.wire == s.wire && t.slots == s.slots
    ensures s.published <= t.published && |t.published| == |s.published| + (if s.writing then 1 else 0)
  {
    OneStep(s, Push(w));
    steps, t := [Push(w)], Apply(s, Push(w));
    if s.writing {
      ThenStep(s, steps, t, WriterPublish);
      steps, t := steps + [WriterPublish], Apply(t, WriterPublish);
    }
  }

  /** A writer told that slots up to `produce` are free wraps onto the slot of `frontier`. */
  lemma StoreOver(s: State, produce: nat, frontier: nat, x: Packet) returns (steps: seq<Step>, t: State)
    requires !s.writing && |s.slots| == RING_SLOTS && s.consumeReg == Masked(produce)
    requires frontier + 1 < produce <= |s.published| < frontier + RING_SLOTS
    ensures Runs(s, steps, t) && NoReadBack(steps)
    ensures t == s.(slots := t.slots, published := t.published) && s.published <= t.published
    ensures |t.slots| == RING_SLOTS && t.slots[Masked(frontier)] == x
  {
    steps, t := StoreMany(s, produce, x, frontier + RING_SLOTS + 1 - |s.published|);
    MaskedRepeats(frontier);
  }

  /** Once that push is made, the writer running alone wraps onto the slot of `frontier`. */
  lemma OverwriteRun(s: State, w: nat, frontier: nat, x: Packet) returns (rest: seq<Step>, t: State)
    requires IsWorker(s, w) && s.workers[w] == Pushing(Masked(|s.published|)) && |s.slots| == RING_SLOTS
    requires frontier + 1 < |s.published|
    requires |s.published| + (if s.writing then 1 else 0) < frontier + RING_SLOTS
    ensures NoReadBack(rest) && Runs(s, rest, t)
    ensures |t.slots| == RING_SLOTS && t.slots[Masked(frontier)] == x
    ensures s.published <= t.published && t.workers == s.workers[w := Idle]
    ensures t.phase == s.phase && t.release == s.release && t.wire == s.wire
  {
    var begun, m := PushRun(s, w);
    var fill;
    fill, t := StoreOver(m, |s.published|, frontier, x);
    RunsCompose(s, begun, m, fill, t);
    rest := begun + fill;
  }

  /**
   * Reuse of slots stays safe after a completion reads back the produce index exactly when
   * the backlog it reads is at most half the ring.
   */
  lemma ReuseIsSafeIffHalfRing(s: State, w: nat)
    requires Inv(s) && Enabled(s, ReadBack(w))
    ensures ReuseSafe(s, w) <==> Backlog(s) <= RING_SLOTS / 2
  {
    var m := Apply(s, ReadBack(w));
    if Backlog(s) <= RING_SLOTS / 2 {
      ReadBackKeeps(s, w);
      forall rest: seq<Step>, t: State | BoundedRun(m, rest, t) ensures Intact(t.slots, t.published, t.release) {
        RunKeepsInv(m, rest, t);
      }
    } else {
      var frontier := BATCH_SLOTS * s.release;
      PushesProduceAboveHalfRing(s, w);
      var rest, t := OverwriteRun(m, w, frontier, s.published[frontier] + [0]);
      RunsWithoutReadBack(m, rest, t);
      assert t.slots[Masked(frontier)] != t.published[frontier];
    }
  }

  /**
   * The overwritten packet reaches the network: if a worker still has to send the oldest
   * incomplete batch, it can put something on the wire that was not published there.
   */
  lemma WrongBatchSentAboveHalfRing(s: State, w: nat, v: nat) returns (steps: seq<Step>, t: State)
    requires Inv(s) && Enabled(s, ReadBack(w)) && Backlog(s) > RING_SLOTS / 2
    requires HoldsUnsent(s.workers, v, s.release)
    ensures Runs(s, steps, t)
    ensures BATCH_SLOTS * (s.release + 1) <= |t.published| && |t.wire| == |s.wire| + 1
    ensures t.wire[|s.wire|].batch == s.release
    ensures t.wire[|s.wire|].data != BatchPackets(t.published, s.release)
  {
    var first := BATCH_SLOTS * s.release;
    PushesProduceAboveHalfRing(s, w);
    assert WorkerInv(s.workers[v], |s.published|, s.claim, s.release);
    var m := Apply(s, ReadBack(w));
    var rest, n := OverwriteRun(m, w, first, s.published[first] + [0]);
    assert n.workers[v] == s.workers[v];
    SendsWrong(n, v, s.release);
    ThenStep(m, rest, n, SendOk(v));
    steps, t := [ReadBack(w)] + (rest + [SendOk(v)]), Apply(n, SendOk(v));
    OneStep(s, ReadBack(w));
    RunsCompose(s, [ReadBack(w)], m, rest + [SendOk(v)], t);
  }

  lemma SendsWrong(s: State, v: nat, batch: nat)
    requires IsWorker(s, v) && |s.slots| == RING_SLOTS && BATCH_SLOTS * (batch + 1) <= |s.published|
    requires s.workers[v] == Sending(batch, BatchStart(batch), BATCH_SLOTS)
    requires s.slots[Masked(BATCH_SLOTS * batch)] != s.published[BATCH_SLOTS * batch]
    ensures Enabled(s, SendOk(v))
    ensures var t := Apply(s, SendOk(v));
            && t.published == s.published && |t.wire| == |s.wire| + 1 && t.wire[|s.wire|].batch == batch
            && t.wire[|s.wire|].data != BatchPackets(s.published, batch)
  {
    BatchStartIsMasked(batch);
    var data := Apply(s, SendOk(v)).wire[|s.wire|].data;
    assert data[0] != BatchPackets(s.published, batch)[0];
  }

  // ----- such a state is reached ------------------------------------------------------------

  /** Start-up on an empty ring, then 1,056 packets, with two idle workers. */
  lemma FilledStart() returns (s0: State, steps: seq<Step>, s: State)
    ensures Init(s0) && Runs(s0, steps, s) && NoReadBack(steps)
    ensures s == s0.(phase := Running, slots := s.slots, published := s.published)
    ensures s0.workers == [Idle, Idle] && |s.slots| == RING_SLOTS && |s.published| == 1056
  {
    s0 := State(seq(RING_SLOTS, _ => []), [], false, 0, 0, Booting, 0, 0, 0, seq(FLAG_BITS, _ => false),
                None, [Idle, Idle], [], []);
    var a := Apply(s0, Align);
    var b := Apply(a, Start);
    OneStep(s0, Align);
    ThenStep(s0, [Align], a, Start);
    assert b == s0.(phase := Running);
    var fill;
    fill, s := StoreMany(b, 0, [], 1056);
    steps := [Align] + [Start] + fill;
    RunsCompose(s0, [Align] + [Start], b, fill, s);
  }

  /** An idle worker claims the next batch when 32 slots of it are published. */
  lemma ClaimRun(s: State, w: nat) returns (steps: seq<Step>, t: State)
    requires IsWorker(s, w) && s.workers[w].Idle? && s.lock == None
    requires MaskedDiff(Masked(|s.published|), BatchStart(s.claim)) >= BATCH_SLOTS
    ensures Runs(s, steps, t) && NoReadBack(steps)
    ensures t == s.(workers := s.workers[w := Sending(s.claim, BatchStart(s.claim), BATCH_SLOTS)],
                    claim := s.claim + 1, owners := s.owners + [w])
  {
    var a := Apply(s, Look(w));
    steps, t := [Look(w)] + [Decide(w)], Apply(a, Decide(w));
    OneStep(s, Look(w));
    ThenStep(s, [Look(w)], a, Decide(w));
    assert t.workers == s.workers[w := Sending(s.claim, BatchStart(s.claim), BATCH_SLOTS)];
  }

  /** A worker sends its batch and completes it while the release batch is still open. */
  lemma FinishRun(s: State, w: nat) returns (steps: seq<Step>, t: State)
    requires IsWorker(s, w) && s.lock == None && |s.slots| == RING_SLOTS && |s.done| == FLAG_BITS
    requires s.workers[w] == Sending(1, BatchStart(1), BATCH_SLOTS) && s.release == 0 && !Flag(s.done, 0)
    ensures Runs(s, steps, t) && NoReadBack(steps)
    ensures t.workers == s.workers[w := Completing] && t.release == 0
    ensures t.published == s.published && t.phase == s.phase
  {
    var a := Apply(s, SendOk(w));
    assert a.workers[w] == Sending(1, 64, 0);
    steps, t := [SendOk(w)] + [Complete(w)], Apply(a, Complete(w));
    assert !Flag(SetFlag(s.done, 1, true), 0);
    OneStep(s, SendOk(w));
    ThenStep(s, [SendOk(w)], a, Complete(w));
  }

  /** Worker 0 claims batch 0 and stalls; worker 1 claims, sends and completes batch 1. */
  lemma SecondWorkerOvertakes(s: State) returns (steps: seq<Step>, t: State)
    requires s.phase == Running && s.workers == [Idle, Idle] && s.lock == None
    requires |s.slots| == RING_SLOTS && |s.published| == 1056
    requires s.claim == s.release == 0 && s.done == seq(FLAG_BITS, _ => false)
    ensures Runs(s, steps, t) && NoReadBack(steps)
    ensures Enabled(t, ReadBack(1)) && HoldsUnsent(t.workers, 0, 0)
    ensures t.release == 0 && t.published == s.published
  {
    var claims, a := BothClaim(s);
    assert !Flag(a.done, 0);
    var finish;
    finish, t := FinishRun(a, 1);
    RunsCompose(s, claims, a, finish, t);
    steps := claims + finish;
  }

  lemma BothClaim(s: State) returns (steps: seq<Step>, t: State)
    requires s.phase == Running && s.workers == [Idle, Idle] && s.lock == None
    requires |s.published| == 1056 && s.claim == 0
    ensures Runs(s, steps, t) && NoReadBack(steps)
    ensures t == s.(workers := t.workers, claim := 2, owners := t.owners)
    ensures t.workers == [Sending(0, BatchStart(0), BATCH_SLOTS), Sending(1, BatchStart(1), BATCH_SLOTS)]
  {
    AvailableIsDistance(1056, 0);
    AvailableIsDistance(1056, 1);
    var first, a := ClaimRun(s, 0);
    var second;
    second, t := ClaimRun(a, 1);
    RunsCompose(s, first, a, second, t);
    steps := first + second;
  }

  /** Without the bound on the backlog a run of two workers sends a batch nobody published. */
  lemma UnboundedRunSendsWrongBatch() returns (s0: State, steps: seq<Step>, t: State)
    ensures Init(s0) && |s0.workers| == 2 && Runs(s0, steps, t)
    ensures exists i: nat :: i < |t.wire| && BATCH_SLOTS * (t.wire[i].batch + 1) <= |t.published|
                             && t.wire[i].data != BatchPackets(t.published, t.wire[i].batch)
  {
    var s;
    s0, steps, s := FilledStart();
    var overtake, m := SecondWorkerOvertakes(s);
    RunsCompose(s0, steps, s, overtake, m);
    steps := steps + overtake;
    RunsWithoutReadBack(s0, steps, m);
    InitHasInv(s0);
    RunKeepsInv(s0, steps, m);
    var rest;
    rest, t := WrongBatchSentAboveHalfRing(m, 1, 0);
    RunsCompose(s0, steps, m, rest, t);
    steps := steps + rest;
    assert t.wire[|m.wire|].batch == 0;
  }
}
