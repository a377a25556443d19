/** Where a session of the drain protocol begins. */
module DrainStart {
  import opened RingIndex
  import opened DrainProtocol
  import opened DrainSafety

  /**
   * Reading the produce index and handing over the ring: the session begins at the batch
   * boundary at or below what had been published, with both counters and the writer's consume
   * index there.
   */
  lemma AlignThenStart(s: State)
    requires Inv(s) && s.phase == Booting
    ensures |s.published| < 2048 && Enabled(s, Align) && Enabled(Apply(s, Align), Start)
    ensures var t := Apply(Apply(s, Align), Start);
            && 32 * t.first <= |s.published| < 32 * t.first + 32
            && t.claim == t.release == t.first && t.consumeReg == t.consumed == 32 * t.first
            && t == s.(phase := Running, first := t.first, claim := t.first, release := t.first,
                       consumeReg := t.consumeReg, consumed := t.consumed)
  {
    MaskedDropsLaps(0, |s.published|);
  }

  /** The session begins, or is about to begin, at the boundary under `seen` published packets. */
  predicate BeginsUnder(s: State, seen: nat) {
    match s.phase
    case Booting => false
    case Aligned(produce0) => produce0 % 32 == 0 && produce0 <= seen < produce0 + 32
    case Running => 32 * s.first <= seen < 32 * s.first + 32
  }

  lemma AlignBegins(s: State)
    requires Inv(s) && Enabled(s, Align)
    ensures BeginsUnder(Apply(s, Align), |s.published|)
  {
    MaskedDropsLaps(0, |s.published|);
  }

  /** Nothing moves the beginning of a session once the index has been read. */
  lemma {:induction false} BeginningStays(s: State, steps: seq<Step>, t: State, seen: nat)
    requires BeginsUnder(s, seen) && BoundedRun(s, steps, t)
    ensures BeginsUnder(t, seen)
    decreases |steps|
  {
    if steps != [] {
      BeginningStays(Apply(s, steps[0]), steps[1..], t, seen);
    }
  }

  /** A run that leaves the booting phase has one step that reads the produce index. */
  lemma {:induction false} AlignIsTaken(s: State, steps: seq<Step>, t: State) returns (k: nat, a: State)
    requires Inv(s) && s.phase == Booting && BoundedRun(s, steps, t) && t.phase != Booting
    ensures k < |steps| && steps[k] == Align && BoundedRun(s, steps[..k], a) && a.phase == Booting
    ensures Inv(a) && BeginsUnder(t, |a.published|)
    decreases |steps|
  {
    if steps[0] == Align {
      k, a := 0, s;
      AlignBegins(s);
      BeginningStays(Apply(s, Align), steps[1..], t, |s.published|);
    } else {
      StepKeepsInv(s, steps[0]);
      var j;
      j, a := AlignIsTaken(Apply(s, steps[0]), steps[1..], t);
      k := j + 1;
      assert steps[..k][1..] == steps[1..][..j];
    }
  }

  /**
   * Over every bounded run: the session began at the batch boundary under the packets that were
   * published when start-up read the produce index, and no earlier packet is on the wire.
   */
  lemma StalePacketsAreSkipped(s0: State, steps: seq<Step>, t: State) returns (k: nat, a: State)
    requires Init(s0) && BoundedRun(s0, steps, t) && t.phase == Running
    ensures k < |steps| && steps[k] == Align && BoundedRun(s0, steps[..k], a) && a.phase == Booting
    ensures |a.published| < 2048 && t.first == |a.published| / 32
    ensures t.first <= t.release <= t.claim && |t.owners| == t.claim - |a.published| / 32
    ensures forall i :: 0 <= i < |t.wire| ==> 32 * t.wire[i].batch >= |a.published| / 32 * 32
  {
    InitHasInv(s0);
    k, a := AlignIsTaken(s0, steps, t);
    AlignThenStart(a);
    RunKeepsInv(s0, steps, t);
  }
}
