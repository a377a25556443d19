/**
 * The ring drain protocol of the board's sender: the FPGA writer publishes packets into
 * the ring while worker threads claim, send and complete batches of 32 slots. A state
 * holds the shared memory, the control points of all threads and four histories
 * (`published`, `consumed`, `owners`, `wire`), of which steps use only the length of the
 * first. One step is one access to shared state, so a run is any interleaving at that grain.
 */
module DrainProtocol {
  import opened Bytes
  import opened RingIndex

  type Packet = seq<byte>

  /** A datagram batch handed to the network. */
  datatype Part = Part(batch: nat, data: seq<Packet>)

  /** Where a worker thread stands; all but `Idle` and `Sending` own the lock. */
  datatype Worker =
    | Idle
    | Looking(produce: nat)                          // produce index read, claim not yet decided
    | Sending(batch: nat, cur: nat, remaining: nat)  // batch claimed, `remaining` slots to send
    | Completing                                     // bitmap and release counter advanced
    | Pushing(frontier: nat)                         // clamped consume index ready to be stored

  /** Start-up of `main`: align to the writer, then hand the ring to the workers. */
  datatype Phase = Booting | Aligned(produce0: nat) | Running

  datatype State = State(
    slots: seq<Packet>,
    published: seq<Packet>,  // every packet published, oldest first
    writing: bool,           // the writer is filling slot |published|
    consumeReg: nat,
    consumed: int,           // the absolute slot number `consumeReg` stands for
    phase: Phase,
    first: nat,              // first batch of this session
    claim: nat,
    release: nat,
    done: seq<bool>,
    lock: Option<nat>,
    workers: seq<Worker>,
    owners: seq<nat>,        // owners[k] claimed batch first + k
    wire: seq<Part>)

  datatype Step =
    | WriterBegin | WriterBurst(data: Packet) | WriterPublish | WriterDrop
    | Align | Start
    | Look(w: nat) | Decide(w: nat) | SendOk(w: nat) | SendFail(w: nat)
    | Complete(w: nat) | ReadBack(w: nat) | Push(w: nat)

  // ----- the writer's view ------------------------------------------------------------

  /** The writer drops when the slot after its produce index is the consume index. */
  predicate Full(s: State) { Masked(|s.published| + 1) == s.consumeReg }

  // ----- transitions --------------------------------------------------------------------

  ghost predicate Init(s: State) {
    && |s.slots| == RING_SLOTS && |s.published| < RING_SLOTS
    && (forall i :: 0 <= i < |s.published| ==> s.slots[i] == s.published[i])
    && !s.writing && s.consumeReg == s.consumed == 0 && s.phase == Booting
    && s.first == s.claim == s.release == 0
    && s.done == seq(FLAG_BITS, _ => false)
    && s.lock == None && (forall w :: 0 <= w < |s.workers| ==> s.workers[w] == Idle)
    && s.owners == [] && s.wire == []
  }

  predicate IsWorker(s: State, w: nat) { s.phase == Running && w < |s.workers| }

  predicate Enabled(s: State, step: Step) {
    match step
    case WriterBegin => !s.writing && !Full(s)
    case WriterBurst(_) => s.writing && |s.slots| == RING_SLOTS
    case WriterPublish => s.writing && |s.slots| == RING_SLOTS
    case WriterDrop => !s.writing && Full(s)
    case Align => s.phase == Booting
    case Start => s.phase.Aligned?
    case Look(w) => IsWorker(s, w) && s.workers[w].Idle? && s.lock == None
    case Decide(w) => IsWorker(s, w) && s.workers[w].Looking?
    case SendOk(w) => IsWorker(s, w) && s.workers[w].Sending? && s.workers[w].remaining != 0
                      && s.workers[w].cur <= |s.slots| == RING_SLOTS
    case SendFail(w) => IsWorker(s, w) && s.workers[w].Sending? && s.workers[w].remaining != 0
    case Complete(w) => IsWorker(s, w) && s.workers[w].Sending? && s.workers[w].remaining == 0
                        && s.lock == None && |s.done| == FLAG_BITS
    case ReadBack(w) => IsWorker(s, w) && s.workers[w].Completing?
    case Push(w) => IsWorker(s, w) && s.workers[w].Pushing?
  }

  function Move(s: State, w: nat, to: Worker): State
    requires w < |s.workers|
  {
    s.(workers := s.workers[w := to])
  }

  /** The part of a batch that one `send_gso` call covers. */
  function PartSlots(cur: nat, remaining: nat): nat
    requires cur <= RING_SLOTS
  {
    if RING_SLOTS - cur > remaining then remaining else RING_SLOTS - cur
  }

  function ApplyDecide(s: State, w: nat): State
    requires Enabled(s, Decide(w))
  {
    if MaskedDiff(s.workers[w].produce, BatchStart(s.claim)) < BATCH_SLOTS then
      Move(s, w, Idle).(lock := None)
    else
      Move(s, w, Sending(s.claim, BatchStart(s.claim), BATCH_SLOTS))
        .(claim := s.claim + 1, owners := s.owners + [w], lock := None)
  }

  function ApplySendOk(s: State, w: nat): State
    requires Enabled(s, SendOk(w))
  {
    var Sending(batch, cur, remaining) := s.workers[w];
    var n := PartSlots(cur, remaining);
    Move(s, w, Sending(batch, Masked(cur + n), remaining - n))
      .(wire := s.wire + [Part(batch, s.slots[cur..cur + n])])
  }

  function ApplyComplete(s: State, w: nat): State
    requires Enabled(s, Complete(w))
  {
    var (flags, release) := Release(SetFlag(s.done, s.workers[w].batch, true), s.release);
    Move(s, w, Completing).(done := flags, release := release, lock := Some(w))
  }

  function Apply(s: State, step: Step): State
    requires Enabled(s, step)
  {
    match step
    case WriterBegin => s.(writing := true)
    case WriterBurst(data) => s.(slots := s.slots[Masked(|s.published|) := data])
    case WriterPublish => s.(published := s.published + [s.slots[Masked(|s.published|)]], writing := false)
    case WriterDrop => s
    case Align => s.(phase := Aligned(Masked(|s.published|) / BATCH_SLOTS * BATCH_SLOTS))
    case Start =>
      var batch := s.phase.produce0 / BATCH_SLOTS;
      s.(phase := Running, first := batch, claim := batch, release := batch,
         consumeReg := s.phase.produce0, consumed := s.phase.produce0)
    case Look(w) => Move(s, w, Looking(Masked(|s.published|))).(lock := Some(w))
    case Decide(w) => ApplyDecide(s, w)
    case SendOk(w) => ApplySendOk(s, w)
    case SendFail(w) => Move(s, w, Sending(s.workers[w].batch, BatchStart(s.workers[w].batch), BATCH_SLOTS))
    case Complete(w) => ApplyComplete(s, w)
    case ReadBack(w) => Move(s, w, Pushing(Clamp(BatchStart(s.release), Masked(|s.published|))))
    case Push(w) => Move(s, w, Idle)
                      .(consumeReg := s.workers[w].frontier,
                        consumed := Absolute(|s.published|, s.workers[w].frontier), lock := None)
  }

  /** Slots published and not yet released. */
  function Backlog(s: State): int { |s.published| - BATCH_SLOTS * s.release }

  /** The hypothesis on a run: each completion reads back at most half a ring of backlog. */
  predicate HalfRing(s: State, step: Step) {
    step.ReadBack? ==> Backlog(s) <= RING_SLOTS / 2
  }

  /** `steps` leads from `s` to `t`; every step of a bounded run meets `HalfRing`. */
  ghost predicate Runs(s: State, steps: seq<Step>, t: State)
    decreases |steps|
  {
    if steps == [] then s == t
    else Enabled(s, steps[0]) && Runs(Apply(s, steps[0]), steps[1..], t)
  }

  ghost predicate BoundedRun(s: State, steps: seq<Step>, t: State)
    decreases |steps|
  {
    if steps == [] then s == t
    else Enabled(s, steps[0]) && HalfRing(s, steps[0]) && BoundedRun(Apply(s, steps[0]), steps[1..], t)
  }

  // ----- the invariant ------------------------------------------------------------------
  // Each clause names the components it depends on, so a step that leaves them alone keeps it.

  predicate Holds(workers: seq<Worker>, w: nat, batch: nat) {
    w < |workers| && workers[w].Sending? && workers[w].batch == batch
  }

  ghost predicate Held(workers: seq<Worker>, batch: nat) { exists w: nat :: Holds(workers, w, batch) }

  predicate HoldsUnsent(workers: seq<Worker>, w: nat, batch: nat) {
    Holds(workers, w, batch) && workers[w].remaining != 0
  }

  ghost predicate Unsent(workers: seq<Worker>, batch: nat) { exists w: nat :: HoldsUnsent(workers, w, batch) }

  ghost predicate Sent(wire: seq<Part>, batch: nat) { exists i: nat :: i < |wire| && wire[i].batch == batch }

  /** The packets published into a batch. */
  function BatchPackets(published: seq<Packet>, batch: nat): seq<Packet>
    requires BATCH_SLOTS * (batch + 1) <= |published|
  {
    published[BATCH_SLOTS * batch..BATCH_SLOTS * (batch + 1)]
  }

  /** Indices: consume <= first incomplete <= next to claim <= produce, all within one ring. */
  predicate IndexInv(s: State) {
    && |s.slots| == RING_SLOTS && s.consumeReg == Masked(s.consumed) && |s.published| - s.consumed < RING_SLOTS
    && 0 <= s.consumed <= BATCH_SLOTS * s.release <= BATCH_SLOTS * s.claim <= |s.published|
    && (s.writing ==> |s.published| - s.consumed < RING_SLOTS - 1)
    && (s.phase != Running ==> s.first == s.claim == s.release == 0 && s.consumeReg == 0)
    && (s.phase.Aligned? ==> s.phase.produce0 % BATCH_SLOTS == 0 && s.phase.produce0 <= |s.published|)
    && s.first <= s.release && |s.owners| == s.claim - s.first
  }

  /** Every published slot that is not yet released still holds its packet. */
  ghost predicate Intact(slots: seq<Packet>, published: seq<Packet>, release: nat) {
    && |slots| == RING_SLOTS
    && forall i :: BATCH_SLOTS * release <= i < |published| ==> slots[Masked(i)] == published[i]
  }

  /** Exactly the lock owner is inside a critical section. */
  ghost predicate LockInv(lock: Option<nat>, workers: seq<Worker>) {
    && (forall w: nat :: w < |workers| ==> (lock == Some(w) <==> !workers[w].Idle? && !workers[w].Sending?))
    && (lock.Some? ==> lock.value < |workers|)
  }

  ghost predicate AllIdle(workers: seq<Worker>) {
    forall w: nat :: w < |workers| ==> workers[w].Idle?
  }

  predicate WorkerInv(worker: Worker, produce: nat, claim: nat, release: nat) {
    match worker
    case Idle => true
    case Looking(seen) => MaskedDiff(seen, BatchStart(claim)) <= produce - BATCH_SLOTS * claim
    case Sending(batch, cur, remaining) =>
      && release <= batch < claim
      && (remaining == 0 || (cur == BatchStart(batch) && remaining == BATCH_SLOTS))
    case Completing => true
    case Pushing(frontier) => frontier == BatchStart(release)
  }

  ghost predicate WorkersInv(workers: seq<Worker>, produce: nat, claim: nat, release: nat) {
    forall w: nat :: w < |workers| ==> WorkerInv(workers[w], produce, claim, release)
  }

  /** No two workers hold one batch. */
  ghost predicate Exclusive(workers: seq<Worker>) {
    forall v: nat, w: nat, b: nat :: Holds(workers, v, b) && Holds(workers, w, b) ==> v == w
  }

  /** In the 64-batch window a flag is set exactly for the claimed batches nobody holds. */
  ghost predicate BitmapInv(done: seq<bool>, claim: nat, release: nat, workers: seq<Worker>) {
    && |done| == FLAG_BITS && claim - release < FLAG_BITS
    && !Flag(done, release)
    && forall b :: release <= b < release + FLAG_BITS ==> (Flag(done, b) <==> b < claim && !Held(workers, b))
  }

  ghost predicate Settled(workers: seq<Worker>) {
    forall w: nat :: w < |workers| ==> !workers[w].Completing? && !workers[w].Pushing?
  }

  /** What is on the wire is what was published, each batch at most once. */
  ghost predicate WireInv(wire: seq<Part>, published: seq<Packet>, first: nat, claim: nat) {
    && (forall i :: 0 <= i < |wire| ==>
          && first <= wire[i].batch < claim
          && BATCH_SLOTS * (wire[i].batch + 1) <= |published|
          && wire[i].data == BatchPackets(published, wire[i].batch))
    && (forall i, j :: 0 <= i < j < |wire| ==> wire[i].batch != wire[j].batch)
  }

  /** A claimed batch is on the wire exactly when no worker still has to send it. */
  ghost predicate SentInv(wire: seq<Part>, workers: seq<Worker>, first: nat, claim: nat) {
    forall b: nat :: first <= b < claim ==> (Sent(wire, b) <==> !Unsent(workers, b))
  }

  ghost predicate Inv(s: State) {
    && IndexInv(s)
    && Intact(s.slots, s.published, s.release)
    && LockInv(s.lock, s.workers)
    && (s.phase != Running ==> AllIdle(s.workers) && s.done == seq(FLAG_BITS, _ => false) && s.wire == [])
    && WorkersInv(s.workers, |s.published|, s.claim, s.release)
    && Exclusive(s.workers)
    && BitmapInv(s.done, s.claim, s.release, s.workers)
    // Between critical sections the consume index is the true frontier.
    && (Settled(s.workers) ==> s.consumed == BATCH_SLOTS * s.release)
    && WireInv(s.wire, s.published, s.first, s.claim)
    && SentInv(s.wire, s.workers, s.first, s.claim)
  }
}
