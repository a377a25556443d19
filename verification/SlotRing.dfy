/**
 * The memory-mapped descriptor ring between one producer and one consumer process. Every
 * access to the mapping is a step of its own: index load, flag test, each payload byte,
 * descriptor load or store as a whole, flag store, index store. Barriers are taken to make these accesses
 * sequentially consistent.
 */
module SlotRing {
  import opened Bytes

  /** The descriptor fields that travel through the ring untouched. */
  datatype Info = Info(sessionId: nat, streamId: nat, frameId: nat, segmentId: nat, segmentCount: nat,
                       nonceCounter: nat, keyId: nat, flags: nat, timestampNs: nat)

  /** A stored descriptor; `slot` stands for the payload address inside the mapping. */
  datatype Desc = Desc(info: Info, payloadLen: nat, slot: nat)

  /** What a caller pushes. */
  datatype Item = Item(info: Info, payload: seq<byte>)

  datatype Producer =
    | PIdle
    | PLoaded(item: Item, index: nat)           // write index read
    | PCopy(item: Item, index: nat, copied: nat) // slot seen empty, payload bytes going in
    | PStored(item: Item, index: nat)           // descriptor stored, flag still EMPTY
    | PFlagged(index: nat)                      // flag FULL, write index not yet stored

  datatype Consumer =
    | CIdle
    | CLoaded(index: nat)             // read index read
    | CSeen(index: nat)               // slot seen full
    | CTaken(index: nat, desc: Desc)  // descriptor copied out
    | CFreed(index: nat, desc: Desc)  // flag EMPTY, read index not yet stored

  datatype State = State(
    full: seq<bool>,
    descs: seq<Desc>,
    payloads: seq<seq<byte>>,
    writeIndex: nat,
    readIndex: nat,
    producer: Producer,
    consumer: Consumer,
    pushed: seq<Item>,    // history: items in the order their flags were set
    freed: nat,           // history: slots given back
    returned: seq<Desc>)  // history: results of completed pops

  datatype Step =
    | PushStart(item: Item) | PushTest | PushGiveUp | PushByte | PushDesc | PushFlag | PushIndex
    | PopStart | PopTest | PopGiveUp | PopCopy | PopFree | PopIndex

  /** `i % count`, in the form that steps through one ring length at a time. */
  function Slot(i: nat, count: nat): (r: nat)
    requires count > 0
    ensures r < count && (i < count ==> r == i)
  {
    if i < count then i else Slot(i - count, count)
  }

  lemma {:induction false} SlotIsRemainder(i: nat, count: nat)
    requires count > 0
    ensures Slot(i, count) == i % count
  {
    if i >= count {
      SlotIsRemainder(i - count, count);
      var q, r := (i - count) / count, (i - count) % count;
      assert i - count == q * count + r && (q + 1) * count == q * count + count;
      RemainderIsUnique(i, q + 1, r, count);
    }
  }

  lemma RemainderIsUnique(x: nat, q: nat, r: nat, count: nat)
    requires count > 0 && x == q * count + r && r < count
    ensures x % count == r
  {
    var p := x / count;
    assert x == p * count + x % count;
    assert (q - p) * count == x % count - r;
    assert q - p >= 1 ==> (q - p) * count >= count;
    assert p - q >= 1 ==> (p - q) * count >= count;
  }

  lemma {:induction false} SlotsDiffer(i: nat, j: nat, count: nat)
    requires count > 0 && i < j < i + count
    ensures Slot(i, count) != Slot(j, count)
  {
    if i >= count {
      SlotsDiffer(i - count, j - count, count);
    }
  }

  lemma {:induction false} NextSlot(i: nat, count: nat)
    requires count > 0
    ensures Slot(Slot(i, count) + 1, count) == Slot(i + 1, count)
    ensures Slot(Slot(i, count), count) == Slot(i, count)
    ensures Slot(i + count, count) == Slot(i, count)
  {
    if i >= count {
      NextSlot(i - count, count);
    }
  }

  // ----- transitions ------------------------------------------------------------------------

  /** Sizes fixed when the mapping is opened. */
  predicate Shape(full: seq<bool>, descs: seq<Desc>, payloads: seq<seq<byte>>, count: nat, width: nat) {
    && count > 0 && |full| == |descs| == |payloads| == count
    && forall j :: 0 <= j < count ==> |payloads[j]| == width
  }

  predicate Init(s: State, count: nat, width: nat) {
    && Shape(s.full, s.descs, s.payloads, count, width)
    && (forall j :: 0 <= j < count ==> !s.full[j])
    && s.writeIndex == s.readIndex == s.freed == 0
    && s.producer == PIdle && s.consumer == CIdle && s.pushed == [] && s.returned == []
  }

  predicate Enabled(s: State, step: Step, count: nat, width: nat) {
    && Shape(s.full, s.descs, s.payloads, count, width)
    && match step
       case PushStart(item) => s.producer.PIdle? && |item.payload| <= width
       case PushTest => s.producer.PLoaded? && !s.full[Slot(s.producer.index, count)]
       case PushGiveUp => s.producer.PLoaded? && s.full[Slot(s.producer.index, count)]
       case PushByte => s.producer.PCopy? && s.producer.index < count
                        && s.producer.copied < |s.producer.item.payload| <= width
       case PushDesc => s.producer.PCopy? && s.producer.index < count && s.producer.copied == |s.producer.item.payload|
       case PushFlag => s.producer.PStored? && s.producer.index < count
       case PushIndex => s.producer.PFlagged?
       case PopStart => s.consumer.CIdle?
       case PopTest => s.consumer.CLoaded? && s.full[Slot(s.consumer.index, count)]
       case PopGiveUp => s.consumer.CLoaded? && !s.full[Slot(s.consumer.index, count)]
       case PopCopy => s.consumer.CSeen? && s.consumer.index < count
       case PopFree => s.consumer.CTaken? && s.consumer.index < count && s.consumer.desc.payloadLen <= width
       case PopIndex => s.consumer.CFreed?
  }

  /** `PushGiveUp` and `PopGiveUp` are a poll that fails: the caller polls again or times out. */
  function Apply(s: State, step: Step, count: nat, width: nat): State
    requires Enabled(s, step, count, width)
  {
    match step
    case PushStart(item) => s.(producer := PLoaded(item, s.writeIndex))
    case PushTest => s.(producer := PCopy(s.producer.item, Slot(s.producer.index, count), 0))
    case PushGiveUp => s.(producer := PIdle)
    case PushByte =>
      var PCopy(item, index, k) := s.producer;
      s.(payloads := s.payloads[index := s.payloads[index][k := item.payload[k]]],
         producer := PCopy(item, index, k + 1))
    case PushDesc =>
      var PCopy(item, index, _) := s.producer;
      s.(descs := s.descs[index := Desc(item.info, |item.payload|, index)], producer := PStored(item, index))
    case PushFlag =>
      var PStored(item, index) := s.producer;
      s.(full := s.full[index := true], pushed := s.pushed + [item], producer := PFlagged(index))
    case PushIndex => s.(writeIndex := Slot(s.producer.index + 1, count), producer := PIdle)
    case PopStart => s.(consumer := CLoaded(s.readIndex))
    case PopTest => s.(consumer := CSeen(Slot(s.consumer.index, count)))
    case PopGiveUp => s.(consumer := CIdle)
    case PopCopy =>
      var slot := s.consumer.index;
      s.(consumer := CTaken(slot, s.descs[slot].(slot := slot)))
    case PopFree =>
      var CTaken(index, desc) := s.consumer;
      s.(full := s.full[index := false], freed := s.freed + 1, consumer := CFreed(index, desc))
    case PopIndex =>
      var CFreed(index, desc) := s.consumer;
      s.(readIndex := Slot(index + 1, count), returned := s.returned + [desc], consumer := CIdle)
  }

  ghost predicate Runs(s: State, steps: seq<Step>, t: State, count: nat, width: nat)
    decreases |steps|
  {
    if steps == [] then s == t
    else Enabled(s, steps[0], count, width) && Runs(Apply(s, steps[0], count, width), steps[1..], t, count, width)
  }

  // ----- the invariant ------------------------------------------------------------------------

  /** Descriptor that popping the `i`-th pushed item must return. */
  function DescOf(pushed: seq<Item>, i: nat, count: nat): Desc
    requires i < |pushed| && count > 0
  {
    Desc(pushed[i].info, |pushed[i].payload|, Slot(i, count))
  }

  /** The slot of the `i`-th item holds its descriptor and its payload. */
  predicate Stored(descs: seq<Desc>, payloads: seq<seq<byte>>, pushed: seq<Item>, i: nat, count: nat)
    requires i < |pushed| && count > 0 && |descs| == |payloads| == count
  {
    var slot := Slot(i, count);
    && descs[slot] == DescOf(pushed, i, count)
    && |pushed[i].payload| <= |payloads[slot]| && payloads[slot][..|pushed[i].payload|] == pushed[i].payload
  }

  /** The producer is overwriting the slot of item |pushed| - count. */
  predicate Overwriting(p: Producer) { p.PCopy? || p.PStored? }

  /** The oldest item whose slot has not been touched by a later push. */
  function OldestKept(pushedCount: nat, producer: Producer, count: nat): int {
    pushedCount - count + if Overwriting(producer) then 1 else 0
  }

  ghost predicate ProducerInv(producer: Producer, writeIndex: nat, w: nat, freed: nat, descs: seq<Desc>,
                              payloads: seq<seq<byte>>, count: nat, width: nat)
    requires count > 0 && |descs| == |payloads| == count
    requires forall j :: 0 <= j < count ==> |payloads[j]| == width
  {
    match producer
    case PIdle => writeIndex == Slot(w, count)
    case PLoaded(item, index) => writeIndex == index == Slot(w, count) && |item.payload| <= width
    case PCopy(item, index, k) =>
      && writeIndex == index == Slot(w, count) && w < freed + count
      && k <= |item.payload| <= width && payloads[index][..k] == item.payload[..k]
    case PStored(item, index) =>
      && writeIndex == index == Slot(w, count) && w < freed + count
      && |item.payload| <= width && payloads[index][..|item.payload|] == item.payload
      && descs[index] == Desc(item.info, |item.payload|, index)
    case PFlagged(index) => w > 0 && writeIndex == index == Slot(w - 1, count)
  }

  ghost predicate ConsumerInv(consumer: Consumer, readIndex: nat, freed: nat, returnedCount: nat, pushed: seq<Item>,
                              count: nat)
    requires count > 0
  {
    match consumer
    case CIdle => readIndex == Slot(freed, count) && returnedCount == freed
    case CLoaded(index) => readIndex == index == Slot(freed, count) && returnedCount == freed
    case CSeen(index) => readIndex == index == Slot(freed, count) && returnedCount == freed && freed < |pushed|
    case CTaken(index, desc) =>
      && readIndex == index == Slot(freed, count) && returnedCount == freed
      && freed < |pushed| && desc == DescOf(pushed, freed, count)
    case CFreed(index, desc) =>
      && 0 < freed <= |pushed| && readIndex == index == Slot(freed - 1, count) && returnedCount == freed - 1
      && desc == DescOf(pushed, freed - 1, count)
  }

  /** The FULL slots are the cyclic interval of items pushed and not yet freed. */
  ghost predicate FullInv(full: seq<bool>, freed: nat, pushedCount: nat, count: nat)
    requires |full| == count > 0
  {
    forall i :: freed <= i < freed + count ==> (full[Slot(i, count)] <==> i < pushedCount)
  }

  /** Items from `oldest` on still have their descriptor and payload in their slot. */
  ghost predicate KeptInv(descs: seq<Desc>, payloads: seq<seq<byte>>, pushed: seq<Item>, oldest: int, count: nat)
    requires |descs| == |payloads| == count > 0
  {
    forall i :: 0 <= i < |pushed| && oldest <= i ==> Stored(descs, payloads, pushed, i, count)
  }

  ghost predicate ReturnedInv(returned: seq<Desc>, pushed: seq<Item>, count: nat)
    requires count > 0
  {
    && |returned| <= |pushed|
    && forall i :: 0 <= i < |returned| ==> returned[i] == DescOf(pushed, i, count)
  }

  ghost predicate Inv(s: State, count: nat, width: nat) {
    && Shape(s.full, s.descs, s.payloads, count, width)
    && s.freed <= |s.pushed| <= s.freed + count
    && (forall i :: 0 <= i < |s.pushed| ==> |s.pushed[i].payload| <= width)
    && FullInv(s.full, s.freed, |s.pushed|, count)
    && KeptInv(s.descs, s.payloads, s.pushed, OldestKept(|s.pushed|, s.producer, count), count)
    && ProducerInv(s.producer, s.writeIndex, |s.pushed|, s.freed, s.descs, s.payloads, count, width)
    && ConsumerInv(s.consumer, s.readIndex, s.freed, |s.returned|, s.pushed, count)
    && ReturnedInv(s.returned, s.pushed, count)
  }

  /** The queue the ring stands for. */
  function Queue(s: State): seq<Item>
    requires s.freed <= |s.pushed|
  {
    s.pushed[s.freed..]
  }
}
