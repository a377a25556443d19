/** Every interleaving of one `ring_push` and one `ring_pop` caller behaves as a bounded FIFO. */
module SlotRingFifo {
  import opened Bytes
  import opened SlotRing

  lemma InitHasInv(s: State, count: nat, width: nat)
    requires Init(s, count, width)
    ensures Inv(s, count, width)
  {
  }

  lemma PushStartKeeps(s: State, item: Item, count: nat, width: nat)
    requires Inv(s, count, width) && Enabled(s, PushStart(item), count, width)
    ensures Inv(Apply(s, PushStart(item), count, width), count, width)
  {
  }

  lemma PushTestKeeps(s: State, count: nat, width: nat)
    requires Inv(s, count, width) && Enabled(s, PushTest, count, width)
    ensures Inv(Apply(s, PushTest, count, width), count, width)
  {
    NextSlot(|s.pushed|, count);
  }

  /** Writing the slot of the next item leaves the previous `count` - 1 items in place. */
  lemma KeptElsewhere(descs: seq<Desc>, payloads: seq<seq<byte>>, descs': seq<Desc>, payloads': seq<seq<byte>>,
                      pushed: seq<Item>, count: nat)
    requires |descs| == |payloads| == |descs'| == |payloads'| == count > 0
    requires forall j :: 0 <= j < count && j != Slot(|pushed|, count) ==>
               descs'[j] == descs[j] && payloads'[j] == payloads[j]
    requires KeptInv(descs, payloads, pushed, |pushed| - count + 1, count)
    ensures KeptInv(descs', payloads', pushed, |pushed| - count + 1, count)
  {
    forall i | 0 <= i < |pushed| && |pushed| - count + 1 <= i
      ensures Stored(descs', payloads', pushed, i, count)
    {
      SlotsDiffer(i, |pushed|, count);
      assert Stored(descs, payloads, pushed, i, count);
    }
  }

  lemma FullAfterPush(full: seq<bool>, freed: nat, w: nat, count: nat)
    requires |full| == count > 0 && freed <= w < freed + count && FullInv(full, freed, w, count)
    ensures FullInv(full[Slot(w, count) := true], freed, w + 1, count)
  {
    forall i | freed <= i < freed + count && i != w ensures Slot(i, count) != Slot(w, count) {
      if i < w { SlotsDiffer(i, w, count); } else { SlotsDiffer(w, i, count); }
    }
  }

  lemma FullAfterPop(full: seq<bool>, freed: nat, w: nat, count: nat)
    requires |full| == count > 0 && freed < w <= freed + count && FullInv(full, freed, w, count)
    ensures FullInv(full[Slot(freed, count) := false], freed + 1, w, count)
  {
    NextSlot(freed, count);
    forall i | freed < i < freed + count ensures Slot(i, count) != Slot(freed, count) {
      SlotsDiffer(freed, i, count);
    }
  }

  /** Appending an item keeps what is said about earlier ones. */
  lemma KeptAfterPush(s: State, t: State, item: Item, count: nat, width: nat)
    requires Inv(s, count, width) && s.producer.PStored? && item == s.producer.item
    requires t.pushed == s.pushed + [item] && t.descs == s.descs && t.payloads == s.payloads && t.returned == s.returned
    ensures KeptInv(t.descs, t.payloads, t.pushed, |t.pushed| - count, count)
    ensures ReturnedInv(t.returned, t.pushed, count)
    ensures forall i: nat :: i < |s.pushed| ==> DescOf(t.pushed, i, count) == DescOf(s.pushed, i, count)
  {
    forall i | 0 <= i < |t.pushed| && |t.pushed| - count <= i
      ensures Stored(t.descs, t.payloads, t.pushed, i, count)
    {
      if i < |s.pushed| { assert Stored(s.descs, s.payloads, s.pushed, i, count); }
    }
  }

  lemma PushByteKeeps(s: State, count: nat, width: nat)
    requires Inv(s, count, width) && Enabled(s, PushByte, count, width)
    ensures Inv(Apply(s, PushByte, count, width), count, width)
  {
    var t := Apply(s, PushByte, count, width);
    KeptElsewhere(s.descs, s.payloads, t.descs, t.payloads, s.pushed, count);
  }

  lemma PushDescKeeps(s: State, count: nat, width: nat)
    requires Inv(s, count, width) && Enabled(s, PushDesc, count, width)
    ensures Inv(Apply(s, PushDesc, count, width), count, width)
  {
    var t := Apply(s, PushDesc, count, width);
    KeptElsewhere(s.descs, s.payloads, t.descs, t.payloads, s.pushed, count);
  }

  lemma PushFlagKeeps(s: State, count: nat, width: nat)
    requires Inv(s, count, width) && Enabled(s, PushFlag, count, width)
    ensures Inv(Apply(s, PushFlag, count, width), count, width)
  {
    var t := Apply(s, PushFlag, count, width);
    FullAfterPush(s.full, s.freed, |s.pushed|, count);
    KeptAfterPush(s, t, s.producer.item, count, width);
  }

  lemma PushIndexKeeps(s: State, count: nat, width: nat)
    requires Inv(s, count, width) && Enabled(s, PushIndex, count, width)
    ensures Inv(Apply(s, PushIndex, count, width), count, width)
  {
    NextSlot(|s.pushed| - 1, count);
  }

  lemma PopStartKeeps(s: State, count: nat, width: nat)
    requires Inv(s, count, width) && Enabled(s, PopStart, count, width)
    ensures Inv(Apply(s, PopStart, count, width), count, width)
  {
  }

  lemma PopTestKeeps(s: State, count: nat, width: nat)
    requires Inv(s, count, width) && Enabled(s, PopTest, count, width)
    ensures Inv(Apply(s, PopTest, count, width), count, width)
  {
    NextSlot(s.freed, count);
  }

  lemma PopCopyKeeps(s: State, count: nat, width: nat)
    requires Inv(s, count, width) && Enabled(s, PopCopy, count, width)
    ensures Inv(Apply(s, PopCopy, count, width), count, width)
  {
    assert Stored(s.descs, s.payloads, s.pushed, s.freed, count);
  }

  lemma PopFreeKeeps(s: State, count: nat, width: nat)
    requires Inv(s, count, width) && Enabled(s, PopFree, count, width)
    ensures Inv(Apply(s, PopFree, count, width), count, width)
  {
    FullAfterPop(s.full, s.freed, |s.pushed|, count);
  }

  lemma PopIndexKeeps(s: State, count: nat, width: nat)
    requires Inv(s, count, width) && Enabled(s, PopIndex, count, width)
    ensures Inv(Apply(s, PopIndex, count, width), count, width)
  {
    NextSlot(s.freed - 1, count);
    ReturnedWith(s.returned, s.pushed, s.consumer.desc, count);
  }

  lemma ReturnedWith(returned: seq<Desc>, pushed: seq<Item>, desc: Desc, count: nat)
    requires count > 0 && ReturnedInv(returned, pushed, count) && |returned| < |pushed|
    requires desc == DescOf(pushed, |returned|, count)
    ensures ReturnedInv(returned + [desc], pushed, count)
  {
  }

  lemma StepKeepsInv(s: State, step: Step, count: nat, width: nat)
    requires Inv(s, count, width) && Enabled(s, step, count, width)
    ensures Inv(Apply(s, step, count, width), count, width)
  {
    match step
    case PushStart(item) => PushStartKeeps(s, item, count, width);
    case PushTest => PushTestKeeps(s, count, width);
    case PushGiveUp =>
    case PushByte => PushByteKeeps(s, count, width);
    case PushDesc => PushDescKeeps(s, count, width);
    case PushFlag => PushFlagKeeps(s, count, width);
    case PushIndex => PushIndexKeeps(s, count, width);
    case PopStart => PopStartKeeps(s, count, width);
    case PopTest => PopTestKeeps(s, count, width);
    case PopGiveUp =>
    case PopCopy => PopCopyKeeps(s, count, width);
    case PopFree => PopFreeKeeps(s, count, width);
    case PopIndex => PopIndexKeeps(s, count, width);
  }

  lemma {:induction false} RunKeepsInv(s: State, steps: seq<Step>, t: State, count: nat, width: nat)
    requires Inv(s, count, width) && Runs(s, steps, t, count, width)
    ensures Inv(t, count, width)
    decreases |steps|
  {
    if steps != [] {
      StepKeepsInv(s, steps[0], count, width);
      RunKeepsInv(Apply(s, steps[0], count, width), steps[1..], t, count, width);
    }
  }

  // ----- what callers see -----------------------------------------------------------------------

  /**
   * Refinement: the flag stores are the linearization points. Setting FULL enqueues when
   * there is room, clearing it dequeues the head, and no other step changes the queue.
   */
  lemma StepRefinesFifo(s: State, step: Step, count: nat, width: nat)
    requires Inv(s, count, width) && Enabled(s, step, count, width)
    ensures var t := Apply(s, step, count, width);
            && t.freed <= |t.pushed|
            && match step
               case PushFlag => |Queue(s)| < count && Queue(t) == Queue(s) + [s.producer.item]
               case PopFree =>
                 && Queue(s) != [] && Queue(t) == Queue(s)[1..]
                 && t.consumer.desc.info == Queue(s)[0].info
                 && t.consumer.desc.payloadLen == |Queue(s)[0].payload|
               case _ => Queue(t) == Queue(s)
  {
    StepKeepsInv(s, step, count, width);
  }

  /** Completed pops return the pushed descriptors in order, without gap or repeat. */
  lemma PopsAreAPrefixOfPushes(s0: State, steps: seq<Step>, t: State, count: nat, width: nat)
    requires Init(s0, count, width) && Runs(s0, steps, t, count, width)
    ensures |t.returned| <= |t.pushed| && t.freed <= |t.pushed| && |Queue(t)| <= count
    ensures |t.returned| == t.freed - if t.consumer.CFreed? then 1 else 0
    ensures forall i :: 0 <= i < |t.returned| ==>
              && t.returned[i].info == t.pushed[i].info
              && t.returned[i].payloadLen == |t.pushed[i].payload|
              && t.returned[i].slot == i % count
  {
    InitHasInv(s0, count, width);
    RunKeepsInv(s0, steps, t, count, width);
    forall i | 0 <= i < |t.returned| ensures t.returned[i].slot == i % count { SlotIsRemainder(i, count); }
  }

  /** A push finds its slot taken exactly when the queue is full, a pop exactly when it is empty. */
  lemma FlagTestsAreExact(s0: State, steps: seq<Step>, t: State, count: nat, width: nat)
    requires Init(s0, count, width) && Runs(s0, steps, t, count, width)
    ensures t.freed <= |t.pushed|
    ensures t.producer.PLoaded? ==> (Enabled(t, PushGiveUp, count, width) <==> |Queue(t)| == count)
                                    && (Enabled(t, PushTest, count, width) <==> |Queue(t)| < count)
    ensures t.consumer.CLoaded? ==> (Enabled(t, PopGiveUp, count, width) <==> Queue(t) == [])
                                    && (Enabled(t, PopTest, count, width) <==> Queue(t) != [])
  {
    InitHasInv(s0, count, width);
    RunKeepsInv(s0, steps, t, count, width);
    if t.producer.PLoaded? { FullIsExact(t, count, width); }
    if t.consumer.CLoaded? { EmptyIsExact(t, count, width); }
  }

  lemma FullIsExact(t: State, count: nat, width: nat)
    requires Inv(t, count, width) && t.producer.PLoaded?
    ensures t.full[Slot(t.producer.index, count)] <==> |t.pushed| == t.freed + count
  {
    NextSlot(|t.pushed|, count);
    NextSlot(t.freed, count);
    if |t.pushed| == t.freed + count { assert Slot(t.freed + count, count) == Slot(t.freed, count); }
  }

  lemma EmptyIsExact(t: State, count: nat, width: nat)
    requires Inv(t, count, width) && t.consumer.CLoaded?
    ensures t.full[Slot(t.consumer.index, count)] <==> t.freed < |t.pushed|
  {
    NextSlot(t.freed, count);
  }

  /** The corruption check of `ring_pop` never fires: a taken descriptor always fits its slot. */
  lemma TakenDescriptorFits(s0: State, steps: seq<Step>, t: State, count: nat, width: nat)
    requires Init(s0, count, width) && Runs(s0, steps, t, count, width) && t.consumer.CTaken?
    ensures Enabled(t, PopFree, count, width)
  {
    InitHasInv(s0, count, width);
    RunKeepsInv(s0, steps, t, count, width);
  }

  /**
   * A popped payload stays readable in its slot until the push `count` places later starts
   * to copy into it.
   */
  lemma PayloadReadableUntilSlotReused(s0: State, steps: seq<Step>, t: State, i: nat, count: nat, width: nat)
    requires Init(s0, count, width) && Runs(s0, steps, t, count, width)
    requires i < |t.returned| && (|t.pushed| < i + count || (|t.pushed| == i + count && !Overwriting(t.producer)))
    ensures t.returned[i].slot < |t.payloads| && t.returned[i].payloadLen <= |t.payloads[t.returned[i].slot]|
    ensures i < |t.pushed| && t.payloads[t.returned[i].slot][..t.returned[i].payloadLen] == t.pushed[i].payload
  {
    InitHasInv(s0, count, width);
    RunKeepsInv(s0, steps, t, count, width);
    assert Stored(t.descs, t.payloads, t.pushed, i, count);
  }
}
