/** `ring_push` and `ring_pop` as a caller runs them when the other side is not moving. */
module RingBackend {
  import opened Bytes
  import opened SlotRing
  import opened SlotRingFifo

  datatype PushResult = Pushed | TooLong | PushTimedOut
  datatype PopResult = Popped(desc: Desc) | PopTimedOut | Corrupt

  lemma PublishSteps(s: State, t: State, count: nat, width: nat)
    requires Inv(s, count, width) && s.producer.PStored?
    requires t == s.(full := s.full[s.producer.index := true], pushed := s.pushed + [s.producer.item],
                     writeIndex := Slot(s.writeIndex + 1, count), producer := PIdle)
    ensures Inv(t, count, width)
  {
    PushFlagKeeps(s, count, width);
    PushIndexKeeps(Apply(s, PushFlag, count, width), count, width);
  }

  lemma FreeSteps(s: State, t: State, count: nat, width: nat)
    requires s.consumer.CTaken? && s.consumer.index < |s.full| && Inv(s, count, width)
    requires t == s.(full := s.full[s.consumer.index := false], freed := s.freed + 1,
                     readIndex := Slot(s.readIndex + 1, count), returned := s.returned + [s.consumer.desc],
                     consumer := CIdle)
    ensures Inv(t, count, width)
  {
    assert |s.pushed[s.freed].payload| <= width;
    PopFreeKeeps(s, count, width);
    PopIndexKeeps(Apply(s, PopFree, count, width), count, width);
  }

  /** Copying the descriptor out of the oldest unfreed slot. */
  lemma TakenKeeps(s: State, desc: Desc, count: nat, width: nat)
    requires Inv(s, count, width) && s.consumer.CIdle?
    requires s.freed < |s.pushed| && desc == DescOf(s.pushed, s.freed, count)
    ensures Inv(s.(consumer := CTaken(Slot(s.freed, count), desc)), count, width)
  {
  }

  lemma CopySteps(s: State, t: State, item: Item, count: nat, width: nat)
    requires Inv(s, count, width) && s.producer.PIdle? && |item.payload| <= width
    requires !s.full[Slot(s.writeIndex, count)]
    requires t == s.(producer := PCopy(item, Slot(s.writeIndex, count), 0))
    ensures Inv(t, count, width)
  {
    PushStartKeeps(s, item, count, width);
    PushTestKeeps(s.(producer := PLoaded(item, s.writeIndex)), count, width);
  }

  class Mapping {
    const count: nat
    const width: nat
    var full: seq<bool>
    var descs: seq<Desc>
    var payloads: seq<seq<byte>>
    var writeIndex: nat
    var readIndex: nat
    ghost var pushed: seq<Item>
    ghost var freed: nat
    ghost var returned: seq<Desc>

    ghost function View(p: Producer, c: Consumer): State
      reads this
    {
      State(full, descs, payloads, writeIndex, readIndex, p, c, pushed, freed, returned)
    }

    ghost predicate Valid() reads this { Inv(View(PIdle, CIdle), count, width) }

    ghost function Contents(): seq<Item>
      reads this
      requires Valid()
    {
      Queue(View(PIdle, CIdle))
    }

    /** A mapping whose header was (re)initialized by `ring_open`. */
    constructor (count: nat, width: nat)
      requires count > 0
      ensures this.count == count && this.width == width && Valid() && Contents() == []
    {
      this.count, this.width := count, width;
      full := seq(count, _ => false);
      descs := seq(count, _ => Desc(Info(0, 0, 0, 0, 0, 0, 0, 0, 0), 0, 0));
      payloads := seq(count, _ => seq(width, _ => 0));
      writeIndex, readIndex := 0, 0;
      pushed, freed, returned := [], 0, [];
      new;
      InitHasInv(View(PIdle, CIdle), count, width);
    }

    /** Polls at most `polls` times before it times out. */
    method Push(item: Item, polls: nat) returns (result: PushResult)
      requires Valid()
      modifies this
      ensures Valid()
      ensures result == if |item.payload| > width then TooLong
                        else if polls == 0 || old(|Contents()|) == count then PushTimedOut else Pushed
      ensures Contents() == if result == Pushed then old(Contents()) + [item] else old(Contents())
    {
      if |item.payload| > width { return TooLong; }
      var tries := 0;
      while tries < polls
        invariant Valid() && unchanged(this)
        invariant tries > 0 ==> |Contents()| == count
      {
        var slot := Slot(writeIndex, count);
        NextSlot(|pushed|, count);
        if !full[slot] {
          Store(item, slot);
          return Pushed;
        }
        tries := tries + 1;
      }
      return PushTimedOut;
    }

    /** The stores of a successful push, in program order. */
    method Store(item: Item, slot: nat)
      requires Valid() && |item.payload| <= width
      requires slot == Slot(writeIndex, count) && !full[slot]
      modifies this
      ensures Valid() && pushed == old(pushed) + [item] && freed == old(freed)
    {
      CopySteps(View(PIdle, CIdle), View(PCopy(item, slot, 0), CIdle), item, count, width);
      CopyPayload(item, slot);
      StoreDesc(item, slot);
      Publish(item, slot);
    }

    method CopyPayload(item: Item, slot: nat)
      requires Inv(View(PCopy(item, slot, 0), CIdle), count, width)
      modifies this`payloads
      ensures Inv(View(PCopy(item, slot, |item.payload|), CIdle), count, width)
    {
      for k := 0 to |item.payload|
        invariant Inv(View(PCopy(item, slot, k), CIdle), count, width)
      {
        PushByteKeeps(View(PCopy(item, slot, k), CIdle), count, width);
        payloads := payloads[slot := payloads[slot][k := item.payload[k]]];
      }
    }

    method StoreDesc(item: Item, slot: nat)
      requires Inv(View(PCopy(item, slot, |item.payload|), CIdle), count, width)
      modifies this`descs
      ensures Inv(View(PStored(item, slot), CIdle), count, width)
    {
      ghost var copied := View(PCopy(item, slot, |item.payload|), CIdle);
      PushDescKeeps(copied, count, width);
      descs := descs[slot := Desc(item.info, |item.payload|, slot)];
      assert View(PStored(item, slot), CIdle) == Apply(copied, PushDesc, count, width);
    }

    /** Flag, then index: after the flag the item is in the queue. */
    method Publish(item: Item, slot: nat)
      requires Inv(View(PStored(item, slot), CIdle), count, width)
      modifies this`full, this`pushed, this`writeIndex
      ensures Valid() && pushed == old(pushed) + [item]
    {
      ghost var stored := View(PStored(item, slot), CIdle);
      full := full[slot := true];
      pushed := pushed + [item];
      writeIndex := Slot(writeIndex + 1, count);
      PublishSteps(stored, View(PIdle, CIdle), count, width);
    }

    method Pop(polls: nat) returns (result: PopResult)
      requires Valid()
      modifies this
      ensures Valid() && !result.Corrupt?
      ensures result.PopTimedOut? <==> polls == 0 || old(Contents()) == []
      ensures Contents() == if result.Popped? then old(Contents())[1..] else old(Contents())
      ensures result.Popped? ==> Reads(result.desc, old(Contents())[0])
    {
      var tries := 0;
      while tries < polls
        invariant Valid() && unchanged(this)
        invariant tries > 0 ==> Contents() == []
      {
        var slot := Slot(readIndex, count);
        NextSlot(freed, count);
        if full[slot] {
          result := TakeHead(slot);
          return;
        }
        tries := tries + 1;
      }
      return PopTimedOut;
    }

    /** The loads and stores of a successful pop; the size check never fails. */
    method TakeHead(slot: nat) returns (result: PopResult)
      requires Valid() && freed < |pushed| && slot == Slot(freed, count)
      modifies this`full, this`freed, this`readIndex, this`returned
      ensures Valid() && freed == old(freed) + 1 && result.Popped? && Reads(result.desc, pushed[old(freed)])
    {
      var desc := descs[slot];
      assert Stored(descs, payloads, pushed, freed, count);
      if desc.payloadLen > width { return Corrupt; }
      desc := desc.(slot := slot);
      Free(slot, desc);
      return Popped(desc);
    }

    /** What a returned descriptor points at is the item that was pushed. */
    ghost predicate Reads(desc: Desc, item: Item)
      reads this
    {
      && desc.info == item.info && desc.slot < |payloads| && desc.payloadLen <= |payloads[desc.slot]|
      && payloads[desc.slot][..desc.payloadLen] == item.payload
    }

    /** Flag, then index: after the flag the slot belongs to the producer again. */
    method Free(slot: nat, desc: Desc)
      requires Valid() && slot == Slot(freed, count) && freed < |pushed| && desc == DescOf(pushed, freed, count)
      modifies this`full, this`freed, this`readIndex, this`returned
      ensures Valid() && freed == old(freed) + 1 && returned == old(returned) + [desc]
    {
      ghost var taken := View(PIdle, CTaken(slot, desc));
      TakenKeeps(View(PIdle, CIdle), desc, count, width);
      full := full[slot := false];
      freed := freed + 1;
      readIndex := Slot(readIndex + 1, count);
      returned := returned + [desc];
      FreeSteps(taken, View(PIdle, CIdle), count, width);
    }
  }
}
