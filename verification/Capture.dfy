/**
 * The capture tool: one buffer and a fill count per frame instead of a set of segment ids.
 * A frame counts as complete at its `count`-th packet, whatever segments those carried.
 */
module Capture {
  import opened Bytes
  import opened PacketSchema
  import opened FrameTable
  import opened Raster

  const MAX_ACTIVE_FRAMES: nat := 8

  /** `[buffer, count, fill]`; the count is cleared when the frame completes. */
  datatype Entry = Entry(buffer: seq<byte>, count: Option<nat>, fill: nat)

  /** The same by its history: the packets since the entry was allocated. */
  datatype Life = Life(count: nat, patches: seq<Patch>)

  function Zeros(n: nat): (r: seq<byte>)
    ensures |r| == n && forall i :: 0 <= i < n ==> r[i] == 0
  {
    seq(n, _ => 0)
  }

  function Clip(n: nat, length: nat): nat { if n < length then n else length }

  /** `buffer[off:off + PAYLOAD] = payload`, both bounds clipped to the buffer. */
  function Written(buffer: seq<byte>, p: Patch): seq<byte> {
    var off := p.segment * PAYLOAD;
    buffer[..Clip(off, |buffer|)] + p.payload + buffer[Clip(off + PAYLOAD, |buffer|)..]
  }

  ghost function Filled(l: Life): seq<byte>
    decreases |l.patches|
  {
    if l.patches == [] then Zeros(l.count * PAYLOAD)
    else Written(Filled(Life(l.count, l.patches[..|l.patches| - 1])), l.patches[|l.patches| - 1])
  }

  ghost predicate Done(l: Life) { |l.patches| >= l.count }

  ghost function EntryOf(l: Life): Entry {
    Entry(Filled(l), if Done(l) then None else Some(l.count), |l.patches|)
  }

  // ----- one packet --------------------------------------------------------------------------------

  ghost function Restricted(m: map<int, Life>, ids: set<int>): map<int, Life> { map k | k in m && k in ids :: m[k] }

  /** A new entry for an unknown or completed frame; the smallest ids make room, maybe this one. */
  ghost function Allocated(lives: map<int, Life>, f: int, count: nat): map<int, Life> {
    Restricted(lives[f := Life(count, [])], Kept(lives.Keys + {f}, MAX_ACTIVE_FRAMES))
  }

  ghost predicate InUse(lives: map<int, Life>, f: int) { f in lives && !Done(lives[f]) }

  /** The entry this packet is written to, which may already be out of the table. */
  ghost function Target(lives: map<int, Life>, f: int, count: nat): Life {
    if InUse(lives, f) then lives[f] else Life(count, [])
  }

  ghost function Added(l: Life, p: Patch): Life { l.(patches := l.patches + [p]) }

  ghost function Put(lives: map<int, Life>, f: int, l: Life): map<int, Life> {
    if f in lives then lives[f := l] else lives
  }

  ghost function Take(lives: map<int, Life>, f: int, count: nat, p: Patch): map<int, Life> {
    Put(if InUse(lives, f) then lives else Allocated(lives, f, count), f, Added(Target(lives, f, count), p))
  }

  // ----- the counter against the set ---------------------------------------------------------------

  ghost predicate Distinct(patches: seq<Patch>) {
    forall i, j :: 0 <= i < j < |patches| ==> patches[i].segment != patches[j].segment
  }

  ghost predicate InRange(l: Life) {
    && (forall i :: 0 <= i < |l.patches| ==> l.patches[i].segment < l.count && |l.patches[i].payload| == PAYLOAD)
    && |l.patches| <= l.count
  }

  lemma {:induction false} DistinctSize(patches: seq<Patch>)
    ensures |Segments(patches)| <= |patches|
    ensures |Segments(patches)| == |patches| <==> Distinct(patches)
  {
    if patches != [] {
      var n := |patches| - 1;
      DistinctSize(patches[..n]);
      DistinctWith(patches[..n], patches[n], patches);
      AddedSize(Segments(patches[..n]), patches[n].segment, Segments(patches));
    }
  }

  lemma AddedSize(ids: set<nat>, k: nat, more: set<nat>)
    requires more == ids + {k}
    ensures |more| == |ids| + if k in ids then 0 else 1
  {
    if k in ids { assert more == ids; }
  }

  lemma DistinctWith(init: seq<Patch>, p: Patch, all: seq<Patch>)
    requires all == init + [p]
    ensures Distinct(all) <==> Distinct(init) && p.segment !in Segments(init)
  {
    assert forall i :: 0 <= i < |init| ==> all[i] == init[i];
    SegmentsIff(init, p.segment);
    if p.segment in Segments(init) {
      var i :| 0 <= i < |init| && init[i].segment == p.segment;
      assert all[i].segment == all[|init|].segment;
    }
    if Distinct(all) {
      forall i, j | 0 <= i < j < |init| ensures init[i].segment != init[j].segment {
        assert all[i].segment != all[j].segment;
      }
    }
  }

  /**
   * The counter never lags behind the set test, and says complete too early exactly when some
   * segment came twice.
   */
  lemma CounterAgainstSet(l: Life)
    requires InRange(l)
    ensures HasAll(Segments(l.patches), l.count) ==> Done(l)
    ensures Done(l) ==> (HasAll(Segments(l.patches), l.count) <==> Distinct(l.patches))
  {
    SegmentsBelow(l.patches, l.count);
    BoundedIds(Segments(l.patches), l.count);
    DistinctSize(l.patches);
  }

  // ----- the buffer of a complete frame ------------------------------------------------------------

  lemma {:induction false} FilledLength(l: Life)
    requires InRange(l)
    ensures |Filled(l)| == l.count * PAYLOAD
    decreases |l.patches|
  {
    if l.patches != [] {
      var n := |l.patches| - 1;
      FilledLength(Life(l.count, l.patches[..n]));
      SegmentFits(l.patches[n].segment, l.count);
    }
  }

  lemma SegmentFits(segment: nat, count: nat)
    requires segment < count
    ensures segment * PAYLOAD + PAYLOAD <= count * PAYLOAD
  {
  }

  /** The octets of one segment. */
  ghost function Block(buffer: seq<byte>, k: nat): seq<byte>
    requires (k + 1) * PAYLOAD <= |buffer|
  {
    buffer[k * PAYLOAD..(k + 1) * PAYLOAD]
  }

  lemma BlockWritten(buffer: seq<byte>, p: Patch, k: nat, count: nat)
    requires |buffer| == count * PAYLOAD && k < count && p.segment < count && |p.payload| == PAYLOAD
    ensures |Written(buffer, p)| == |buffer| && (k + 1) * PAYLOAD <= |buffer|
    ensures Block(Written(buffer, p), k) == if k == p.segment then p.payload else Block(buffer, k)
  {
    SegmentFits(p.segment, count);
    SegmentFits(k, count);
    var off, w := p.segment * PAYLOAD, Written(buffer, p);
    assert w == buffer[..off] + p.payload + buffer[off + PAYLOAD..];
    if k < p.segment {
      assert (k + 1) * PAYLOAD <= off;
    } else if k > p.segment {
      assert k * PAYLOAD >= off + PAYLOAD;
    }
  }

  /** Each block holds the payload that came last for its segment; the others are still zero. */
  lemma {:induction false} BlockLaw(l: Life, k: nat)
    requires InRange(l) && k < l.count
    ensures |Filled(l)| == l.count * PAYLOAD && (k + 1) * PAYLOAD <= |Filled(l)|
    ensures Block(Filled(l), k) == match Latest(l.patches, k) case Some(payload) => payload case None => Zeros(PAYLOAD)
    decreases |l.patches|
  {
    FilledLength(l);
    SegmentFits(k, l.count);
    if l.patches != [] {
      var n := |l.patches| - 1;
      var before := Life(l.count, l.patches[..n]);
      FilledLength(before);
      BlockLaw(before, k);
      BlockWritten(Filled(before), l.patches[n], k, l.count);
    } else {
      assert Block(Zeros(l.count * PAYLOAD), k) == Zeros(PAYLOAD);
    }
  }

  /** A buffer is its blocks joined. */
  lemma {:induction false} BlocksJoin(buffer: seq<byte>, blocks: seq<seq<byte>>)
    requires |buffer| == |blocks| * PAYLOAD
    requires forall k :: 0 <= k < |blocks| ==> (k + 1) * PAYLOAD <= |buffer| && blocks[k] == Block(buffer, k)
    ensures buffer == Join(blocks)
    decreases |blocks|
  {
    if blocks != [] {
      var rest, tail := buffer[PAYLOAD..], blocks[1..];
      forall k | 0 <= k < |tail| ensures (k + 1) * PAYLOAD <= |rest| && tail[k] == Block(rest, k) {
        assert tail[k] == blocks[k + 1];
        SegmentFits(k, |tail|);
        assert Block(rest, k) == Block(buffer, k + 1);
      }
      BlocksJoin(rest, tail);
      assert blocks[0] == buffer[..PAYLOAD];
      assert buffer == buffer[..PAYLOAD] + rest;
    }
  }

  /** Complete without a repeat: the buffer is the frame's segments joined in order. */
  lemma CompleteBuffer(l: Life, segments: seq<seq<byte>>)
    requires InRange(l) && Done(l) && Distinct(l.patches) && |segments| == l.count
    requires forall i :: 0 <= i < |l.patches| ==> l.patches[i].payload == segments[l.patches[i].segment]
    ensures Filled(l) == Join(segments)
  {
    CounterAgainstSet(l);
    FilledLength(l);
    forall k | 0 <= k < l.count ensures (k + 1) * PAYLOAD <= |Filled(l)| && segments[k] == Block(Filled(l), k) {
      BlockLaw(l, k);
      LatestIffSeen(l.patches, k);
      LatestArrived(l.patches, k);
    }
    BlocksJoin(Filled(l), segments);
  }

  /** Complete with a repeat: some segment never came and its block is still zero. */
  lemma EarlyCompletion(l: Life) returns (k: nat)
    requires InRange(l) && Done(l) && !Distinct(l.patches)
    ensures k < l.count && k !in Segments(l.patches) && (k + 1) * PAYLOAD <= |Filled(l)|
    ensures Block(Filled(l), k) == Zeros(PAYLOAD)
  {
    CounterAgainstSet(l);
    k :| k < l.count && k !in Segments(l.patches);
    BlockLaw(l, k);
    LatestIffSeen(l.patches, k);
  }

  // ----- whole runs ----------------------------------------------------------------------------------

  datatype Packet = Packet(frame: int, count: nat, patch: Patch)

  /** The table after these packets, from the start. */
  ghost function Run(packets: seq<Packet>): map<int, Life> {
    if packets == [] then map[]
    else
      var n := |packets| - 1;
      Take(Run(packets[..n]), packets[n].frame, packets[n].count, packets[n].patch)
  }

  /** The frame ids that have arrived. */
  ghost function FrameIds(packets: seq<Packet>): set<int> {
    if packets == [] then {} else FrameIds(packets[..|packets| - 1]) + {packets[|packets| - 1].frame}
  }

  /** The segments of one frame in order of arrival. */
  ghost function Of(packets: seq<Packet>, f: int): (r: seq<Patch>)
    ensures f !in FrameIds(packets) ==> r == []
  {
    if packets == [] then []
    else
      var n := |packets| - 1;
      Of(packets[..n], f) + if packets[n].frame == f then [packets[n].patch] else []
  }

  // ----- which frames are in the table ---------------------------------------------------------------

  lemma TakeKeys(lives: map<int, Life>, f: int, count: nat, p: Patch)
    requires |lives.Keys| <= MAX_ACTIVE_FRAMES
    ensures KeepsLargest(Take(lives, f, count, p).Keys, lives.Keys + {f}, MAX_ACTIVE_FRAMES)
  {
    if InUse(lives, f) {
      assert Take(lives, f, count, p).Keys == lives.Keys == lives.Keys + {f};
    } else {
      assert Take(lives, f, count, p).Keys == Allocated(lives, f, count).Keys;
      assert Allocated(lives, f, count).Keys == Kept(lives.Keys + {f}, MAX_ACTIVE_FRAMES);
    }
  }

  /** On every run whatsoever the table holds the eight largest ids that have arrived. */
  lemma {:induction false} TableIsLargestIds(packets: seq<Packet>)
    ensures KeepsLargest(Run(packets).Keys, FrameIds(packets), 8)
  {
    if packets != [] {
      var n := |packets| - 1;
      var a, before := packets[n], Run(packets[..n]);
      TableIsLargestIds(packets[..n]);
      TakeKeys(before, a.frame, a.count, a.patch);
      KeptGrows(before.Keys, FrameIds(packets[..n]), MAX_ACTIVE_FRAMES, a.frame, Run(packets).Keys);
    }
  }

  /** A frame that is in the table has never been evicted. */
  lemma InTableSinceArrival(packets: seq<Packet>, f: int)
    requires packets != [] && f in Run(packets) && f in FrameIds(packets[..|packets| - 1])
    ensures f in Run(packets[..|packets| - 1])
  {
    var before := packets[..|packets| - 1];
    TableIsLargestIds(packets);
    TableIsLargestIds(before);
    KeptIff(Run(packets).Keys, FrameIds(packets), MAX_ACTIVE_FRAMES, f);
    KeptIff(Run(before).Keys, FrameIds(before), MAX_ACTIVE_FRAMES, f);
    SubsetSize(Above(FrameIds(before), f), Above(FrameIds(packets), f));
  }

  // ----- what the entries hold -------------------------------------------------------------------------

  ghost predicate Same(a: Packet, b: Packet) { a.frame == b.frame && a.patch.segment == b.patch.segment }

  ghost predicate NoRepeats(packets: seq<Packet>) {
    forall i, j :: 0 <= i < j < |packets| ==> !Same(packets[i], packets[j])
  }

  /** The packet is one segment of its frame's content. */
  ghost predicate Carries(a: Packet, content: int -> seq<seq<byte>>) {
    && a.count == |content(a.frame)| && a.patch.segment < a.count
    && a.patch.payload == content(a.frame)[a.patch.segment] && |a.patch.payload| == PAYLOAD
  }

  ghost predicate LifeOk(f: int, l: Life, history: seq<Packet>, content: int -> seq<seq<byte>>) {
    && InRange(l) && Distinct(l.patches) && l.count == |content(f)|
    && forall i :: 0 <= i < |l.patches| ==>
         Packet(f, l.count, l.patches[i]) in history && l.patches[i].payload == content(f)[l.patches[i].segment]
  }

  ghost predicate Inv(history: seq<Packet>, lives: map<int, Life>, content: int -> seq<seq<byte>>) {
    |lives.Keys| <= MAX_ACTIVE_FRAMES && forall f :: f in lives ==> LifeOk(f, lives[f], history, content)
  }

  ghost predicate New(history: seq<Packet>, a: Packet) { forall i :: 0 <= i < |history| ==> !Same(history[i], a) }

  lemma NotSeen(history: seq<Packet>, a: Packet, l: Life, content: int -> seq<seq<byte>>)
    requires LifeOk(a.frame, l, history, content) && New(history, a)
    ensures a.patch.segment !in Segments(l.patches)
  {
    forall i | 0 <= i < |l.patches| ensures l.patches[i].segment != a.patch.segment {
      var j :| 0 <= j < |history| && history[j] == Packet(a.frame, l.count, l.patches[i]);
      assert !Same(history[j], a);
    }
    SegmentsIff(l.patches, a.patch.segment);
  }

  /** A new segment of a frame in the table cannot meet a complete entry. */
  lemma StillOpen(history: seq<Packet>, a: Packet, l: Life, content: int -> seq<seq<byte>>)
    requires LifeOk(a.frame, l, history, content) && New(history, a) && Carries(a, content)
    ensures !Done(l)
  {
    NotSeen(history, a, l, content);
    CounterAgainstSet(l);
  }

  lemma LifeOkWith(history: seq<Packet>, a: Packet, l: Life, content: int -> seq<seq<byte>>)
    requires LifeOk(a.frame, l, history, content) && New(history, a) && Carries(a, content) && !Done(l)
    ensures LifeOk(a.frame, Added(l, a.patch), history + [a], content)
  {
    NotSeen(history, a, l, content);
    DistinctWith(l.patches, a.patch, l.patches + [a.patch]);
  }

  lemma LifeOkLater(history: seq<Packet>, a: Packet, f: int, l: Life, content: int -> seq<seq<byte>>)
    requires LifeOk(f, l, history, content)
    ensures LifeOk(f, l, history + [a], content)
  {
  }

  lemma TakeKeepsInv(history: seq<Packet>, lives: map<int, Life>, a: Packet, content: int -> seq<seq<byte>>)
    requires Inv(history, lives, content) && New(history, a) && Carries(a, content)
    ensures a.frame in lives ==> !Done(lives[a.frame])
    ensures Inv(history + [a], Take(lives, a.frame, a.count, a.patch), content)
  {
    var f := a.frame;
    if f in lives { StillOpen(history, a, lives[f], content); }
    var target, t := Target(lives, f, a.count), Take(lives, f, a.count, a.patch);
    LifeOkWith(history, a, target, content);
    forall k | k in t ensures LifeOk(k, t[k], history + [a], content) {
      if k != f { LifeOkLater(history, a, k, lives[k], content); }
    }
    TakeKeys(lives, f, a.count, a.patch);
  }

  lemma NewLast(packets: seq<Packet>)
    requires NoRepeats(packets) && packets != []
    ensures NoRepeats(packets[..|packets| - 1]) && New(packets[..|packets| - 1], packets[|packets| - 1])
  {
  }

  lemma {:induction false} RunKeepsInv(packets: seq<Packet>, content: int -> seq<seq<byte>>)
    requires NoRepeats(packets) && forall i :: 0 <= i < |packets| ==> Carries(packets[i], content)
    ensures Inv(packets, Run(packets), content)
  {
    if packets != [] {
      var n := |packets| - 1;
      NewLast(packets);
      RunKeepsInv(packets[..n], content);
      TakeKeepsInv(packets[..n], Run(packets[..n]), packets[n], content);
      assert packets == packets[..n] + [packets[n]];
    }
  }

  /** The entry of a frame in the table holds every packet of that frame that has arrived. */
  lemma {:induction false} EntryIsHistory(packets: seq<Packet>, content: int -> seq<seq<byte>>, f: int)
    requires NoRepeats(packets) && forall i :: 0 <= i < |packets| ==> Carries(packets[i], content)
    requires f in Run(packets)
    ensures Run(packets)[f] == Life(|content(f)|, Of(packets, f))
  {
    var n := |packets| - 1;
    var a, before := packets[n], packets[..n];
    NewLast(packets);
    RunKeepsInv(before, content);
    TakeKeepsInv(before, Run(before), a, content);
    TableIsLargestIds(before);
    if f in Run(before) {
      EntryIsHistory(before, content, f);
    } else {
      if f in FrameIds(before) { InTableSinceArrival(packets, f); }
    }
  }

  /**
   * Every run without repeated segments. A frame is in the table exactly when it has arrived
   * and fewer than eight larger ids have; its entry then holds all its packets; the counter
   * says complete exactly when all its segments have arrived, and then the buffer is the frame.
   */
  lemma EveryRun(packets: seq<Packet>, content: int -> seq<seq<byte>>, f: int)
    requires NoRepeats(packets) && forall i :: 0 <= i < |packets| ==> Carries(packets[i], content)
    ensures f in Run(packets) <==> f in FrameIds(packets) && |Above(FrameIds(packets), f)| < 8
    ensures f in Run(packets) ==>
              var l := Run(packets)[f];
              && l == Life(|content(f)|, Of(packets, f))
              && (Done(l) <==> HasAll(Segments(Of(packets, f)), |content(f)|))
              && (Done(l) ==> Filled(l) == Join(content(f)))
  {
    TableIsLargestIds(packets);
    if f in FrameIds(packets) { KeptIff(Run(packets).Keys, FrameIds(packets), MAX_ACTIVE_FRAMES, f); }
    if f in Run(packets) {
      RunKeepsInv(packets, content);
      EntryIsHistory(packets, content, f);
      CounterAgainstSet(Run(packets)[f]);
      if Done(Run(packets)[f]) { CompleteBuffer(Run(packets)[f], content(f)); }
    }
  }

  lemma {:induction false} RunOfOne(one: seq<Packet>)
    requires |one| == 1
    ensures var Packet(f, count, p) := one[0]; f in Run(one) && Run(one)[f] == Life(count, [p])
  {
    var f := one[0].frame;
    assert one[..0] == [] && Run([]).Keys + {f} == {f};
    KeptIsUnique(Kept({f}, MAX_ACTIVE_FRAMES), {f}, {f}, MAX_ACTIVE_FRAMES);
  }

  /** A repeat does complete a frame early: two copies of segment 0 of a two-segment frame. */
  lemma {:induction false} RepeatCompletesEarly(packets: seq<Packet>, f: int, p: Patch)
    requires |packets| == 2 && packets[0] == packets[1] == Packet(f, 2, p) && p.segment == 0
    ensures f in Run(packets) && Done(Run(packets)[f]) && 1 !in Segments(Run(packets)[f].patches)
  {
    RunOfOne(packets[..1]);
    assert Run(packets)[f] == Added(Life(2, [p]), p);
    SegmentsIff([p] + [p], 1);
  }

  ghost predicate Matches(frames: map<int, Entry>, lives: map<int, Life>) {
    && frames.Keys == lives.Keys
    && forall f {:trigger Has(lives, f)} :: Has(lives, f) ==> lives[f].count > 0 && frames[f] == EntryOf(lives[f])
  }

  ghost predicate Has(lives: map<int, Life>, f: int) { f in lives }

  lemma MatchesWithin(frames: map<int, Entry>, lives: map<int, Life>, some: map<int, Entry>)
    requires Matches(frames, lives) && Within(some, frames)
    ensures Matches(some, Restricted(lives, some.Keys))
  {
    var left := Restricted(lives, some.Keys);
    assert left.Keys == some.Keys;
    forall f | Has(left, f) ensures left[f].count > 0 && some[f] == EntryOf(left[f]) { assert Has(lives, f); }
  }

  lemma MatchesWith(frames: map<int, Entry>, lives: map<int, Life>, f: int, l: Life)
    requires Matches(frames, lives) && l.count > 0
    ensures Matches(frames[f := EntryOf(l)], lives[f := l])
  {
    forall k | Has(lives[f := l], k) && k != f ensures lives[k].count > 0 && frames[k] == EntryOf(lives[k]) {
      assert Has(lives, k);
    }
  }

  lemma EntryAfter(l: Life, p: Patch)
    requires !Done(l)
    ensures var n := |l.patches| + 1;
            EntryOf(Added(l, p)) == Entry(Written(Filled(l), p), if n == l.count then None else Some(l.count), n)
  {
    assert (l.patches + [p])[..|l.patches|] == l.patches;
  }

  // ----- the program ---------------------------------------------------------------------------------

  class Receiver {
    var frames: map<int, Entry>
    var complete: nat
    var frameReuse: nat
    var framePadOk: nat
    var badFrame: nat
    ghost var lives: map<int, Life>

    ghost predicate Valid()
      reads this
    {
      Matches(frames, lives)
    }

    constructor ()
      ensures Valid() && lives == map[] && complete == frameReuse == framePadOk == badFrame == 0
    {
      frames, lives := map[], map[];
      complete, frameReuse, framePadOk, badFrame := 0, 0, 0, 0;
    }

    /** One authenticated header and payload: counted as bad, or taken. */
    method OnPacket(h: PacketHeader, counter: nat, payload: seq<byte>)
      requires Valid() && NonNegative(h) && |payload| == PAYLOAD
      modifies this
      ensures Valid()
      ensures if h.magic == 0x4F56 && h.version == 0 && h.sessionId == 1 && h.streamId == 1 && h.keyId == 1
                 && h.payloadLength == 1320 && h.nonceCounter == counter && h.tagLength == 16
                 && h.segmentId < h.segmentCount
              then badFrame == old(badFrame)
                   && lives == Take(old(lives), h.frameId, h.segmentCount, Patch(h.segmentId, payload))
              else badFrame == old(badFrame) + 1 && lives == old(lives)
    {
      if h.magic != 0x4F56 || h.version != 0 || h.sessionId != 1 || h.streamId != 1 || h.keyId != 1 {
        badFrame := badFrame + 1;
        return;
      }
      if h.payloadLength != PAYLOAD || h.nonceCounter != counter || h.tagLength != 16 || h.segmentId >= h.segmentCount {
        badFrame := badFrame + 1;
        return;
      }
      OnSegment(h.frameId, h.segmentCount, Patch(h.segmentId, payload));
    }

    /** One authenticated segment whose number is below its count. */
    method OnSegment(f: int, count: nat, p: Patch)
      requires Valid() && p.segment < count
      modifies this`frames, this`lives, this`complete, this`frameReuse, this`framePadOk
      ensures Valid() && lives == Take(old(lives), f, count, p)
      ensures frameReuse == old(frameReuse) + if f in old(lives) && Done(old(lives)[f]) then 1 else 0
      ensures var done := Done(Added(Target(old(lives), f, count), p));
              var total := Target(old(lives), f, count).count;
              && complete == old(complete) + (if done then 1 else 0)
              && framePadOk == old(framePadOk) + (if done && total * PAYLOAD == GROWN_BYTES then 1 else 0)
    {
      ghost var target := Target(lives, f, count);
      var entry := Current(f, count);
      EntryAfter(target, p);
      var total := entry.count.value;
      entry := Entry(Written(entry.buffer, p), Some(total), entry.fill + 1);
      if entry.fill == total {
        if total * PAYLOAD - REAL_BYTES == 600 { framePadOk := framePadOk + 1; }
        complete := complete + 1;
        entry := entry.(count := None);
      }
      Store(f, entry, Added(target, p));
    }

    /** The update reaches the table only if the entry is still in it. */
    method Store(f: int, entry: Entry, ghost l: Life)
      requires Valid() && l.count > 0 && entry == EntryOf(l)
      modifies this`frames, this`lives
      ensures Valid() && lives == Put(old(lives), f, l)
    {
      MatchesWith(frames, lives, f, l);
      if f in frames { frames := frames[f := entry]; }
      lives := Put(lives, f, l);
    }

    /** The entry to write to: the one in use, or a new one. */
    method Current(f: int, count: nat) returns (entry: Entry)
      requires Valid() && count > 0
      modifies this`frames, this`lives, this`frameReuse
      ensures Valid() && lives == if InUse(old(lives), f) then old(lives) else Allocated(old(lives), f, count)
      ensures entry == EntryOf(Target(old(lives), f, count)) && entry.count == Some(Target(old(lives), f, count).count)
      ensures frameReuse == old(frameReuse) + if f in old(lives) && Done(old(lives)[f]) then 1 else 0
    {
      if f in frames {
        assert Has(lives, f);
        entry := frames[f];
        if entry.count.Some? { return; }
        frameReuse := frameReuse + 1;
      }
      entry := Entry(Zeros(count * PAYLOAD), Some(count), 0);
      Allocate(f, count, entry);
    }

    /** Enter the new entry, then delete the smallest ids of an overfull table. */
    method Allocate(f: int, count: nat, entry: Entry)
      requires Valid() && count > 0 && entry == EntryOf(Life(count, []))
      modifies this`frames, this`lives
      ensures Valid() && lives == Allocated(old(lives), f, count)
    {
      ghost var whole, ids := frames[f := entry], lives.Keys + {f};
      frames := frames[f := entry];
      MatchesWith(old(frames), lives, f, Life(count, []));
      assert frames.Keys == ids;
      while |frames| > MAX_ACTIVE_FRAMES
        invariant Within(frames, whole) && KeepsLargest(frames.Keys, ids, |frames|)
        invariant lives == old(lives) && (|frames| >= MAX_ACTIVE_FRAMES || frames == whole)
        decreases |frames|
      {
        var stale := Smallest(frames.Keys);
        SmallestRemoved(ids, frames.Keys, stale, |frames| - 1);
        var left := frames - {stale};
        WithinMinus(frames, whole, stale, left);
        frames := left;
      }
      KeptIsUnique(frames.Keys, Kept(ids, MAX_ACTIVE_FRAMES), ids, MAX_ACTIVE_FRAMES);
      MatchesWithin(whole, lives[f := Life(count, [])], frames);
      lives := Allocated(lives, f, count);
    }
  }
}
