/** The board's sender: cut a frame into segments, number, encrypt and pack them. */
module FrameSender {
  import opened Bytes
  import opened PacketSchema
  import opened Validation

  /** Authenticated encryption, as functions of nonce, additional data and text. */
  datatype Cipher = Cipher(
    seal: (seq<byte>, seq<byte>, seq<byte>) -> (seq<byte>, seq<byte>),
    open: (seq<byte>, seq<byte>, seq<byte>, seq<byte>) -> Option<seq<byte>>)

  /** Opening undoes sealing; text keeps its length and the tag has 16 octets. */
  ghost predicate Sound(c: Cipher) {
    forall nonce: seq<byte>, aad: seq<byte>, text: seq<byte> ::
      var sealed := c.seal(nonce, aad, text);
      |sealed.0| == |text| && |sealed.1| == 16 && c.open(nonce, aad, sealed.0, sealed.1) == Some(text)
  }

  // ----- segments -----------------------------------------------------------------------------

  function Segments(frame: seq<byte>, size: nat): (r: seq<seq<byte>>)
    requires size > 0
    ensures forall i :: 0 <= i < |r| ==> 0 < |r[i]| <= size
    ensures forall i :: 0 <= i < |r| - 1 ==> |r[i]| == size
    ensures frame == [] <==> r == []
    decreases |frame|
  {
    if frame == [] then [] else if |frame| <= size then [frame] else [frame[..size]] + Segments(frame[size..], size)
  }

  lemma {:induction false} SegmentsJoin(frame: seq<byte>, size: nat)
    requires size > 0
    ensures Join(Segments(frame, size)) == frame
    decreases |frame|
  {
    if |frame| > size {
      SegmentsJoin(frame[size..], size);
      assert Segments(frame, size)[1..] == Segments(frame[size..], size);
      assert frame == frame[..size] + frame[size..];
    } else if frame != [] {
      assert [frame][1..] == [];
    }
  }

  /** What is left to cut from position `idx` on. */
  function Left(frame: seq<byte>, idx: nat, size: nat): seq<seq<byte>>
    requires size > 0
  {
    if idx >= |frame| then [] else Segments(frame[idx..], size)
  }

  lemma LeftStep(frame: seq<byte>, idx: nat, size: nat)
    requires size > 0 && idx < |frame|
    ensures Left(frame, idx, size)
            == [frame[idx..if idx + size <= |frame| then idx + size else |frame|]] + Left(frame, idx + size, size)
  {
    var rest := frame[idx..];
    if |rest| > size {
      assert rest[..size] == frame[idx..idx + size] && rest[size..] == frame[idx + size..];
    } else {
      assert rest == frame[idx..if idx + size <= |frame| then idx + size else |frame|];
    }
  }

  /** `_segment`: the slices at 0, size, 2 * size and so on. */
  method SegmentFrame(frame: seq<byte>, size: nat) returns (r: seq<seq<byte>>)
    requires size > 0
    ensures r == Segments(frame, size)
    ensures Join(r) == frame
  {
    r := [];
    var idx := 0;
    assert frame[0..] == frame;
    while idx < |frame|
      invariant r + Left(frame, idx, size) == Segments(frame, size)
      decreases |frame| - idx
    {
      LeftStep(frame, idx, size);
      r := r + [frame[idx..if idx + size <= |frame| then idx + size else |frame|]];
      idx := idx + size;
    }
    SegmentsJoin(frame, size);
  }

  // ----- numbering ----------------------------------------------------------------------------

  /** `NonceTracker`: hands out initial, initial + 1, ..., max, 1, 2, ... */
  class NonceTracker {
    var current: int
    const maxCounter: int
    var wrapCount: nat

    constructor (initialCounter: int, maxCounter: int)
      ensures current == initialCounter - 1 && this.maxCounter == maxCounter && wrapCount == 0
    {
      current, wrapCount := initialCounter - 1, 0;
      this.maxCounter := maxCounter;
    }

    method Next() returns (n: int)
      modifies this
      ensures n == current
      ensures old(current) < maxCounter ==> n == old(current) + 1 && wrapCount == old(wrapCount)
      ensures old(current) >= maxCounter ==> n == 1 && wrapCount == old(wrapCount) + 1
    {
      current := current + 1;
      if current > maxCounter {
        wrapCount := wrapCount + 1;
        current := 1;
      }
      n := current;
    }
  }

  /** The counter after `k` more calls. */
  function CounterAfter(current: int, maxCounter: int, k: nat): int {
    if k == 0 then current
    else var n := CounterAfter(current, maxCounter, k - 1); if n < maxCounter then n + 1 else 1
  }

  /** Until it wraps the tracker counts up by one, so no nonce repeats. */
  lemma {:induction false} CounterIsConsecutive(current: int, maxCounter: int, k: nat)
    requires current + k <= maxCounter
    ensures CounterAfter(current, maxCounter, k) == current + k
  {
    if k > 0 { CounterIsConsecutive(current, maxCounter, k - 1); }
  }

  /** Within one round of the counter, where it stands after `d` more calls. */
  lemma {:induction false} CounterMoves(current: int, maxCounter: int, i: nat, d: nat)
    requires 0 <= current <= maxCounter && 1 <= i && d <= maxCounter && maxCounter > 0
    ensures 1 <= CounterAfter(current, maxCounter, i) <= maxCounter
    ensures var c := CounterAfter(current, maxCounter, i);
            CounterAfter(current, maxCounter, i + d) == if c + d <= maxCounter then c + d else c + d - maxCounter
    decreases i + d
  {
    if d > 0 {
      CounterMoves(current, maxCounter, i, d - 1);
    } else if i > 1 {
      CounterMoves(current, maxCounter, i - 1, 0);
    }
  }

  /** The counters handed out by the first `k` calls are pairwise distinct. */
  ghost predicate Distinct(current: int, maxCounter: int, k: nat) {
    forall i, j :: 1 <= i < j <= k ==> CounterAfter(current, maxCounter, i) != CounterAfter(current, maxCounter, j)
  }

  /** No nonce is handed out twice exactly until the tracker has handed out `maxCounter` of them. */
  lemma NoncesDistinctIff(current: int, maxCounter: int, k: nat)
    requires 0 <= current <= maxCounter && maxCounter > 0
    ensures Distinct(current, maxCounter, k) <==> k <= maxCounter
  {
    if k <= maxCounter {
      forall i, j | 1 <= i < j <= k
        ensures CounterAfter(current, maxCounter, i) != CounterAfter(current, maxCounter, j)
      {
        CounterMoves(current, maxCounter, i, j - i);
      }
    } else {
      CounterMoves(current, maxCounter, 1, maxCounter);
      assert CounterAfter(current, maxCounter, 1) == CounterAfter(current, maxCounter, 1 + maxCounter);
    }
  }

  /** `b"\x00\x00\x00\x01" + counter.to_bytes(8, "big")` */
  function Nonce(counter: nat): (r: seq<byte>)
    ensures |r| == 12
  {
    [0, 0, 0, 1] + ToBE(counter, 8)
  }

  /** The nonce is the domain prefix 1 and the 64-bit counter, so different counters give different nonces. */
  lemma NonceOctets(n: nat)
    requires n < 0x1_0000_0000_0000_0000
    ensures Nonce(n)[..4] == [0, 0, 0, 1] && FromBE(Nonce(n)[4..]) == n
  {
    Pow256Of8And16();
    EncodeDecode(n, 8);
    assert Nonce(n)[4..] == ToBE(n, 8);
  }

  /** The nonces handed out by the first `k` calls, as octets. */
  ghost predicate NonceOctetsDistinct(current: int, maxCounter: int, k: nat)
    requires 0 <= current && 0 <= maxCounter
  {
    forall i, j :: 1 <= i < j <= k ==> NonceAfter(current, maxCounter, i) != NonceAfter(current, maxCounter, j)
  }

  ghost function NonceAfter(current: nat, maxCounter: nat, i: nat): seq<byte> {
    CounterIsNatural(current, maxCounter, i);
    Nonce(CounterAfter(current, maxCounter, i))
  }

  /** No nonce is sealed under twice exactly until the tracker has handed out `maxCounter` of them. */
  lemma NonceOctetsDistinctIff(current: int, maxCounter: int, k: nat)
    requires 0 <= current <= maxCounter && 0 < maxCounter < 0x1_0000_0000_0000_0000
    ensures NonceOctetsDistinct(current, maxCounter, k) <==> k <= maxCounter
  {
    NoncesDistinctIff(current, maxCounter, k);
    if k <= maxCounter {
      forall i, j | 1 <= i < j <= k
        ensures NonceAfter(current, maxCounter, i) != NonceAfter(current, maxCounter, j)
      {
        CounterMoves(current, maxCounter, i, 0);
        CounterMoves(current, maxCounter, j, 0);
        NonceOctets(CounterAfter(current, maxCounter, i));
        NonceOctets(CounterAfter(current, maxCounter, j));
      }
    } else {
      CounterMoves(current, maxCounter, 1, maxCounter);
      assert NonceAfter(current, maxCounter, 1) == NonceAfter(current, maxCounter, 1 + maxCounter);
    }
  }

  // ----- datagrams ----------------------------------------------------------------------------

  datatype Stream = Stream(sessionId: nat, streamId: nat, frameId: nat, keyId: nat)

  function HeaderFor(s: Stream, id: nat, count: nat, length: nat, nonce: nat, timestamp: nat): PacketHeader {
    PacketHeader(MAGIC, VERSION, 0, s.sessionId, s.streamId, s.frameId, id, count, timestamp, 1, s.keyId,
                 length, nonce, 16, 0)
  }

  /** One datagram; `None` where packing the header or the length checks raise. */
  function Datagram(c: Cipher, s: Stream, id: nat, count: nat, segment: seq<byte>, nonce: nat, timestamp: nat)
    : Option<seq<byte>>
  {
    var h := HeaderFor(s, id, count, |segment|, nonce, timestamp);
    match PackHeader(h)
    case None => None
    case Some(aad) =>
      var (ct, tag) := c.seal(Nonce(nonce), aad, segment);
      BuildDatagram(h, ct, tag)
  }

  /** The datagram of segment `i` when the tracker stood at `start` before the frame. */
  function Planned(c: Cipher, s: Stream, segments: seq<seq<byte>>, start: nat, maxCounter: nat, clock: seq<nat>, i: nat)
    : Option<seq<byte>>
    requires i < |segments| && i < |clock|
  {
    CounterIsNatural(start, maxCounter, i + 1);
    Datagram(c, s, i, |segments|, segments[i], CounterAfter(start, maxCounter, i + 1), clock[i])
  }

  /** The datagrams of the first `n` segments. */
  function PlanUpTo(c: Cipher, s: Stream, segments: seq<seq<byte>>, start: nat, maxCounter: nat, clock: seq<nat>,
                    n: nat)
    : (plan: seq<Option<seq<byte>>>)
    requires n <= |segments| <= |clock|
    ensures |plan| == n
  {
    if n == 0 then []
    else
      PlanUpTo(c, s, segments, start, maxCounter, clock, n - 1)
      + [Planned(c, s, segments, start, maxCounter, clock, n - 1)]
  }

  function Plan(c: Cipher, s: Stream, segments: seq<seq<byte>>, start: nat, maxCounter: nat, clock: seq<nat>)
    : (plan: seq<Option<seq<byte>>>)
    requires |clock| >= |segments|
    ensures |plan| == |segments|
  {
    PlanUpTo(c, s, segments, start, maxCounter, clock, |segments|)
  }

  lemma {:induction false} PlanAt(c: Cipher, s: Stream, segments: seq<seq<byte>>, start: nat, maxCounter: nat,
                                  clock: seq<nat>, n: nat, i: nat)
    requires i < n <= |segments| <= |clock|
    ensures PlanUpTo(c, s, segments, start, maxCounter, clock, n)[i]
            == Planned(c, s, segments, start, maxCounter, clock, i)
  {
    if i < n - 1 { PlanAt(c, s, segments, start, maxCounter, clock, n - 1, i); }
  }

  lemma {:induction false} CounterIsNatural(start: nat, maxCounter: nat, k: nat)
    ensures CounterAfter(start, maxCounter, k) >= 0
  {
    if k > 0 { CounterIsNatural(start, maxCounter, k - 1); }
  }

  /** The send loop for one frame: segment `i` goes out under the `i`-th next counter. */
  method SendFrame(c: Cipher, tracker: NonceTracker, s: Stream, frame: seq<byte>, size: nat, clock: seq<nat>)
    returns (ok: bool, sent: seq<seq<byte>>)
    requires size > 0 && |clock| >= |Segments(frame, size)|
    requires tracker.current >= 0 && tracker.maxCounter >= 0
    modifies tracker
    ensures |sent| <= |Segments(frame, size)| && (ok <==> |sent| == |Segments(frame, size)|)
    ensures tracker.current == CounterAfter(old(tracker.current), tracker.maxCounter, |sent| + if ok then 0 else 1)
    ensures var plan := Plan(c, s, Segments(frame, size), old(tracker.current), tracker.maxCounter, clock);
            && (forall i :: 0 <= i < |sent| ==> plan[i] == Some(sent[i]))
            && (!ok ==> plan[|sent|] == None)
  {
    var segments := SegmentFrame(frame, size);
    ghost var plan := Plan(c, s, segments, tracker.current, tracker.maxCounter, clock);
    ok, sent := SendSegments(c, tracker, s, segments, clock, plan);
  }

  method SendSegments(c: Cipher, tracker: NonceTracker, s: Stream, segments: seq<seq<byte>>, clock: seq<nat>,
                      ghost plan: seq<Option<seq<byte>>>)
    returns (ok: bool, sent: seq<seq<byte>>)
    requires |clock| >= |segments| && tracker.current >= 0 && tracker.maxCounter >= 0
    requires plan == Plan(c, s, segments, tracker.current, tracker.maxCounter, clock)
    modifies tracker
    ensures |sent| <= |segments| && (ok <==> |sent| == |segments|)
    ensures tracker.current == CounterAfter(old(tracker.current), tracker.maxCounter, |sent| + if ok then 0 else 1)
    ensures (forall i :: 0 <= i < |sent| ==> plan[i] == Some(sent[i])) && (!ok ==> plan[|sent|] == None)
  {
    ghost var start := tracker.current;
    sent := [];
    for id := 0 to |segments|
      invariant |sent| == id && tracker.current >= 0
      invariant tracker.current == CounterAfter(start, tracker.maxCounter, id)
      invariant forall i :: 0 <= i < id ==> plan[i] == Some(sent[i])
    {
      var datagram := NextDatagram(c, tracker, s, segments, clock, id, start, plan);
      if datagram.None? { return false, sent; }
      sent := sent + [datagram.value];
    }
    return true, sent;
  }

  /** The body of the loop: take a counter, pack, encrypt and build. */
  method NextDatagram(c: Cipher, tracker: NonceTracker, s: Stream, segments: seq<seq<byte>>, clock: seq<nat>, id: nat,
                      ghost start: nat, ghost plan: seq<Option<seq<byte>>>)
    returns (datagram: Option<seq<byte>>)
    requires id < |segments| <= |clock| && tracker.maxCounter >= 0
    requires tracker.current == CounterAfter(start, tracker.maxCounter, id)
    requires plan == Plan(c, s, segments, start, tracker.maxCounter, clock)
    modifies tracker
    ensures tracker.current == CounterAfter(start, tracker.maxCounter, id + 1) >= 0
    ensures datagram == plan[id]
  {
    CounterIsNatural(start, tracker.maxCounter, id + 1);
    PlanAt(c, s, segments, start, tracker.maxCounter, clock, |segments|, id);
    var counter := tracker.Next();
    datagram := Datagram(c, s, id, |segments|, segments[id], counter, clock[id]);
  }

  /** The values `struct.pack` accepts in the fields that vary. */
  predicate Packable(s: Stream, id: nat, count: nat, length: nat, nonce: nat, timestamp: nat) {
    && s.sessionId < 0x1_0000_0000 && s.streamId < 0x1_0000 && s.frameId < 0x1_0000_0000 && s.keyId < 256
    && id < 0x1_0000 && count < 0x1_0000 && length < 0x1_0000
    && nonce < 0x1_0000_0000_0000_0000 && timestamp < 0x1_0000_0000_0000_0000
  }

  /** The sender's header packs exactly then. */
  lemma PacksIffPackable(s: Stream, id: nat, count: nat, length: nat, nonce: nat, timestamp: nat)
    ensures PackHeader(HeaderFor(s, id, count, length, nonce, timestamp)).Some?
            <==> Packable(s, id, count, length, nonce, timestamp)
  {
    if Packable(s, id, count, length, nonce, timestamp) { PackableFits(s, id, count, length, nonce, timestamp); }
    if InRange(HeaderFor(s, id, count, length, nonce, timestamp)) {
      FitsIsPackable(s, id, count, length, nonce, timestamp);
    }
  }

  lemma FitsIsPackable(s: Stream, id: nat, count: nat, length: nat, nonce: nat, timestamp: nat)
    requires InRange(HeaderFor(s, id, count, length, nonce, timestamp))
    ensures Packable(s, id, count, length, nonce, timestamp)
  {
    Pow256Of8And16();
    assert Pow256(1) == 256 && Pow256(2) == 0x1_0000 && Pow256(4) == 0x1_0000_0000;
    var f, w := Fields(HeaderFor(s, id, count, length, nonce, timestamp)), Widths();
    assert f[3] < Pow256(w[3]) && f[4] < Pow256(w[4]) && f[5] < Pow256(w[5]) && f[6] < Pow256(w[6]);
    assert f[7] < Pow256(w[7]) && f[8] < Pow256(w[8]) && f[10] < Pow256(w[10]) && f[11] < Pow256(w[11]);
    assert f[12] < Pow256(w[12]);
  }

  lemma PackableFits(s: Stream, id: nat, count: nat, length: nat, nonce: nat, timestamp: nat)
    requires Packable(s, id, count, length, nonce, timestamp)
    ensures InRange(HeaderFor(s, id, count, length, nonce, timestamp))
  {
    Pow256Of8And16();
    assert Pow256(1) == 256 && Pow256(2) == 0x1_0000 && Pow256(4) == 0x1_0000_0000;
    var h := HeaderFor(s, id, count, length, nonce, timestamp);
    forall i | 0 <= i < FIELD_COUNT ensures 0 <= Fields(h)[i] < Pow256(Widths()[i]) {
      assert Fields(h)[i] == FieldAt(h, i) && Widths()[i] == WidthAt(i);
    }
  }
}
