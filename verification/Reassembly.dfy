/**
 * Frame reassembly. The table is an insertion-ordered dictionary: a sequence of entries with
 * distinct keys, oldest first; storing under an existing key keeps its place.
 */
module Reassembly {
  import opened Bytes
  import opened PacketSchema
  import opened Validation

  datatype Key = Key(sessionId: int, streamId: int, frameId: int)
  datatype FrameState = FrameState(segmentCount: int, segments: map<int, seq<byte>>)
  datatype Entry = Entry(key: Key, state: FrameState)
  type Table = seq<Entry>

  function KeyOf(h: PacketHeader): Key { Key(h.sessionId, h.streamId, h.frameId) }

  /** Position of a key, or -1. */
  function Find(table: Table, key: Key): (r: int)
    ensures -1 <= r < |table|
    ensures r >= 0 ==> table[r].key == key
    ensures r < 0 ==> forall i :: 0 <= i < |table| ==> table[i].key != key
  {
    if table == [] then -1
    else if table[0].key == key then 0
    else var r := Find(table[1..], key); if r < 0 then -1 else r + 1
  }

  // ----- what one push does to the table -----------------------------------------------------

  /** Get or create the state; a changed segment count starts the frame over in place. */
  function Open(table: Table, key: Key, count: int): Table {
    var i := Find(table, key);
    var blank := Entry(key, FrameState(count, map[]));
    if i < 0 then table + [blank]
    else if table[i].state.segmentCount != count then table[i := blank]
    else table
  }

  /** Keep the first payload that arrives for a segment. */
  function Keep(state: FrameState, id: int, payload: seq<byte>): FrameState {
    if id in state.segments then state else state.(segments := state.segments[id := payload])
  }

  function Evict(table: Table, maxActive: nat): Table {
    if |table| > maxActive then table[|table| - maxActive..] else table
  }

  /** The segments of a complete frame in order. */
  function InOrder(state: FrameState): (r: seq<seq<byte>>)
    requires state.segmentCount >= 0 && forall i :: 0 <= i < state.segmentCount ==> i in state.segments
    ensures |r| == state.segmentCount && forall i :: 0 <= i < |r| ==> r[i] == state.segments[i]
  {
    seq(state.segmentCount, i requires 0 <= i < state.segmentCount => state.segments[i])
  }

  function Joined(state: FrameState): seq<byte>
    requires forall i :: 0 <= i < state.segmentCount ==> i in state.segments
  {
    if state.segmentCount <= 0 then [] else Join(InOrder(state))
  }

  function Without(table: Table, i: nat): Table
    requires i < |table|
  {
    table[..i] + table[i + 1..]
  }

  ghost function Pushed(table: Table, maxActive: nat, h: PacketHeader, payload: seq<byte>): (Table, Option<seq<byte>>) {
    var t := Open(table, KeyOf(h), h.segmentCount);
    var i := Find(t, KeyOf(h));
    if i < 0 then (t, None)
    else
      var state := Keep(t[i].state, h.segmentId, payload);
      if Complete(state.segments.Keys, state.segmentCount) then (Evict(Without(t, i), maxActive), Some(Joined(state)))
      else (Evict(t[i := Entry(KeyOf(h), state)], maxActive), None)
  }

  // ----- the class ---------------------------------------------------------------------------

  class FrameReassembler {
    const maxActiveFrames: nat
    var frames: Table

    constructor (maxActiveFrames: nat)
      ensures this.maxActiveFrames == maxActiveFrames && frames == []
    {
      this.maxActiveFrames := maxActiveFrames;
      frames := [];
    }

    method Push(h: PacketHeader, payload: seq<byte>) returns (out: Option<seq<byte>>)
      modifies this
      ensures (frames, out) == Pushed(old(frames), maxActiveFrames, h, payload)
    {
      var key := KeyOf(h);
      var i := Find(frames, key);
      if i < 0 {
        FindAppended(frames, Entry(key, FrameState(h.segmentCount, map[])));
        i := |frames|;
        frames := frames + [Entry(key, FrameState(h.segmentCount, map[]))];
      } else if frames[i].state.segmentCount != h.segmentCount {
        FindUpdated(frames, i, FrameState(h.segmentCount, map[]));
        frames := frames[i := Entry(key, FrameState(h.segmentCount, map[]))];
      }
      var state := frames[i].state;
      if h.segmentId !in state.segments {
        state := state.(segments := state.segments[h.segmentId := payload]);
        frames := frames[i := Entry(key, state)];
      } else {
        assert frames == frames[i := Entry(key, state)];
      }
      var complete := IsFrameComplete(state.segments.Keys, state.segmentCount);
      if complete {
        out := Some(Joined(state));
        frames := Without(frames, i);
      } else {
        out := None;
      }
      EvictIfNeeded();
    }

    method EvictIfNeeded()
      modifies this
      ensures frames == Evict(old(frames), maxActiveFrames)
    {
      while |frames| > maxActiveFrames
        invariant frames == old(frames) ||
                  (maxActiveFrames <= |frames| < |old(frames)| && frames == old(frames)[|old(frames)| - |frames|..])
      {
        frames := frames[1..];
      }
    }
  }

  // ----- searching an updated table ----------------------------------------------------------

  lemma {:induction false} FindAppended(table: Table, e: Entry)
    requires Find(table, e.key) < 0
    ensures Find(table + [e], e.key) == |table|
  {
    if table != [] {
      assert table[0].key != e.key;
      assert (table + [e])[1..] == table[1..] + [e];
      assert forall i :: 0 <= i < |table| - 1 ==> table[1..][i].key != e.key;
      FindAppended(table[1..], e);
    }
  }

  lemma {:induction false} FindUpdated(table: Table, i: nat, state: FrameState)
    requires i < |table|
    ensures forall key :: Find(table[i := Entry(table[i].key, state)], key) == Find(table, key)
  {
    var t := table[i := Entry(table[i].key, state)];
    if i == 0 {
      assert t[1..] == table[1..];
    } else {
      FindUpdated(table[1..], i - 1, state);
      assert t[1..] == table[1..][i - 1 := Entry(table[1..][i - 1].key, state)];
    }
  }
}
