/**
 * One frame among everything else that arrives: as long as fewer than `maxActive` other
 * frames are opened after it, the table holds exactly the segments that have arrived.
 */
module FrameRuns {
  import opened Bytes
  import opened Validation
  import opened Reassembly
  import opened ReassemblyTheorems

  ghost predicate Own(a: Arrival, key: Key) { KeyOf(a.header) == key }

  /** The arrival carries the segment of the frame that its header announces. */
  predicate Carries(a: Arrival, segments: seq<seq<byte>>) {
    && a.header.segmentCount == |segments| && 0 <= a.header.segmentId < |segments|
    && a.payload == segments[a.header.segmentId]
  }

  ghost predicate Matching(arrivals: seq<Arrival>, key: Key, segments: seq<seq<byte>>) {
    forall i :: 0 <= i < |arrivals| && Own(arrivals[i], key) ==> Carries(arrivals[i], segments)
  }

  ghost function IdOf(a: Arrival, key: Key): set<int> { if Own(a, key) then {a.header.segmentId} else {} }

  /** The segment ids of the frame among the arrivals. */
  ghost function Ids(arrivals: seq<Arrival>, key: Key): set<int>
    decreases |arrivals|
  {
    if arrivals == [] then {} else IdOf(arrivals[0], key) + Ids(arrivals[1..], key)
  }

  /** Whether an arrival opens another frame after this one, whose `got` segments are here. */
  ghost function OpensAfter(table: Table, a: Arrival, key: Key, got: set<int>): nat {
    if got != {} && !Own(a, key) && Find(table, KeyOf(a.header)) < 0 then 1 else 0
  }

  ghost function Younger(table: Table, maxActive: nat, arrivals: seq<Arrival>, key: Key, got: set<int>): nat
    decreases |arrivals|
  {
    if arrivals == [] then 0
    else
      OpensAfter(table, arrivals[0], key, got)
      + Younger(Next(table, maxActive, arrivals[0]), maxActive, arrivals[1..], key, got + IdOf(arrivals[0], key))
  }

  ghost function Holding(segments: seq<seq<byte>>, got: set<int>): map<int, seq<byte>> {
    map i | i in got && 0 <= i < |segments| :: segments[i]
  }

  /** The table holds the frame's segments `got` and no other of it. */
  ghost predicate Held(table: Table, key: Key, segments: seq<seq<byte>>, got: set<int>, younger: int) {
    if got == {} then Find(table, key) < 0
    else Pending(table, key, FrameState(|segments|, Holding(segments, got)), younger)
  }

  lemma AbsentStays(table: Table, maxActive: nat, a: Arrival, key: Key)
    requires TableInv(table, maxActive) && Find(table, key) < 0 && !Own(a, key)
    ensures Find(Next(table, maxActive, a), key) < 0
  {
    PushCases(table, maxActive, a);
    var t := Next(table, maxActive, a);
    forall j | 0 <= j < |t| ensures t[j].key != key {
      assert t[j].key == KeyOf(a.header) || t[j] in table;
    }
  }

  lemma KeepHolds(segments: seq<seq<byte>>, got: set<int>, a: Arrival)
    requires Carries(a, segments)
    ensures Keep(FrameState(|segments|, Holding(segments, got)), a.header.segmentId, a.payload)
            == FrameState(|segments|, Holding(segments, got + {a.header.segmentId}))
  {
    var id := a.header.segmentId;
    var m, n := Holding(segments, got), Holding(segments, got + {id});
    assert id in m ==> m == n;
    assert id !in m ==> m[id := a.payload] == n;
  }

  lemma HeldStep(table: Table, maxActive: nat, a: Arrival, key: Key, segments: seq<seq<byte>>, got: set<int>,
                 younger: nat)
    requires TableInv(table, maxActive) && Held(table, key, segments, got, younger)
    requires Own(a, key) ==> Carries(a, segments)
    requires !Complete(Holding(segments, got + IdOf(a, key)).Keys, |segments|)
    requires younger + OpensAfter(table, a, key, got) < maxActive
    ensures TableInv(Next(table, maxActive, a), maxActive)
    ensures Held(Next(table, maxActive, a), key, segments, got + IdOf(a, key), younger + OpensAfter(table, a, key, got))
    ensures Own(a, key) ==> Output(table, maxActive, a) == None
  {
    PushKeepsInv(table, maxActive, a);
    if !Own(a, key) {
      assert got + IdOf(a, key) == got;
      if got == {} { AbsentStays(table, maxActive, a, key); }
      else { PendingAfterOther(table, maxActive, a, key, FrameState(|segments|, Holding(segments, got)), younger); }
    } else {
      KeepHolds(segments, got, a);
      assert got + IdOf(a, key) != {};
      if got == {} {
        assert Holding(segments, got) == map[];
        PendingAfterOpen(table, maxActive, a);
      } else {
        PendingAfterOwn(table, maxActive, a, key, FrameState(|segments|, Holding(segments, got)), younger);
      }
    }
  }

  lemma {:induction false} HeldRun(table: Table, maxActive: nat, arrivals: seq<Arrival>, key: Key,
                                   segments: seq<seq<byte>>, got: set<int>, younger: nat)
    requires TableInv(table, maxActive) && Held(table, key, segments, got, younger) && younger < maxActive
    requires Matching(arrivals, key, segments)
    requires !Complete(Holding(segments, got + Ids(arrivals, key)).Keys, |segments|)
    requires younger + Younger(table, maxActive, arrivals, key, got) < maxActive
    ensures TableInv(RunTable(table, maxActive, arrivals), maxActive)
    ensures Held(RunTable(table, maxActive, arrivals), key, segments, got + Ids(arrivals, key), maxActive - 1)
    decreases |arrivals|
  {
    if arrivals == [] {
      assert got + Ids(arrivals, key) == got;
    } else {
      var a, rest := arrivals[0], arrivals[1..];
      var more := got + IdOf(a, key);
      assert more + Ids(rest, key) == got + Ids(arrivals, key);
      StillIncomplete(segments, more, Ids(rest, key));
      HeldStep(table, maxActive, a, key, segments, got, younger);
      HeldRun(Next(table, maxActive, a), maxActive, rest, key, segments, more,
              younger + OpensAfter(table, a, key, got));
    }
  }

  lemma StillIncomplete(segments: seq<seq<byte>>, got: set<int>, later: set<int>)
    requires !Complete(Holding(segments, got + later).Keys, |segments|)
    ensures !Complete(Holding(segments, got).Keys, |segments|)
  {
    var m, n := Holding(segments, got), Holding(segments, got + later);
    assert m.Keys <= n.Keys;
    assert forall i :: i in n.Keys ==> 0 <= i < |segments|;
  }

  lemma JoinedIsJoin(segments: seq<seq<byte>>, got: set<int>)
    requires Complete(Holding(segments, got).Keys, |segments|)
    ensures Joined(FrameState(|segments|, Holding(segments, got))) == Join(segments)
  {
    assert InOrder(FrameState(|segments|, Holding(segments, got))) == segments;
  }

  /** The next segment delivers the frame if it was the last missing one, and is kept otherwise. */
  lemma OwnArrival(table: Table, maxActive: nat, a: Arrival, key: Key, segments: seq<seq<byte>>, got: set<int>)
    requires TableInv(table, maxActive) && Held(table, key, segments, got, maxActive - 1) && maxActive > 0
    requires Own(a, key) && Carries(a, segments)
    ensures Output(table, maxActive, a) ==
            if Complete(Holding(segments, got + {a.header.segmentId}).Keys, |segments|) then Some(Join(segments))
            else None
  {
    KeepHolds(segments, got, a);
    if Complete(Holding(segments, got + {a.header.segmentId}).Keys, |segments|) {
      JoinedIsJoin(segments, got + {a.header.segmentId});
    }
    if got == {} {
      assert Holding(segments, got) == map[];
      PendingAfterOpen(table, maxActive, a);
    } else {
      PendingAfterOwn(table, maxActive, a, key, FrameState(|segments|, Holding(segments, got)), maxActive - 1);
    }
  }
}
