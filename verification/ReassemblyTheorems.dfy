/** What the reassembler guarantees over whole runs of arriving segments. */
module ReassemblyTheorems {
  import opened Bytes
  import opened PacketSchema
  import opened Validation
  import opened Reassembly

  datatype Arrival = Arrival(header: PacketHeader, payload: seq<byte>)

  ghost predicate Distinct(table: Table) {
    forall i, j :: 0 <= i < j < |table| ==> table[i].key != table[j].key
  }

  ghost predicate NoneComplete(table: Table) {
    forall i :: 0 <= i < |table| ==> !Complete(table[i].state.segments.Keys, table[i].state.segmentCount)
  }

  /** At most `maxActive` frames, one entry per key, none of them complete. */
  ghost predicate TableInv(table: Table, maxActive: nat) {
    |table| <= maxActive && Distinct(table) && NoneComplete(table)
  }

  lemma {:induction false} FindIs(table: Table, key: Key, i: nat)
    requires Distinct(table) && i < |table| && table[i].key == key
    ensures Find(table, key) == i
  {
    assert Find(table, key) >= 0;
  }

  /** The frame after this arrival, before it is delivered or stored. */
  ghost function Updated(table: Table, a: Arrival): FrameState {
    var i := Find(table, KeyOf(a.header));
    var base := if i >= 0 && table[i].state.segmentCount == a.header.segmentCount then table[i].state
               else FrameState(a.header.segmentCount, map[]);
    Keep(base, a.header.segmentId, a.payload)
  }

  ghost function Next(table: Table, maxActive: nat, a: Arrival): Table {
    Pushed(table, maxActive, a.header, a.payload).0
  }

  ghost function Output(table: Table, maxActive: nat, a: Arrival): Option<seq<byte>> {
    Pushed(table, maxActive, a.header, a.payload).1
  }

  /** Opening a frame appends an entry or keeps its place; either way it can be replaced or removed. */
  lemma OpenCases(table: Table, key: Key, count: int, e: Entry)
    ensures var i, t := Find(table, key), Open(table, key, count);
            var p := Find(t, key);
            && p == (if i < 0 then |table| else i)
            && Without(t, p) == (if i < 0 then table else Without(table, i))
            && t[p := e] == (if i < 0 then table + [e] else table[i := e])
            && t[p].state == (if i >= 0 && table[i].state.segmentCount == count then table[i].state
                              else FrameState(count, map[]))
  {
    var i, blank := Find(table, key), FrameState(count, map[]);
    if i < 0 {
      FindAppended(table, Entry(key, blank));
      LastReplaced(table, Entry(key, blank), e);
    } else if table[i].state.segmentCount != count {
      FindUpdated(table, i, blank);
      TwiceReplaced(table, i, Entry(key, blank), e);
    }
  }

  lemma LastReplaced(table: Table, x: Entry, e: Entry)
    ensures (table + [x])[|table| := e] == table + [e] && Without(table + [x], |table|) == table
  {
  }

  lemma TwiceReplaced(table: Table, i: nat, x: Entry, e: Entry)
    requires i < |table|
    ensures table[i := x][i := e] == table[i := e] && Without(table[i := x], i) == Without(table, i)
  {
  }

  /** One push, case by case: where the entry ends up, what is returned, who is evicted. */
  lemma PushCases(table: Table, maxActive: nat, a: Arrival)
    requires TableInv(table, maxActive)
    ensures var key, s, i := KeyOf(a.header), Updated(table, a), Find(table, KeyOf(a.header));
            var done := Complete(s.segments.Keys, s.segmentCount);
            && Output(table, maxActive, a) == (if done then Some(Joined(s)) else None)
            && Next(table, maxActive, a) ==
               if i >= 0 then (if done then Without(table, i) else table[i := Entry(key, s)])
               else if done then table
               else Evict(table + [Entry(key, s)], maxActive)
  {
    OpenCases(table, KeyOf(a.header), a.header.segmentCount, Entry(KeyOf(a.header), Updated(table, a)));
  }

  lemma PushKeepsInv(table: Table, maxActive: nat, a: Arrival)
    requires TableInv(table, maxActive)
    ensures TableInv(Next(table, maxActive, a), maxActive)
  {
    PushCases(table, maxActive, a);
    var e, i := Entry(KeyOf(a.header), Updated(table, a)), Find(table, KeyOf(a.header));
    if i >= 0 {
      RemovedKeepsInv(table, maxActive, i);
      if !Complete(e.state.segments.Keys, e.state.segmentCount) { ReplacedKeepsInv(table, maxActive, i, e); }
    } else if !Complete(e.state.segments.Keys, e.state.segmentCount) {
      AppendedKeepsInv(table, maxActive, e);
    }
  }

  lemma RemovedKeepsInv(table: Table, maxActive: nat, i: nat)
    requires TableInv(table, maxActive) && i < |table|
    ensures TableInv(Without(table, i), maxActive)
  {
  }

  lemma ReplacedKeepsInv(table: Table, maxActive: nat, i: nat, e: Entry)
    requires TableInv(table, maxActive) && i < |table| && table[i].key == e.key
    requires !Complete(e.state.segments.Keys, e.state.segmentCount)
    ensures TableInv(table[i := e], maxActive)
  {
  }

  lemma AppendedKeepsInv(table: Table, maxActive: nat, e: Entry)
    requires TableInv(table, maxActive) && Find(table, e.key) < 0
    requires !Complete(e.state.segments.Keys, e.state.segmentCount)
    ensures TableInv(Evict(table + [e], maxActive), maxActive)
  {
    var t := table + [e];
    assert Distinct(t) && NoneComplete(t);
  }

  /** Where the entry at position `i` of another key stands after a push; -1 if it was evicted. */
  ghost function Moved(table: Table, maxActive: nat, a: Arrival, i: nat): int {
    var p, delivered := Find(table, KeyOf(a.header)), Output(table, maxActive, a).Some?;
    if p >= 0 then (if delivered && p < i then i - 1 else i)
    else if delivered || |table| < maxActive then i
    else i - 1
  }

  lemma FirstIsGone(table: Table, e: Entry, t: Table)
    requires table != [] && Distinct(table) && e.key != table[0].key && t == table[1..] + [e]
    ensures Find(t, table[0].key) < 0
  {
    forall j | 0 <= j < |t| ensures t[j].key != table[0].key {
      if j < |table| - 1 { assert t[j] == table[j + 1]; }
    }
  }

  /**
   * At most one frame is lost, only to a newly opened key on a full table, and it is the
   * earliest inserted one; every other pending frame keeps its state and its turn.
   */
  lemma OnlyOldestIsEvicted(table: Table, maxActive: nat, a: Arrival, i: nat)
    requires TableInv(table, maxActive) && i < |table| && table[i].key != KeyOf(a.header)
    ensures var t, m := Next(table, maxActive, a), Moved(table, maxActive, a, i);
            if m >= 0 then m < |t| && t[m] == table[i] else i == 0 && Find(t, table[i].key) < 0
  {
    PushCases(table, maxActive, a);
    PushKeepsInv(table, maxActive, a);
    var t, m := Next(table, maxActive, a), Moved(table, maxActive, a, i);
    if m < 0 {
      FirstIsGone(table, Entry(KeyOf(a.header), Updated(table, a)), t);
    }
  }

  /** A segment with another segment count starts its frame over, at the same place in line. */
  lemma ChangedCountStartsOver(table: Table, maxActive: nat, a: Arrival, i: nat)
    requires TableInv(table, maxActive) && i < |table| && table[i].key == KeyOf(a.header)
    requires table[i].state.segmentCount != a.header.segmentCount
    ensures var id, count := a.header.segmentId, a.header.segmentCount;
            if id == 0 && count == 1 then
              Output(table, maxActive, a) == Some(a.payload) && Next(table, maxActive, a) == table[..i] + table[i + 1..]
            else
              && Output(table, maxActive, a) == None
              && Next(table, maxActive, a) == table[i := Entry(table[i].key, FrameState(count, map[id := a.payload]))]
  {
    var id, count := a.header.segmentId, a.header.segmentCount;
    FindIs(table, table[i].key, i);
    PushCases(table, maxActive, a);
    var s := FrameState(count, map[id := a.payload]);
    assert Updated(table, a) == s;
    if id == 0 && count == 1 {
      assert InOrder(s) == [a.payload];
      JoinOfOne([a.payload]);
    } else {
      OneIsComplete(s.segments.Keys, id, count);
    }
  }

  lemma OneIsComplete(ids: set<int>, id: int, count: int)
    requires ids == {id}
    ensures Complete(ids, count) <==> id == 0 && count == 1
  {
    assert 0 in ids <==> id == 0;
    assert count - 1 in ids <==> id == count - 1;
  }

  lemma JoinOfOne(parts: seq<seq<byte>>)
    requires |parts| == 1
    ensures Join(parts) == parts[0]
  {
    assert parts[1..] == [];
  }

  // ----- a frame over a run of arrivals -------------------------------------------------------

  /** Arrivals of `key` carry one segment count and segment ids below it. */
  ghost predicate Consistent(arrivals: seq<Arrival>, key: Key, count: int) {
    forall i :: 0 <= i < |arrivals| && KeyOf(arrivals[i].header) == key ==>
      arrivals[i].header.segmentCount == count && 0 <= arrivals[i].header.segmentId < count
  }

  /** First payload per segment of `key`, added to what `m` already has. */
  ghost function Firsts(m: map<int, seq<byte>>, arrivals: seq<Arrival>, key: Key): map<int, seq<byte>>
    decreases |arrivals|
  {
    if arrivals == [] then m
    else
      var Arrival(h, payload) := arrivals[0];
      Firsts(if KeyOf(h) == key && h.segmentId !in m then m[h.segmentId := payload] else m, arrivals[1..], key)
  }

  ghost function RunTable(table: Table, maxActive: nat, arrivals: seq<Arrival>): Table
    decreases |arrivals|
  {
    if arrivals == [] then table else RunTable(Next(table, maxActive, arrivals[0]), maxActive, arrivals[1..])
  }

  /** Whatever arrives, the table stays bounded and holds no complete frame. */
  lemma {:induction false} TableStaysBounded(table: Table, maxActive: nat, arrivals: seq<Arrival>)
    requires TableInv(table, maxActive)
    ensures TableInv(RunTable(table, maxActive, arrivals), maxActive)
    decreases |arrivals|
  {
    if arrivals != [] {
      PushKeepsInv(table, maxActive, arrivals[0]);
      TableStaysBounded(Next(table, maxActive, arrivals[0]), maxActive, arrivals[1..]);
    }
  }

  /** How many arrivals open a new entry under another key. */
  ghost function Opens(table: Table, maxActive: nat, arrivals: seq<Arrival>, key: Key): nat
    decreases |arrivals|
  {
    if arrivals == [] then 0
    else
      (if KeyOf(arrivals[0].header) != key && Find(table, KeyOf(arrivals[0].header)) < 0 then 1 else 0)
      + Opens(Next(table, maxActive, arrivals[0]), maxActive, arrivals[1..], key)
  }

  /** The frame is pending with these segments, and `younger` entries were inserted after it. */
  ghost predicate Pending(table: Table, key: Key, state: FrameState, younger: int) {
    var p := Find(table, key);
    p >= 0 && table[p].state == state && |table| - 1 - p <= younger
  }

  lemma {:induction false} CompleteStays(m: map<int, seq<byte>>, arrivals: seq<Arrival>, key: Key, count: int)
    requires Complete(m.Keys, count) && Consistent(arrivals, key, count)
    ensures Firsts(m, arrivals, key) == m
    decreases |arrivals|
  {
    if arrivals != [] { CompleteStays(m, arrivals[1..], key, count); }
  }

  lemma PendingAfterOther(table: Table, maxActive: nat, a: Arrival, key: Key, state: FrameState, younger: nat)
    requires TableInv(table, maxActive) && Pending(table, key, state, younger) && KeyOf(a.header) != key
    requires younger + (if Find(table, KeyOf(a.header)) < 0 then 1 else 0) < maxActive
    ensures Pending(Next(table, maxActive, a), key, state, younger + if Find(table, KeyOf(a.header)) < 0 then 1 else 0)
  {
    var p, t := Find(table, key), Next(table, maxActive, a);
    PushCases(table, maxActive, a);
    PushKeepsInv(table, maxActive, a);
    OnlyOldestIsEvicted(table, maxActive, a, p);
    FindIs(t, key, Moved(table, maxActive, a, p));
  }

  lemma PendingAfterOwn(table: Table, maxActive: nat, a: Arrival, key: Key, state: FrameState, younger: nat)
    requires TableInv(table, maxActive) && Pending(table, key, state, younger) && KeyOf(a.header) == key
    requires a.header.segmentCount == state.segmentCount
    ensures var s := Keep(state, a.header.segmentId, a.payload);
            if Complete(s.segments.Keys, s.segmentCount) then Output(table, maxActive, a) == Some(Joined(s))
            else Output(table, maxActive, a) == None && Pending(Next(table, maxActive, a), key, s, younger)
  {
    var p := Find(table, key);
    PushCases(table, maxActive, a);
    PushKeepsInv(table, maxActive, a);
    if Output(table, maxActive, a) == None {
      FindIs(Next(table, maxActive, a), key, p);
    }
  }

  /**
   * An incomplete frame is never evicted while fewer than `maxActive` keys are opened after
   * it; it holds exactly the first payload that arrived for each of its segments.
   */
  lemma {:induction false} PendingSurvives(table: Table, maxActive: nat, arrivals: seq<Arrival>, key: Key,
                                           state: FrameState, younger: nat)
    requires TableInv(table, maxActive) && Pending(table, key, state, younger)
    requires Consistent(arrivals, key, state.segmentCount)
    requires !Complete(Firsts(state.segments, arrivals, key).Keys, state.segmentCount)
    requires younger + Opens(table, maxActive, arrivals, key) < maxActive
    ensures TableInv(RunTable(table, maxActive, arrivals), maxActive)
    ensures Pending(RunTable(table, maxActive, arrivals), key,
                    FrameState(state.segmentCount, Firsts(state.segments, arrivals, key)), maxActive - 1)
    decreases |arrivals|
  {
    if arrivals != [] {
      var a, rest := arrivals[0], arrivals[1..];
      var own := KeyOf(a.header) == key;
      var s := if own then Keep(state, a.header.segmentId, a.payload) else state;
      var more := if !own && Find(table, KeyOf(a.header)) < 0 then 1 else 0;
      assert Consistent(rest, key, state.segmentCount);
      if Complete(s.segments.Keys, s.segmentCount) { CompleteStays(s.segments, rest, key, s.segmentCount); }
      PendingStep(table, maxActive, a, key, state, younger);
      PendingSurvives(Next(table, maxActive, a), maxActive, rest, key, s, younger + more);
    }
  }

  lemma PendingStep(table: Table, maxActive: nat, a: Arrival, key: Key, state: FrameState, younger: nat)
    requires TableInv(table, maxActive) && Pending(table, key, state, younger)
    requires KeyOf(a.header) == key ==>
               a.header.segmentCount == state.segmentCount
               && !Complete(Keep(state, a.header.segmentId, a.payload).segments.Keys, state.segmentCount)
    requires KeyOf(a.header) != key ==> younger + (if Find(table, KeyOf(a.header)) < 0 then 1 else 0) < maxActive
    ensures var own := KeyOf(a.header) == key;
            && TableInv(Next(table, maxActive, a), maxActive)
            && Pending(Next(table, maxActive, a), key,
                       if own then Keep(state, a.header.segmentId, a.payload) else state,
                       younger + if !own && Find(table, KeyOf(a.header)) < 0 then 1 else 0)
  {
    PushKeepsInv(table, maxActive, a);
    if KeyOf(a.header) == key {
      PendingAfterOwn(table, maxActive, a, key, state, younger);
    } else {
      PendingAfterOther(table, maxActive, a, key, state, younger);
    }
  }

  /** Opening a key that is not pending stores its first segment last in line. */
  lemma PendingAfterOpen(table: Table, maxActive: nat, a: Arrival)
    requires TableInv(table, maxActive) && Find(table, KeyOf(a.header)) < 0 && maxActive > 0
    ensures var s := Keep(FrameState(a.header.segmentCount, map[]), a.header.segmentId, a.payload);
            if Complete(s.segments.Keys, s.segmentCount) then Output(table, maxActive, a) == Some(Joined(s))
            else Output(table, maxActive, a) == None && Pending(Next(table, maxActive, a), KeyOf(a.header), s, 0)
  {
    PushCases(table, maxActive, a);
    PushKeepsInv(table, maxActive, a);
    var t := Next(table, maxActive, a);
    if Output(table, maxActive, a) == None {
      FindIs(t, KeyOf(a.header), |t| - 1);
    }
  }

  /**
   * Delivery: from the arrival that opens a frame on, as long as fewer than `maxActive` other
   * keys are opened, the arrival of the last missing segment returns the first payloads of
   * all segments joined in order.
   */
  lemma FrameIsDelivered(table: Table, maxActive: nat, opening: Arrival, arrivals: seq<Arrival>, last: Arrival)
    requires var key, count := KeyOf(opening.header), opening.header.segmentCount;
             && TableInv(table, maxActive) && Find(table, key) < 0
             && Consistent([opening] + arrivals + [last], key, count) && KeyOf(last.header) == key
             && Opens(Next(table, maxActive, opening), maxActive, arrivals, key) < maxActive
             && !Complete(Firsts(map[], [opening] + arrivals, key).Keys, count)
             && Complete(Firsts(map[], [opening] + arrivals + [last], key).Keys, count)
    ensures var key, count := KeyOf(opening.header), opening.header.segmentCount;
            Output(RunTable(Next(table, maxActive, opening), maxActive, arrivals), maxActive, last)
            == Some(Joined(FrameState(count, Firsts(map[], [opening] + arrivals + [last], key))))
  {
    var key, count := KeyOf(opening.header), opening.header.segmentCount;
    var all := [opening] + arrivals + [last];
    assert all[0] == opening && all[|all| - 1] == last;
    var s := Keep(FrameState(count, map[]), opening.header.segmentId, opening.payload);
    assert ([opening] + arrivals)[1..] == arrivals && all[1..] == arrivals + [last];
    FirstsAppend(s.segments, arrivals, last, key);
    assert Consistent(arrivals, key, count) by {
      assert forall i :: 0 <= i < |arrivals| ==> arrivals[i] == all[i + 1];
    }
    if Complete(s.segments.Keys, count) { CompleteStays(s.segments, arrivals, key, count); }
    PendingAfterOpen(table, maxActive, opening);
    PushKeepsInv(table, maxActive, opening);
    var t := Next(table, maxActive, opening);
    PendingSurvives(t, maxActive, arrivals, key, s, 0);
    PendingAfterOwn(RunTable(t, maxActive, arrivals), maxActive, last, key,
                    FrameState(count, Firsts(s.segments, arrivals, key)), maxActive - 1);
  }

  lemma {:induction false} FirstsAppend(m: map<int, seq<byte>>, arrivals: seq<Arrival>, last: Arrival, key: Key)
    ensures var f := Firsts(m, arrivals, key);
            Firsts(m, arrivals + [last], key) ==
              if KeyOf(last.header) == key && last.header.segmentId !in f
              then f[last.header.segmentId := last.payload] else f
    decreases |arrivals|
  {
    if arrivals == [] {
      assert arrivals + [last] == [last] && [last][1..] == [];
    } else {
      assert (arrivals + [last])[1..] == arrivals[1..] + [last];
      var Arrival(h, payload) := arrivals[0];
      var m' := if KeyOf(h) == key && h.segmentId !in m then m[h.segmentId := payload] else m;
      FirstsAppend(m', arrivals[1..], last, key);
    }
  }
}
