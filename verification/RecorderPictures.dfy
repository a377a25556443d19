/** What the recorder's tables and pictures hold, in terms of the packets and ticks so far. */
module RecorderPictures {
  import opened Bytes
  import opened Raster
  import opened Recorder

  /**
   * The picture written at a tick is that of the largest frame id: each octet is the one that
   * arrived last for its place since the frame was opened, or the inherited one.
   */
  lemma WrittenPicture(v: Value, pos: nat)
    requires Inv(v) && v.lives.Keys != {} && pos < REAL_BYTES
    ensures var m := Newest(v.lives.Keys);
            var l, shot := v.lives[m], Write(v).shots[|v.shots|];
            && shot.frame == m && pos < |shot.picture| && pos < |l.base|
            && match Latest(l.patches, pos / PAYLOAD)
               case Some(payload) => |payload| == PAYLOAD && shot.picture[pos] == payload[pos % PAYLOAD]
               case None => shot.picture[pos] == l.base[pos]
  {
    var l := v.lives[Newest(v.lives.Keys)];
    OctetLaw(l.base, l.patches, pos);
  }

  // ----- the values along a run ------------------------------------------------------------------

  /** `vs[j]` is the value after the first `j` events, and no event fails. */
  ghost predicate Trace(events: seq<Event>, vs: seq<Value>) {
    && |vs| == |events| + 1 && vs[0] == Blank()
    && forall j :: 0 <= j < |events| ==> Follows(vs[j], events[j], vs[j + 1])
  }

  ghost predicate Follows(v: Value, e: Event, v': Value) {
    Inv(v) && WellFormed(e) && !Fails(v, e) && v' == Apply(v, e)
  }

  lemma TraceInv(events: seq<Event>, vs: seq<Value>, j: nat)
    requires Trace(events, vs) && j <= |events|
    ensures Inv(vs[j])
  {
    if j > 0 {
      assert Follows(vs[j - 1], events[j - 1], vs[j]);
      StepKeepsInv(vs[j - 1], events[j - 1]);
    }
  }

  /** A run succeeds exactly when it has a trace, which ends in its value. */
  lemma {:induction false} RunHasTrace(events: seq<Event>) returns (vs: seq<Value>)
    requires forall i :: 0 <= i < |events| ==> WellFormed(events[i])
    ensures Run(events).Some? ==> Trace(events, vs) && vs[|events|] == Run(events).value
  {
    if events == [] {
      vs := [Blank()];
    } else {
      var n := |events| - 1;
      var before := RunHasTrace(events[..n]);
      if Run(events).Some? {
        vs := before + [Run(events).value];
        forall j | 0 <= j < |events| ensures Follows(vs[j], events[j], vs[j + 1]) {
          if j < n { assert Follows(before[j], events[..n][j], before[j + 1]); }
        }
      } else {
        vs := before;
      }
    }
  }

  // ----- where a frame's buffer comes from -------------------------------------------------------

  ghost function Brought(e: Event, f: int): seq<Patch> {
    if e.Packet? && e.frame == f && Visible(e.patch.segment) then [e.patch] else []
  }

  /** The visible segments of one frame among these events, in order of arrival. */
  ghost function Received(events: seq<Event>, f: int): seq<Patch> {
    if events == [] then [] else Received(events[..|events| - 1], f) + Brought(events[|events| - 1], f)
  }

  /** Event `k` is the packet that opened the entry which frame `f` has after `n` events. */
  ghost predicate OpenedAt(events: seq<Event>, vs: seq<Value>, f: int, k: nat, n: nat)
    requires |vs| == |events| + 1 && n <= |events|
  {
    && k < n && events[k].Packet? && events[k].frame == f && f !in vs[k].lives
    && forall j :: k < j <= n ==> f in vs[j].lives
  }

  /** What that entry is: the picture of that moment, and the segments received since. */
  ghost function LifeSince(events: seq<Event>, vs: seq<Value>, f: int, k: nat, n: nat): Life
    requires |vs| == |events| + 1 && n <= |events| && OpenedAt(events, vs, f, k, n)
  {
    Life(vs[k].lastWritten, events[k].count, Received(events[k..n], f))
  }

  lemma ReceivedStep(events: seq<Event>, f: int, k: nat, n: nat)
    requires k <= n < |events|
    ensures Received(events[k..n + 1], f) == Received(events[k..n], f) + Brought(events[n], f)
  {
    var more := events[k..n + 1];
    assert more[..|more| - 1] == events[k..n] && more[|more| - 1] == events[n];
  }

  /** How one event changes the entry of one frame. */
  lemma LifeStep(v: Value, e: Event, f: int)
    requires Inv(v) && WellFormed(e) && !Fails(v, e) && f in Apply(v, e).lives
    ensures f in v.lives ==> Apply(v, e).lives[f] == v.lives[f].(patches := v.lives[f].patches + Brought(e, f))
    ensures f !in v.lives ==>
              e.Packet? && e.frame == f && Apply(v, e).lives[f] == Life(v.lastWritten, e.count, Brought(e, f))
  {
    if f in v.lives { assert v.lives[f].patches + [] == v.lives[f].patches; }
    if e.Packet? && e.frame == f && f !in v.lives { assert [] + [e.patch] == [e.patch]; }
  }

  lemma HistoryGrows(events: seq<Event>, vs: seq<Value>, n: nat, f: int, k: nat)
    requires Trace(events, vs) && n < |events| && OpenedAt(events, vs, f, k, n) && f in vs[n + 1].lives
    requires vs[n].lives[f] == LifeSince(events, vs, f, k, n)
    ensures OpenedAt(events, vs, f, k, n + 1) && vs[n + 1].lives[f] == LifeSince(events, vs, f, k, n + 1)
  {
    assert Follows(vs[n], events[n], vs[n + 1]);
    LifeStep(vs[n], events[n], f);
    ReceivedStep(events, f, k, n);
  }

  lemma HistoryOpens(events: seq<Event>, vs: seq<Value>, n: nat, f: int)
    requires Trace(events, vs) && n < |events| && f !in vs[n].lives && f in vs[n + 1].lives
    ensures OpenedAt(events, vs, f, n, n + 1) && vs[n + 1].lives[f] == LifeSince(events, vs, f, n, n + 1)
  {
    assert Follows(vs[n], events[n], vs[n + 1]);
    LifeStep(vs[n], events[n], f);
    ReceivedStep(events, f, n, n);
    assert events[n..n] == [] && [] + Brought(events[n], f) == Brought(events[n], f);
  }

  /** Every entry is the one some packet of its frame opened, with exactly what came since. */
  lemma {:induction false} LifeIsHistory(events: seq<Event>, vs: seq<Value>, n: nat, f: int) returns (k: nat)
    requires Trace(events, vs) && n <= |events| && f in vs[n].lives
    ensures OpenedAt(events, vs, f, k, n) && vs[n].lives[f] == LifeSince(events, vs, f, k, n)
    decreases n
  {
    if f in vs[n - 1].lives {
      k := LifeIsHistory(events, vs, n - 1, f);
      HistoryGrows(events, vs, n - 1, f, k);
    } else {
      k := n - 1;
      HistoryOpens(events, vs, k, f);
    }
  }

  // ----- which frame is written ------------------------------------------------------------------

  /** A packet's frame is in the table right after it, and the largest id received always is. */
  lemma {:induction false} NewestIsLargestReceived(events: seq<Event>, vs: seq<Value>, n: nat, j: nat)
    requires Trace(events, vs) && j < n <= |events| && events[j].Packet?
    ensures events[j].frame in vs[j + 1].lives
    ensures vs[n].lives.Keys != {} && events[j].frame <= Newest(vs[n].lives.Keys)
    decreases n
  {
    var v, e := vs[n - 1], events[n - 1];
    assert Follows(v, e, vs[n]);
    if j < n - 1 {
      NewestIsLargestReceived(events, vs, n - 1, j);
      if e.Packet? { TakeKeepsInv(v, e.frame, e.count, e.patch); }
    } else {
      OpenedKeys(v, e.frame, e.count);
      assert e.frame in vs[n].lives.Keys;
    }
  }

  // ----- what is written -----------------------------------------------------------------------------

  /** The picture on screen: the last one written, black before the first. */
  ghost function Screen(v: Value): (r: seq<byte>)
    requires Inv(v)
    ensures |r| == REAL_BYTES
  {
    if v.shots == [] then seq(REAL_BYTES, _ => 0) else v.shots[|v.shots| - 1].picture
  }

  lemma ScreenStep(v: Value, e: Event)
    requires Inv(v) && WellFormed(e) && !Fails(v, e) && v.lastWritten[..REAL_BYTES] == Screen(v)
    ensures Inv(Apply(v, e)) && Apply(v, e).lastWritten[..REAL_BYTES] == Screen(Apply(v, e))
  {
    StepKeepsInv(v, e);
  }

  /** What a new frame inherits is what is on screen. */
  lemma {:induction false} InheritsScreen(events: seq<Event>, vs: seq<Value>, n: nat)
    requires Trace(events, vs) && n <= |events|
    ensures Inv(vs[n]) && vs[n].lastWritten[..REAL_BYTES] == Screen(vs[n])
    decreases n
  {
    TraceInv(events, vs, n);
    if n == 0 {
      assert vs[0].lastWritten[..REAL_BYTES] == vs[0].lastWritten;
    } else {
      InheritsScreen(events, vs, n - 1);
      assert Follows(vs[n - 1], events[n - 1], vs[n]);
      ScreenStep(vs[n - 1], events[n - 1]);
    }
  }

  /** Each picture was written at one tick. */
  lemma {:induction false} ShotAtTick(events: seq<Event>, vs: seq<Value>, n: nat, i: nat) returns (t: nat)
    requires Trace(events, vs) && n <= |events| && i < |vs[n].shots|
    ensures t < n && events[t].Tick? && vs[t].lives.Keys != {} && |vs[t].shots| == i
    ensures Inv(vs[t]) && i < |Write(vs[t]).shots| && vs[n].shots[i] == Write(vs[t]).shots[i]
    decreases n
  {
    var v, e := vs[n - 1], events[n - 1];
    assert Follows(v, e, vs[n]);
    if i < |v.shots| { t := ShotAtTick(events, vs, n - 1, i); } else { t := n - 1; }
  }

  /** An octet of a picture: the latest that arrived for its place, else what was there before. */
  ghost predicate Octet(x: byte, patches: seq<Patch>, under: seq<byte>, pos: nat)
    requires pos < |under|
  {
    match Latest(patches, pos / PAYLOAD)
    case Some(payload) => |payload| == PAYLOAD && x == payload[pos % PAYLOAD]
    case None => x == under[pos]
  }

  /**
   * Picture `shot` was written at tick `t`: it shows the largest frame id received by then,
   * opened by packet `k`; over what was on screen at `k` lie the segments received since.
   */
  ghost predicate Drawn(events: seq<Event>, vs: seq<Value>, shot: Shot, t: nat, k: nat)
    requires Trace(events, vs)
  {
    && t < |events| && events[t].Tick? && OpenedAt(events, vs, shot.frame, k, t) && |shot.picture| == REAL_BYTES
    && Inv(vs[k]) && (forall j :: 0 <= j < t && events[j].Packet? ==> events[j].frame <= shot.frame)
    && forall pos :: 0 <= pos < REAL_BYTES ==>
         Octet(shot.picture[pos], Received(events[k..t], shot.frame), Screen(vs[k]), pos)
  }

  /** Every written picture is drawn from the packets of its own frame and the screen it was opened on. */
  lemma PicturesComeFromPackets(events: seq<Event>, vs: seq<Value>, i: nat) returns (t: nat, k: nat)
    requires Trace(events, vs) && i < |vs[|events|].shots|
    ensures Drawn(events, vs, vs[|events|].shots[i], t, k) && |vs[t].shots| == i
  {
    t := ShotAtTick(events, vs, |events|, i);
    var shot, m := vs[|events|].shots[i], Newest(vs[t].lives.Keys);
    k := LifeIsHistory(events, vs, t, m);
    InheritsScreen(events, vs, k);
    forall j | 0 <= j < t && events[j].Packet? ensures events[j].frame <= m {
      NewestIsLargestReceived(events, vs, t, j);
    }
    forall pos | 0 <= pos < REAL_BYTES ensures Octet(shot.picture[pos], Received(events[k..t], m), Screen(vs[k]), pos) {
      WrittenPicture(vs[t], pos);
      assert Screen(vs[k])[pos] == vs[k].lastWritten[pos];
    }
  }

  ghost predicate FromHistory(events: seq<Event>, vs: seq<Value>, f: int)
    requires |vs| == |events| + 1 && f in vs[|events|].lives
  {
    exists k :: OpenedAt(events, vs, f, k, |events|) && vs[|events|].lives[f] == LifeSince(events, vs, f, k, |events|)
  }

  ghost predicate FromScreen(events: seq<Event>, vs: seq<Value>, shot: Shot)
    requires Trace(events, vs)
  {
    exists t, k :: Drawn(events, vs, shot, t, k)
  }

  /**
   * At most nine frames, among them that of the latest packet and the largest received; every
   * buffer has one of two lengths, and is the picture it was opened on under exactly the segments
   * received since.
   */
  ghost predicate TableLaw(events: seq<Event>, vs: seq<Value>)
    requires |vs| == |events| + 1
  {
    var v := vs[|events|];
    && |v.lives.Keys| <= 9
    && (forall j :: 0 <= j < |events| ==> Retained(events, vs, j))
    && forall f :: f in v.lives ==>
         LifeInv(v.lives[f]) && |Buffer(v.lives[f])| in {2764800, 2765400} && FromHistory(events, vs, f)
  }

  /** A packet's frame is in the table right after it, and one at least as large is in it now. */
  ghost predicate Retained(events: seq<Event>, vs: seq<Value>, j: nat)
    requires j < |events| && |vs| == |events| + 1
  {
    events[j].Packet? ==>
      events[j].frame in vs[j + 1].lives && exists m :: m in vs[|events|].lives && events[j].frame <= m
  }

  lemma EveryTable(events: seq<Event>, vs: seq<Value>)
    requires Trace(events, vs)
    ensures TableLaw(events, vs)
  {
    var v := vs[|events|];
    TraceInv(events, vs, |events|);
    forall j | 0 <= j < |events| ensures Retained(events, vs, j) {
      if events[j].Packet? {
        NewestIsLargestReceived(events, vs, |events|, j);
        assert Newest(v.lives.Keys) in v.lives;
      }
    }
    forall f | f in v.lives ensures FromHistory(events, vs, f) {
      var k := LifeIsHistory(events, vs, |events|, f);
    }
  }

  /** Written frame ids never decrease, shares lie in [0, 1], pictures come from their frame's packets. */
  ghost predicate PictureLaw(events: seq<Event>, vs: seq<Value>)
    requires Trace(events, vs)
  {
    var shots := vs[|events|].shots;
    && (forall i :: 0 <= i < |shots| ==> 0.0 <= shots[i].completeness <= 1.0 && FromScreen(events, vs, shots[i]))
    && forall i, j :: 0 <= i < j < |shots| ==> shots[i].frame <= shots[j].frame
  }

  lemma EveryPicture(events: seq<Event>, vs: seq<Value>)
    requires Trace(events, vs)
    ensures PictureLaw(events, vs)
  {
    var shots := vs[|events|].shots;
    TraceInv(events, vs, |events|);
    forall i | 0 <= i < |shots| ensures FromScreen(events, vs, shots[i]) {
      var t, k := PicturesComeFromPackets(events, vs, i);
    }
  }

  /** Every run in which packets of one frame agree on its segment count succeeds and keeps both laws. */
  lemma EveryRun(events: seq<Event>, counts: int -> nat) returns (vs: seq<Value>)
    requires OneCount(events, counts) && forall i :: 0 <= i < |events| ==> WellFormed(events[i])
    ensures Run(events).Some? && Trace(events, vs) && vs[|events|] == Run(events).value
    ensures TableLaw(events, vs) && PictureLaw(events, vs)
  {
    RunKeepsInv(events, counts);
    vs := RunHasTrace(events);
    EveryTable(events, vs);
    EveryPicture(events, vs);
  }
}
