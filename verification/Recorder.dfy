/**
 * The recorder: a few frame buffers at a time, each starting as a copy of the last written
 * picture, and a writer that takes the newest one at every tick.
 */
module Recorder {
  import opened Bytes
  import opened PacketSchema
  import opened Raster
  import opened FrameTable

  const MAX_ACTIVE: nat := 8

  /** A frame buffer by its history: what it inherited and what was patched in since. */
  datatype Life = Life(base: seq<byte>, count: nat, patches: seq<Patch>)

  datatype Shot = Shot(frame: int, picture: seq<byte>, completeness: real)

  datatype Value = Value(lives: map<int, Life>, lastWritten: seq<byte>, shots: seq<Shot>)

  ghost predicate LifeInv(l: Life) {
    && Sized(l.base) && AllStorable(l.patches) && l.count > 0
    && forall i :: 0 <= i < |l.patches| ==> l.patches[i].segment < l.count
  }

  ghost function Buffer(l: Life): (b: seq<byte>)
    requires LifeInv(l)
    ensures Sized(b)
  {
    Render(l.base, l.patches)
  }

  /** Distinct visible segments that arrived, over all segments of the frame. */
  ghost function Completeness(l: Life): (r: real)
    requires LifeInv(l)
  {
    |Segments(l.patches)| as real / l.count as real
  }

  lemma CompletenessInRange(l: Life)
    requires LifeInv(l)
    ensures 0.0 <= Completeness(l) <= 1.0
    ensures Completeness(l) == 1.0 <==> HasAll(Segments(l.patches), l.count)
  {
    SegmentsBelow(l.patches, l.count);
    BoundedIds(Segments(l.patches), l.count);
    Share(|Segments(l.patches)|, l.count);
  }

  lemma Share(n: nat, total: nat)
    requires n <= total && total > 0
    ensures 0.0 <= n as real / total as real <= 1.0
    ensures n as real / total as real == 1.0 <==> n == total
  {
    var x, t := n as real, total as real;
    assert x == (x / t) * t;
  }

  // ----- the two events ------------------------------------------------------------------------

  ghost function Restricted(m: map<int, Life>, ids: set<int>): map<int, Life> { map k | k in m && k in ids :: m[k] }

  /** Get the frame or open it, first evicting the smallest ids of an overfull table. */
  ghost function Opened(v: Value, f: int, count: nat): map<int, Life> {
    if f in v.lives then v.lives
    else Restricted(v.lives, Kept(v.lives.Keys, MAX_ACTIVE))[f := Life(v.lastWritten, count, [])]
  }

  ghost function Added(l: Life, p: Patch): Life {
    if Visible(p.segment) then l.(patches := l.patches + [p]) else l
  }

  ghost function With(lives: map<int, Life>, f: int, p: Patch): map<int, Life>
    requires f in lives
  {
    lives[f := Added(lives[f], p)]
  }

  ghost function Take(v: Value, f: int, count: nat, p: Patch): Value {
    v.(lives := With(Opened(v, f, count), f, p))
  }

  /** The frame was opened with fewer segments than this packet's number: the flag store fails. */
  ghost predicate Raises(v: Value, f: int, p: Patch) {
    f in v.lives && Visible(p.segment) && p.segment >= v.lives[f].count
  }

  ghost function Newest(ids: set<int>): (m: int)
    requires ids != {}
    ensures IsMax(m, ids)
  {
    assert exists m :: IsMax(m, ids) by { var m := MaxExists(ids); }
    var m :| IsMax(m, ids);
    m
  }

  ghost function Write(v: Value): Value
    requires forall f :: f in v.lives ==> LifeInv(v.lives[f])
  {
    if v.lives.Keys == {} then v
    else
      var m := Newest(v.lives.Keys);
      var b := Buffer(v.lives[m]);
      Value(v.lives, b, v.shots + [Shot(m, b[..REAL_BYTES], Completeness(v.lives[m]))])
  }

  // ----- what every run keeps ------------------------------------------------------------------

  /** Pictures are whole, shares are shares, and frame ids never go back. */
  ghost predicate ShotsInv(shots: seq<Shot>, ids: set<int>) {
    && (forall i :: 0 <= i < |shots| ==> |shots[i].picture| == REAL_BYTES && 0.0 <= shots[i].completeness <= 1.0)
    && (forall i, j :: 0 <= i < j < |shots| ==> shots[i].frame <= shots[j].frame)
    && (shots != [] ==> ids != {})
    && forall i, m :: 0 <= i < |shots| && IsMax(m, ids) ==> shots[i].frame <= m
  }

  ghost predicate Inv(v: Value) {
    && |v.lives.Keys| <= MAX_ACTIVE + 1 && Sized(v.lastWritten)
    && (forall f :: f in v.lives ==> LifeInv(v.lives[f]))
    && ShotsInv(v.shots, v.lives.Keys)
  }

  lemma OpenedKeys(v: Value, f: int, count: nat)
    requires |v.lives.Keys| <= MAX_ACTIVE + 1
    ensures f in Opened(v, f, count) && |Opened(v, f, count).Keys| <= MAX_ACTIVE + 1
    ensures forall m, m' :: IsMax(m, v.lives.Keys) && IsMax(m', Opened(v, f, count).Keys) ==> m <= m'
  {
    if f !in v.lives {
      var kept := Kept(v.lives.Keys, MAX_ACTIVE);
      var after := Opened(v, f, count).Keys;
      assert after == kept + {f};
      forall m, m' | IsMax(m, v.lives.Keys) && IsMax(m', after) ensures m <= m' {
        LargestIsKept(kept, v.lives.Keys, MAX_ACTIVE, m);
        assert m in after;
      }
    }
  }

  /** A new frame joins the eight largest ids that were there; a known one changes nothing. */
  lemma OpeningEvicts(v: Value, f: int, count: nat)
    ensures f in v.lives ==> Opened(v, f, count) == v.lives
    ensures f !in v.lives ==>
              var kept := Opened(v, f, count).Keys - {f};
              && KeepsLargest(kept, v.lives.Keys, 8) && Opened(v, f, count)[f] == Life(v.lastWritten, count, [])
              && forall k :: k in kept ==> Opened(v, f, count)[k] == v.lives[k]
  {
    if f !in v.lives {
      var kept := Kept(v.lives.Keys, MAX_ACTIVE);
      assert Opened(v, f, count).Keys - {f} == kept;
    }
  }

  lemma OpenedKeepsInv(v: Value, f: int, count: nat)
    requires Inv(v) && count > 0
    ensures Inv(v.(lives := Opened(v, f, count)))
  {
    OpenedKeys(v, f, count);
    var o := Opened(v, f, count);
    ShotsStay(v.shots, v.lives.Keys, o.Keys);
  }

  lemma WithKeepsInv(v: Value, f: int, p: Patch)
    requires Inv(v) && f in v.lives && |p.payload| == PAYLOAD && !Raises(v, f, p)
    ensures Inv(v.(lives := With(v.lives, f, p)))
  {
    var t := With(v.lives, f, p);
    assert t.Keys == v.lives.Keys;
    forall k | k in t ensures LifeInv(t[k]) {
      assert k != f ==> t[k] == v.lives[k];
    }
  }

  /** A packet opens at most one frame, evicts only the smallest ids and never the newest frame. */
  lemma TakeKeepsInv(v: Value, f: int, count: nat, p: Patch)
    requires Inv(v) && |p.payload| == PAYLOAD && p.segment < count && !Raises(v, f, p)
    ensures Inv(Take(v, f, count, p))
    ensures forall m, m' :: IsMax(m, v.lives.Keys) && IsMax(m', Take(v, f, count, p).lives.Keys) ==> m <= m'
  {
    OpenedKeepsInv(v, f, count);
    OpenedKeys(v, f, count);
    WithKeepsInv(v.(lives := Opened(v, f, count)), f, p);
    assert Take(v, f, count, p).lives.Keys == Opened(v, f, count).Keys;
  }

  lemma ShotsStay(shots: seq<Shot>, before: set<int>, after: set<int>)
    requires ShotsInv(shots, before) && after != {}
    requires forall m, m' :: IsMax(m, before) && IsMax(m', after) ==> m <= m'
    ensures ShotsInv(shots, after)
  {
    if shots != [] {
      var m := Newest(before);
    }
  }

  lemma WriteKeepsInv(v: Value)
    requires Inv(v)
    ensures Inv(Write(v))
  {
    if v.lives.Keys != {} {
      CompletenessInRange(v.lives[Newest(v.lives.Keys)]);
    }
  }

  // ----- whole runs ------------------------------------------------------------------------------

  datatype Event = Packet(frame: int, count: nat, patch: Patch) | Tick

  ghost predicate WellFormed(e: Event) { e.Packet? ==> |e.patch.payload| == PAYLOAD && e.patch.segment < e.count }

  /** Packets of one frame announce one segment count. */
  ghost predicate OneCount(events: seq<Event>, counts: int -> nat) {
    forall i :: 0 <= i < |events| && events[i].Packet? ==> events[i].count == counts(events[i].frame)
  }

  ghost function Apply(v: Value, e: Event): Value
    requires Inv(v)
  {
    match e case Packet(f, count, p) => Take(v, f, count, p) case Tick => Write(v)
  }

  ghost predicate Fails(v: Value, e: Event) { e.Packet? && Raises(v, e.frame, e.patch) }

  lemma StepKeepsInv(v: Value, e: Event)
    requires Inv(v) && WellFormed(e) && !Fails(v, e)
    ensures Inv(Apply(v, e))
  {
    match e
    case Packet(f, count, p) => TakeKeepsInv(v, f, count, p);
    case Tick => WriteKeepsInv(v);
  }

  function Blank(): (v: Value)
    ensures Inv(v)
  {
    Value(map[], seq(REAL_BYTES, _ => 0), [])
  }

  /** The value after these events, from the start; none once a flag store has failed. */
  ghost function Run(events: seq<Event>): (r: Option<Value>)
    requires forall i :: 0 <= i < |events| ==> WellFormed(events[i])
    ensures r.Some? ==> Inv(r.value)
  {
    if events == [] then Some(Blank())
    else
      var n := |events| - 1;
      match Run(events[..n])
      case None => None
      case Some(v) =>
        if Fails(v, events[n]) then None
        else
          StepKeepsInv(v, events[n]);
          Some(Apply(v, events[n]))
  }

  /** With one segment count per frame no run fails, so every run keeps the invariant. */
  lemma {:induction false} RunKeepsInv(events: seq<Event>, counts: int -> nat)
    requires forall i :: 0 <= i < |events| ==> WellFormed(events[i])
    requires OneCount(events, counts)
    ensures Run(events).Some? && Inv(Run(events).value)
    ensures forall f :: f in Run(events).value.lives ==> Run(events).value.lives[f].count == counts(f)
  {
    if events != [] {
      RunKeepsInv(events[..|events| - 1], counts);
    }
  }

  /** One frame's buffer, flags and count against its history. */
  ghost predicate Stored(buffer: seq<byte>, flags: seq<bool>, count: nat, l: Life) {
    LifeInv(l) && Row(buffer, flags, count) == RowOf(l)
  }

  /** A frame's entries in the three tables. */
  datatype Row = Row(buffer: seq<byte>, flags: seq<bool>, count: nat)

  ghost function RowOf(l: Life): Row
    requires LifeInv(l)
  {
    Row(Buffer(l), Flags(l), l.count)
  }

  /** One flag per segment, set for those that have arrived. */
  ghost function Flags(l: Life): (flags: seq<bool>)
    ensures |flags| == l.count && forall k :: 0 <= k < l.count ==> flags[k] == (k in Segments(l.patches))
  {
    seq(l.count, k requires 0 <= k < l.count => k in Segments(l.patches))
  }

  /** All tables have the same frames, and each buffer is the picture its history describes. */
  ghost predicate Matches(frames: map<int, seq<byte>>, seen: map<int, seq<bool>>, segCounts: map<int, nat>,
                          lives: map<int, Life>) {
    && frames.Keys == seen.Keys == segCounts.Keys == lives.Keys
    && forall f {:trigger Has(lives, f)} :: Has(lives, f) ==> Stored(frames[f], seen[f], segCounts[f], lives[f])
  }

  ghost predicate Has(lives: map<int, Life>, f: int) { f in lives }

  /** Replacing or adding one frame. */
  lemma MatchesWith(frames: map<int, seq<byte>>, seen: map<int, seq<bool>>, segCounts: map<int, nat>,
                    lives: map<int, Life>, f: int, buffer: seq<byte>, flags: seq<bool>, count: nat, l: Life)
    requires Matches(frames, seen, segCounts, lives) && Stored(buffer, flags, count, l)
    ensures Matches(frames[f := buffer], seen[f := flags], segCounts[f := count], lives[f := l])
  {
    forall k | Has(lives[f := l], k) && k != f ensures Stored(frames[k], seen[k], segCounts[k], lives[k]) {
      assert Has(lives, k);
    }
  }

  /** Some frames of matching tables. */
  lemma MatchesWithin(frames: map<int, seq<byte>>, seen: map<int, seq<bool>>, segCounts: map<int, nat>,
                      lives: map<int, Life>, frames': map<int, seq<byte>>, seen': map<int, seq<bool>>,
                      segCounts': map<int, nat>, ids: set<int>)
    requires Matches(frames, seen, segCounts, lives) && ids <= lives.Keys
    requires frames'.Keys == seen'.Keys == segCounts'.Keys == ids
    requires Within(frames', frames) && Within(seen', seen) && Within(segCounts', segCounts)
    ensures Matches(frames', seen', segCounts', Restricted(lives, ids))
  {
    var some := Restricted(lives, ids);
    assert some.Keys == ids;
    forall k | Has(some, k) ensures Stored(frames'[k], seen'[k], segCounts'[k], some[k]) { assert Has(lives, k); }
  }

  lemma MatchedAt(frames: map<int, seq<byte>>, seen: map<int, seq<bool>>, segCounts: map<int, nat>,
                  lives: map<int, Life>, f: int)
    requires Matches(frames, seen, segCounts, lives) && f in frames
    ensures f in lives && f in seen && f in segCounts && LifeInv(lives[f]) && frames[f] == Buffer(lives[f])
    ensures |seen[f]| == segCounts[f] == lives[f].count > 0 && Stored(frames[f], seen[f], segCounts[f], lives[f])
  {
    assert Has(lives, f);
  }

  lemma Painted(frames: map<int, seq<byte>>, seen: map<int, seq<bool>>, segCounts: map<int, nat>,
                lives: map<int, Life>, f: int, p: Patch, frames': map<int, seq<byte>>, seen': map<int, seq<bool>>)
    requires Matches(frames, seen, segCounts, lives) && f in lives && Storable(p) && p.segment < |seen[f]|
    requires Sized(frames[f]) && frames' == frames[f := Patched(frames[f], p)]
    requires seen' == seen[f := seen[f][p.segment := true]]
    ensures Matches(frames', seen', segCounts, With(lives, f, p))
  {
    assert Has(lives, f);
    StoredAfter(frames[f], seen[f], segCounts[f], lives[f], p);
    MatchesWith(frames, seen, segCounts, lives, f, frames'[f], seen'[f], segCounts[f], Added(lives[f], p));
    assert segCounts[f := segCounts[f]] == segCounts;
  }

  lemma OpenedMatches(frames: map<int, seq<byte>>, seen: map<int, seq<bool>>, segCounts: map<int, nat>, v: Value,
                      f: int, count: nat, fs: map<int, seq<byte>>, ss: map<int, seq<bool>>, cs: map<int, nat>)
    requires Inv(v) && Matches(frames, seen, segCounts, v.lives) && f !in frames && count > 0
    requires fs.Keys == ss.Keys == cs.Keys && KeepsLargest(fs.Keys, frames.Keys, MAX_ACTIVE)
    requires Within(fs, frames) && Within(ss, seen) && Within(cs, segCounts)
    ensures Matches(fs[f := v.lastWritten], ss[f := seq(count, _ => false)], cs[f := count], Opened(v, f, count))
  {
    KeptIsUnique(fs.Keys, Kept(v.lives.Keys, MAX_ACTIVE), v.lives.Keys, MAX_ACTIVE);
    MatchesWithin(frames, seen, segCounts, v.lives, fs, ss, cs, fs.Keys);
    FreshStored(v.lastWritten, count);
    MatchesWith(fs, ss, cs, Restricted(v.lives, fs.Keys), f, v.lastWritten, seq(count, _ => false), count,
                Life(v.lastWritten, count, []));
  }

  lemma FreshStored(base: seq<byte>, count: nat)
    requires Sized(base) && count > 0
    ensures Stored(base, seq(count, _ => false), count, Life(base, count, []))
  {
  }

  lemma StoredAfter(buffer: seq<byte>, flags: seq<bool>, count: nat, l: Life, p: Patch)
    requires Stored(buffer, flags, count, l) && Storable(p) && p.segment < count
    ensures Stored(Patched(buffer, p), flags[p.segment := true], count, Added(l, p))
  {
    var t := l.patches + [p];
    assert t[..|l.patches|] == l.patches;
  }

  /** What one packet does: counted as malformed, or taken, or the end of the program. */
  ghost predicate Handled(h: PacketHeader, counter: nat, payload: seq<byte>, v: Value, v': Value, bad: nat, bad': nat,
                          raised: bool)
    requires NonNegative(h)
  {
    if h.magic != 0x4F56 || h.version != 0 || h.sessionId != 1 || h.streamId != 1 || h.payloadLength != 1320
       || h.nonceCounter != counter || h.segmentId >= h.segmentCount || h.segmentCount == 0
    then !raised && bad' == bad + 1 && v' == v
    else
      var p := Patch(h.segmentId, payload);
      bad' == bad && (raised <==> Raises(v, h.frameId, p)) && (!raised ==> v' == Take(v, h.frameId, h.segmentCount, p))
  }

  /** A segment past the picture changes no buffer. */
  lemma WithOutside(lives: map<int, Life>, f: int, p: Patch)
    requires f in lives && !Visible(p.segment)
    ensures With(lives, f, p) == lives
  {
  }

  lemma WriteOf(v: Value, newest: int, buffer: seq<byte>, share: real)
    requires Inv(v) && IsMax(newest, v.lives.Keys)
    requires buffer == Buffer(v.lives[newest]) && share == Completeness(v.lives[newest])
    ensures Write(v) == Value(v.lives, buffer, v.shots + [Shot(newest, buffer[..REAL_BYTES], share)])
  {
    assert Newest(v.lives.Keys) == newest;
  }

  lemma ShareOf(buffer: seq<byte>, flags: seq<bool>, count: nat, l: Life)
    requires Stored(buffer, flags, count, l)
    ensures Count(flags) as real / count as real == Completeness(l)
  {
    SegmentsBelow(l.patches, l.count);
    CountIsSize(flags, Segments(l.patches));
  }

  ghost predicate Shares(completeness: seq<real>, shots: seq<Shot>) {
    |completeness| == |shots| && forall i :: 0 <= i < |completeness| ==> completeness[i] == shots[i].completeness
  }

  lemma SharesWith(completeness: seq<real>, shots: seq<Shot>, shot: Shot)
    requires Shares(completeness, shots)
    ensures Shares(completeness + [shot.completeness], shots + [shot])
  {
  }

  // ----- the program -----------------------------------------------------------------------------

  class Recorder {
    var frames: map<int, seq<byte>>
    var seen: map<int, seq<bool>>
    var segCounts: map<int, nat>
    var lastWritten: seq<byte>
    var malformed: nat
    var completeness: seq<real>
    ghost var value: Value

    ghost predicate Valid()
      reads this
    {
      && Inv(value) && Matches(frames, seen, segCounts, value.lives) && lastWritten == value.lastWritten
      && Shares(completeness, value.shots)
    }

    constructor ()
      ensures Valid() && value == Blank() && malformed == 0
    {
      frames, seen, segCounts := map[], map[], map[];
      lastWritten, malformed, completeness := seq(REAL_BYTES, _ => 0), 0, [];
      value := Blank();
    }

    /** One authenticated header and payload; `raised` if the flag store is out of range. */
    method OnPacket(h: PacketHeader, counter: nat, payload: seq<byte>) returns (raised: bool)
      requires Valid() && NonNegative(h) && |payload| == PAYLOAD
      modifies this
      ensures Handled(h, counter, payload, old(value), value, old(malformed), malformed, raised)
      ensures !raised ==> Valid()
    {
      if h.magic != 0x4F56 || h.version != 0 || h.sessionId != 1 || h.streamId != 1 || h.payloadLength != PAYLOAD
         || h.nonceCounter != counter || h.segmentId >= h.segmentCount || h.segmentCount == 0 {
        malformed := malformed + 1;
        return false;
      }
      raised := OnSegment(h.frameId, h.segmentCount, Patch(h.segmentId, payload));
    }

    method OnSegment(f: int, count: nat, p: Patch) returns (raised: bool)
      requires Valid() && |p.payload| == PAYLOAD && p.segment < count
      modifies this`frames, this`seen, this`segCounts, this`value
      ensures raised <==> Raises(old(value), f, p)
      ensures !raised ==> Valid() && value == Take(old(value), f, count, p)
    {
      if f !in frames { Open(f, count); }
      raised := Place(f, p);
    }

    /** A segment past the picture changes nothing; the buffer is patched even if the flag store then fails. */
    method Place(f: int, p: Patch) returns (raised: bool)
      requires Valid() && f in frames && |p.payload| == PAYLOAD
      modifies this`frames, this`seen, this`value
      ensures raised <==> Raises(old(value), f, p)
      ensures !raised ==> Valid() && value == old(value).(lives := With(old(value).lives, f, p))
    {
      MatchedAt(frames, seen, segCounts, value.lives, f);
      if !Visible(p.segment) {
        WithOutside(value.lives, f, p);
        return false;
      }
      if p.segment >= |seen[f]| {
        frames := frames[f := Patched(frames[f], p)];
        return true;
      }
      Paint(f, p);
      return false;
    }

    /** Patch the buffer, then set the flag. */
    method Paint(f: int, p: Patch)
      requires Valid() && f in value.lives && Storable(p) && !Raises(value, f, p)
      modifies this`frames, this`seen, this`value
      ensures Valid() && value == old(value).(lives := With(old(value).lives, f, p))
    {
      assert lastWritten == value.lastWritten && Shares(completeness, value.shots);
      MatchedAt(frames, seen, segCounts, value.lives, f);
      ghost var v, frames0, seen0 := value, frames, seen;
      frames := frames[f := Patched(frames[f], p)];
      seen := seen[f := seen[f][p.segment := true]];
      value := v.(lives := With(v.lives, f, p));
      Painted(frames0, seen0, segCounts, v.lives, f, p, frames, seen);
      WithKeepsInv(v, f, p);
    }

    /** A new buffer starts as a copy of the last written picture. */
    method Open(f: int, count: nat)
      requires Valid() && f !in frames && count > 0
      modifies this`frames, this`seen, this`segCounts, this`value
      ensures Valid() && value == old(value).(lives := Opened(old(value), f, count))
    {
      ghost var v := value;
      var (fs, ss, cs) := (frames, seen, segCounts);
      if |frames| > MAX_ACTIVE { fs, ss, cs := Evict(frames, seen, segCounts); }
      frames := fs[f := lastWritten];
      seen := ss[f := seq(count, _ => false)];
      segCounts := cs[f := count];
      OpenedMatches(old(frames), old(seen), old(segCounts), v, f, count, fs, ss, cs);
      OpenedKeepsInv(v, f, count);
      value := v.(lives := Opened(v, f, count));
    }

    /** Pops the smallest ids until `MAX_ACTIVE` frames are left. */
    static method Evict(frames: map<int, seq<byte>>, seen: map<int, seq<bool>>, segCounts: map<int, nat>)
      returns (fs: map<int, seq<byte>>, ss: map<int, seq<bool>>, cs: map<int, nat>)
      requires frames.Keys == seen.Keys == segCounts.Keys && |frames| > MAX_ACTIVE
      ensures fs.Keys == ss.Keys == cs.Keys && KeepsLargest(fs.Keys, frames.Keys, MAX_ACTIVE)
      ensures Within(fs, frames) && Within(ss, seen) && Within(cs, segCounts)
    {
      fs, ss, cs := frames, seen, segCounts;
      while |fs| > MAX_ACTIVE
        invariant fs.Keys == ss.Keys == cs.Keys && |fs| >= MAX_ACTIVE && KeepsLargest(fs.Keys, frames.Keys, |fs|)
        invariant Within(fs, frames) && Within(ss, seen) && Within(cs, segCounts)
        decreases |fs|
      {
        var oldest := Smallest(fs.Keys);
        SmallestRemoved(frames.Keys, fs.Keys, oldest, |fs| - 1);
        WithinMinus(fs, frames, oldest, fs - {oldest});
        WithinMinus(ss, seen, oldest, ss - {oldest});
        WithinMinus(cs, segCounts, oldest, cs - {oldest});
        fs, ss, cs := fs - {oldest}, ss - {oldest}, cs - {oldest};
      }
    }

    /** At a tick the newest frame is written and becomes what later frames inherit. */
    method WriteNewest() returns (shot: Option<Shot>)
      requires Valid()
      modifies this
      ensures Valid() && value == Write(old(value)) && malformed == old(malformed)
      ensures shot.None? <==> old(frames) == map[]
      ensures shot.Some? ==> value.shots == old(value).shots + [shot.value]
    {
      if frames == map[] {
        return None;
      }
      var newest := Largest(frames.Keys);
      ghost var v := value;
      MatchedAt(frames, seen, segCounts, v.lives, newest);
      var share := Count(seen[newest]) as real / segCounts[newest] as real;
      shot := Some(Shot(newest, frames[newest][..REAL_BYTES], share));
      ShareOf(frames[newest], seen[newest], segCounts[newest], v.lives[newest]);
      WriteOf(v, newest, frames[newest], share);
      WriteKeepsInv(v);
      SharesWith(completeness, v.shots, shot.value);
      lastWritten := frames[newest];
      completeness := completeness + [share];
      value := Write(v);
    }
  }
}
