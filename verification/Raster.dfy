/** The recorder's frame buffer: a picture that arriving segments are patched into. */
module Raster {
  import opened Bytes

  const PAYLOAD: nat := 1320
  const REAL_BYTES: nat := 2764800
  const GROWN_BYTES: nat := 2765400
  const LAST_VISIBLE: nat := 2094

  /** One segment of a frame. */
  datatype Patch = Patch(segment: nat, payload: seq<byte>)

  /** `off < REAL_BYTES` */
  predicate Visible(segment: nat)
    ensures Visible(segment) <==> segment <= LAST_VISIBLE
  {
    segment * PAYLOAD < REAL_BYTES
  }

  /** Whole and visible: what the recorder stores. */
  predicate Storable(p: Patch) { Visible(p.segment) && |p.payload| == PAYLOAD }

  predicate Sized(buffer: seq<byte>) { |buffer| == REAL_BYTES || |buffer| == GROWN_BYTES }

  /** Slice assignment at the segment's offset; past the end it makes the buffer longer. */
  function Patched(buffer: seq<byte>, p: Patch): (r: seq<byte>)
    requires Sized(buffer) && Storable(p)
    ensures |r| == if p.segment == LAST_VISIBLE then GROWN_BYTES else |buffer|
  {
    var off := p.segment * PAYLOAD;
    var end := off + PAYLOAD;
    buffer[..off] + p.payload + if end <= |buffer| then buffer[end..] else []
  }

  ghost predicate AllStorable(patches: seq<Patch>) { forall i :: 0 <= i < |patches| ==> Storable(patches[i]) }

  ghost function Render(base: seq<byte>, patches: seq<Patch>): (r: seq<byte>)
    requires Sized(base) && AllStorable(patches)
    ensures Sized(r)
  {
    if patches == [] then base else Patched(Render(base, patches[..|patches| - 1]), patches[|patches| - 1])
  }

  /** The payload that arrived last for a segment. */
  ghost function Latest(patches: seq<Patch>, segment: nat): Option<seq<byte>> {
    if patches == [] then None
    else if patches[|patches| - 1].segment == segment then Some(patches[|patches| - 1].payload)
    else Latest(patches[..|patches| - 1], segment)
  }

  lemma PatchedAt(buffer: seq<byte>, p: Patch, pos: nat)
    requires Sized(buffer) && Storable(p) && pos < |Patched(buffer, p)|
    ensures pos / PAYLOAD == p.segment ==> Patched(buffer, p)[pos] == p.payload[pos % PAYLOAD]
    ensures pos / PAYLOAD != p.segment ==> pos < |buffer| && Patched(buffer, p)[pos] == buffer[pos]
  {
    var off := p.segment * PAYLOAD;
    var k, rest := pos / PAYLOAD, pos % PAYLOAD;
    assert pos == k * PAYLOAD + rest;
    if k == p.segment {
      assert pos - off == rest;
    } else if k < p.segment {
      assert pos < off;
    } else {
      assert pos >= off + PAYLOAD;
    }
  }

  /**
   * Every octet of the buffer is the one that arrived last for its place in its segment, or
   * was inherited; and the buffer is longer than the picture only because of its last segment.
   */
  lemma {:induction false} OctetLaw(base: seq<byte>, patches: seq<Patch>, pos: nat)
    requires Sized(base) && AllStorable(patches) && pos < |Render(base, patches)|
    ensures match Latest(patches, pos / PAYLOAD)
            case Some(payload) => |payload| == PAYLOAD && Render(base, patches)[pos] == payload[pos % PAYLOAD]
            case None => pos < |base| && Render(base, patches)[pos] == base[pos]
    ensures |Render(base, patches)| == if Latest(patches, LAST_VISIBLE).Some? then GROWN_BYTES else |base|
  {
    if patches != [] {
      var n := |patches| - 1;
      var before := Render(base, patches[..n]);
      PatchedAt(before, patches[n], pos);
      OctetLaw(base, patches[..n], if pos < |before| then pos else 0);
    }
  }

  // ----- which segments have been seen ---------------------------------------------------------

  function Count(flags: seq<bool>): (n: nat)
    ensures n <= |flags|
  {
    if flags == [] then 0 else Count(flags[..|flags| - 1]) + if flags[|flags| - 1] then 1 else 0
  }

  ghost function Segments(patches: seq<Patch>): set<nat> {
    if patches == [] then {} else Segments(patches[..|patches| - 1]) + {patches[|patches| - 1].segment}
  }

  lemma {:induction false} SegmentsIff(patches: seq<Patch>, k: nat)
    ensures k in Segments(patches) <==> exists i :: 0 <= i < |patches| && patches[i].segment == k
  {
    if patches != [] {
      var n := |patches| - 1;
      SegmentsIff(patches[..n], k);
      if i :| 0 <= i < |patches| && patches[i].segment == k {
        assert i < n ==> patches[..n][i].segment == k;
      }
      if i :| 0 <= i < n && patches[..n][i].segment == k {
        assert patches[i].segment == k;
      }
    }
  }

  /** Segment numbers below a bound give a set below it. */
  lemma SegmentsBelow(patches: seq<Patch>, n: nat)
    requires forall i :: 0 <= i < |patches| ==> patches[i].segment < n
    ensures forall k :: k in Segments(patches) ==> k < n
  {
    forall k | k in Segments(patches) ensures k < n { SegmentsIff(patches, k); }
  }

  lemma {:induction false} CountIsSize(flags: seq<bool>, ids: set<nat>)
    requires (forall k :: 0 <= k < |flags| ==> flags[k] == (k in ids)) && forall k :: k in ids ==> k < |flags|
    ensures Count(flags) == |ids|
    decreases |flags|
  {
    if flags == [] {
      assert ids == {};
    } else {
      var n := |flags| - 1;
      CountIsSize(flags[..n], ids - {n});
      assert n in ids ==> ids == (ids - {n}) + {n};
      assert n !in ids ==> ids == ids - {n};
    }
  }

  ghost predicate HasAll(ids: set<nat>, n: nat) { forall k: nat :: k < n ==> k in ids }

  lemma BoundedIds(ids: set<nat>, n: nat)
    requires forall k :: k in ids ==> k < n
    ensures |ids| <= n && (|ids| == n <==> HasAll(ids, n))
  {
    var flags := seq(n, k requires 0 <= k < n => k in ids);
    CountIsSize(flags, ids);
    FullCount(flags);
    assert forall k :: 0 <= k < n ==> flags[k] == (k in ids);
  }

  lemma {:induction false} FullCount(flags: seq<bool>)
    ensures Count(flags) == |flags| <==> forall k :: 0 <= k < |flags| ==> flags[k]
    decreases |flags|
  {
    if flags != [] {
      var n := |flags| - 1;
      FullCount(flags[..n]);
      assert forall k :: 0 <= k < n ==> flags[..n][k] == flags[k];
    }
  }

  lemma {:induction false} LatestArrived(patches: seq<Patch>, segment: nat)
    requires Latest(patches, segment).Some?
    ensures Patch(segment, Latest(patches, segment).value) in patches
  {
    var n := |patches| - 1;
    if patches[n].segment != segment { LatestArrived(patches[..n], segment); }
  }

  lemma {:induction false} LatestIffSeen(patches: seq<Patch>, segment: nat)
    ensures Latest(patches, segment).Some? <==> segment in Segments(patches)
  {
    if patches != [] { LatestIffSeen(patches[..|patches| - 1], segment); }
  }
}
