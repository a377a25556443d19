/** The 40-octet header `!HBBIHIHHQBBHQBB` and the datagram around it. */
module PacketSchema {
  import opened Bytes

  const HEADER_SIZE_BYTES: nat := 40

  datatype PacketHeader = PacketHeader(
    magic: int, version: int, flags: int, sessionId: int, streamId: int, frameId: int,
    segmentId: int, segmentCount: int, sourceTimestampNs: int, payloadType: int, keyId: int,
    payloadLength: int, nonceCounter: int, tagLength: int, reserved: int)

  const FIELD_COUNT: nat := 15

  function WidthAt(i: nat): nat
    requires i < FIELD_COUNT
  {
    match i
    case 0 => 2 case 1 => 1 case 2 => 1 case 3 => 4 case 4 => 2 case 5 => 4 case 6 => 2 case 7 => 2
    case 8 => 8 case 9 => 1 case 10 => 1 case 11 => 2 case 12 => 8 case 13 => 1 case _ => 1
  }

  function FieldAt(h: PacketHeader, i: nat): int
    requires i < FIELD_COUNT
  {
    match i
    case 0 => h.magic case 1 => h.version case 2 => h.flags case 3 => h.sessionId case 4 => h.streamId
    case 5 => h.frameId case 6 => h.segmentId case 7 => h.segmentCount case 8 => h.sourceTimestampNs
    case 9 => h.payloadType case 10 => h.keyId case 11 => h.payloadLength case 12 => h.nonceCounter
    case 13 => h.tagLength case _ => h.reserved
  }

  function Widths(): (r: seq<nat>)
    ensures |r| == FIELD_COUNT
  {
    seq(FIELD_COUNT, i requires 0 <= i < FIELD_COUNT => WidthAt(i))
  }

  function Fields(h: PacketHeader): (r: seq<int>)
    ensures |r| == FIELD_COUNT
  {
    seq(FIELD_COUNT, i requires 0 <= i < FIELD_COUNT => FieldAt(h, i))
  }

  function OfFields(f: seq<int>): (h: PacketHeader)
    requires |f| == FIELD_COUNT
    ensures Fields(h) == f
  {
    PacketHeader(f[0], f[1], f[2], f[3], f[4], f[5], f[6], f[7], f[8], f[9], f[10], f[11], f[12], f[13], f[14])
  }

  // ----- fixed-width fields in sequence -------------------------------------------------------

  function Total(widths: seq<nat>): nat { if widths == [] then 0 else widths[0] + Total(widths[1..]) }

  predicate Fits(widths: seq<nat>, values: seq<int>) {
    && |widths| == |values|
    && forall i :: 0 <= i < |values| ==> 0 <= values[i] < Pow256(widths[i])
  }

  function Pack(widths: seq<nat>, values: seq<int>): (s: seq<byte>)
    requires Fits(widths, values)
    ensures |s| == Total(widths)
    decreases |values|
  {
    if widths == [] then [] else ToBE(values[0], widths[0]) + Pack(widths[1..], values[1..])
  }

  function Unpack(widths: seq<nat>, s: seq<byte>): (values: seq<int>)
    requires |s| == Total(widths)
    ensures |values| == |widths|
    decreases |widths|, |s|
  {
    if widths == [] then [] else [FromBE(s[..widths[0]])] + Unpack(widths[1..], s[widths[0]..])
  }

  lemma {:induction false} UnpackPack(widths: seq<nat>, values: seq<int>)
    requires Fits(widths, values)
    ensures Unpack(widths, Pack(widths, values)) == values
  {
    if widths != [] {
      UnpackPack(widths[1..], values[1..]);
      EncodeDecode(values[0], widths[0]);
      var s := Pack(widths, values);
      assert s[..widths[0]] == ToBE(values[0], widths[0]) && s[widths[0]..] == Pack(widths[1..], values[1..]);
    }
  }

  lemma {:induction false} PackUnpack(widths: seq<nat>, s: seq<byte>)
    requires |s| == Total(widths)
    ensures Fits(widths, Unpack(widths, s)) && Pack(widths, Unpack(widths, s)) == s
  {
    if widths != [] {
      PackUnpack(widths[1..], s[widths[0]..]);
      FromBEBound(s[..widths[0]]);
      DecodeEncode(s[..widths[0]]);
      var values := Unpack(widths, s);
      assert values[1..] == Unpack(widths[1..], s[widths[0]..]);
      assert s == s[..widths[0]] + s[widths[0]..];
    }
  }

  /** The octets of the fields from number `i` on. */
  function TotalFrom(i: nat): (n: nat)
    requires i <= FIELD_COUNT
    ensures n == Total(Widths()[i..])
    decreases FIELD_COUNT - i
  {
    assert i < FIELD_COUNT ==> Widths()[i..][0] == WidthAt(i) && Widths()[i..][1..] == Widths()[i + 1..];
    if i == FIELD_COUNT then 0 else WidthAt(i) + TotalFrom(i + 1)
  }

  lemma TotalIs40()
    ensures Total(Widths()) == HEADER_SIZE_BYTES
  {
    assert Widths()[0..] == Widths();
    assert TotalFrom(11) == 12;
    assert TotalFrom(7) == 24;
    assert TotalFrom(3) == 36;
    assert TotalFrom(0) == 40;
  }

  // ----- headers and datagrams ----------------------------------------------------------------

  predicate InRange(h: PacketHeader) { Fits(Widths(), Fields(h)) }

  /** `None` where `struct.pack` raises. */
  function PackHeader(h: PacketHeader): (r: Option<seq<byte>>)
    ensures r.Some? <==> InRange(h)
    ensures r.Some? ==> |r.value| == HEADER_SIZE_BYTES
  {
    TotalIs40();
    if InRange(h) then Some(Pack(Widths(), Fields(h))) else None
  }

  predicate NonNegative(h: PacketHeader) {
    && h.frameId >= 0 && h.segmentId >= 0 && h.segmentCount >= 0 && h.payloadLength >= 0 && h.nonceCounter >= 0
    && h.tagLength >= 0
  }

  lemma InRangeIsNonNegative(h: PacketHeader)
    requires InRange(h)
    ensures NonNegative(h)
  {
    var f := Fields(h);
    assert f[5] >= 0 && f[6] >= 0 && f[7] >= 0 && f[11] >= 0 && f[12] >= 0 && f[13] >= 0;
  }

  function UnpackHeader(buf: seq<byte>): (r: Option<PacketHeader>)
    ensures r.Some? <==> |buf| >= HEADER_SIZE_BYTES
    ensures r.Some? ==> NonNegative(r.value)
  {
    if |buf| < HEADER_SIZE_BYTES then None
    else
      TotalIs40();
      PackUnpack(Widths(), buf[..HEADER_SIZE_BYTES]);
      var h := OfFields(Unpack(Widths(), buf[..HEADER_SIZE_BYTES]));
      InRangeIsNonNegative(h);
      Some(h)
  }

  function BuildDatagram(h: PacketHeader, payload: seq<byte>, tag: seq<byte>): Option<seq<byte>> {
    if |payload| != h.payloadLength || |tag| != h.tagLength then None
    else match PackHeader(h)
      case None => None
      case Some(bytes) => Some(bytes + payload + tag)
  }

  function SplitDatagram(d: seq<byte>): Option<(PacketHeader, seq<byte>, seq<byte>)> {
    match UnpackHeader(d)
    case None => None
    case Some(h) => SplitBody(h, d)
  }

  /** The size check and the slices, once the header is known. */
  function SplitBody(h: PacketHeader, d: seq<byte>): (r: Option<(PacketHeader, seq<byte>, seq<byte>)>)
    ensures r.Some? ==> r.value.0 == h && |d| >= HEADER_SIZE_BYTES
                        && d == d[..HEADER_SIZE_BYTES] + r.value.1 + r.value.2
                        && |r.value.1| == h.payloadLength && |r.value.2| == h.tagLength
    ensures r.Some? <==> 0 <= h.payloadLength && 0 <= h.tagLength
                         && |d| == HEADER_SIZE_BYTES + h.payloadLength + h.tagLength
  {
    var end := HEADER_SIZE_BYTES + h.payloadLength;
    if h.payloadLength < 0 || h.tagLength < 0 || |d| != end + h.tagLength then None
    else Some((h, d[HEADER_SIZE_BYTES..end], d[end..]))
  }

  lemma SplitBodyOf(h: PacketHeader, bytes: seq<byte>, payload: seq<byte>, tag: seq<byte>)
    requires |bytes| == HEADER_SIZE_BYTES && |payload| == h.payloadLength && |tag| == h.tagLength
    ensures SplitBody(h, bytes + payload + tag) == Some((h, payload, tag))
  {
  }

  /** Packing then unpacking gives the header back, whatever follows it. */
  lemma UnpackOfPack(h: PacketHeader, rest: seq<byte>)
    requires InRange(h)
    ensures UnpackHeader(PackHeader(h).value + rest) == Some(h)
  {
    TotalIs40();
    UnpackPack(Widths(), Fields(h));
    var bytes := PackHeader(h).value;
    assert (bytes + rest)[..HEADER_SIZE_BYTES] == bytes;
    FieldsDetermine(OfFields(Fields(h)), h);
  }

  lemma FieldsDetermine(a: PacketHeader, b: PacketHeader)
    requires Fields(a) == Fields(b)
    ensures a == b
  {
    var f, g := Fields(a), Fields(b);
    assert f[0] == g[0] && f[1] == g[1] && f[2] == g[2] && f[3] == g[3] && f[4] == g[4];
    assert f[5] == g[5] && f[6] == g[6] && f[7] == g[7] && f[8] == g[8] && f[9] == g[9];
    assert f[10] == g[10] && f[11] == g[11] && f[12] == g[12] && f[13] == g[13] && f[14] == g[14];
  }

  /** Unpacking then packing gives the 40 octets back. */
  lemma PackOfUnpack(buf: seq<byte>)
    requires |buf| >= HEADER_SIZE_BYTES
    ensures PackHeader(UnpackHeader(buf).value) == Some(buf[..HEADER_SIZE_BYTES])
  {
    TotalIs40();
    PackUnpack(Widths(), buf[..HEADER_SIZE_BYTES]);
  }

  // ----- where each field stands ---------------------------------------------------------------

  lemma PackHead(widths: seq<nat>, values: seq<int>)
    requires Fits(widths, values) && widths != []
    ensures widths[0] <= Total(widths) && Pack(widths, values)[..widths[0]] == ToBE(values[0], widths[0])
    ensures Pack(widths, values)[widths[0]..] == Pack(widths[1..], values[1..])
  {
  }

  /** The octets from field `i` on are the packed fields from `i` on. */
  lemma {:induction false} PackTail(widths: seq<nat>, values: seq<int>, i: nat, from: int)
    requires Fits(widths, values) && i <= |widths| && from == Total(widths) - Total(widths[i..])
    ensures 0 <= from && Pack(widths, values)[from..] == Pack(widths[i..], values[i..])
    decreases i
  {
    if i == 0 {
      assert widths[0..] == widths && values[0..] == values;
    } else {
      var w, f, all := widths[1..], values[1..], Pack(widths, values);
      PackHead(widths, values);
      assert w[i - 1..] == widths[i..] && f[i - 1..] == values[i..];
      PackTail(w, f, i - 1, from - widths[0]);
      Twice(all, widths[0], from - widths[0], from);
    }
  }

  lemma Twice(s: seq<byte>, a: nat, b: nat, c: nat)
    requires c == a + b <= |s|
    ensures s[a..][b..] == s[c..] && s[a..][..b] == s[a..c]
  {
  }

  lemma PackAt(widths: seq<nat>, values: seq<int>, i: nat, from: int)
    requires Fits(widths, values) && i < |widths| && from == Total(widths) - Total(widths[i..])
    ensures 0 <= from && from + widths[i] <= Total(widths)
    ensures Pack(widths, values)[from..from + widths[i]] == ToBE(values[i], widths[i])
  {
    PackTail(widths, values, i, from);
    PackHead(widths[i..], values[i..]);
    Twice(Pack(widths, values), from, widths[i], from + widths[i]);
  }

  /** Octets `from` to `to` of a string are a number, most significant octet first. */
  predicate Reads(b: seq<byte>, from: nat, to: nat, value: int) {
    from <= to <= |b| && FromBE(b[from..to]) == value
  }

  /** The wire layout of the header, field by field. */
  predicate Layout(b: seq<byte>, h: PacketHeader) { FrameLayout(b, h) && PayloadLayout(b, h) }

  predicate FrameLayout(b: seq<byte>, h: PacketHeader) {
    && Reads(b, 0, 2, h.magic) && Reads(b, 2, 3, h.version) && Reads(b, 3, 4, h.flags)
    && Reads(b, 4, 8, h.sessionId) && Reads(b, 8, 10, h.streamId) && Reads(b, 10, 14, h.frameId)
    && Reads(b, 14, 16, h.segmentId) && Reads(b, 16, 18, h.segmentCount)
  }

  predicate PayloadLayout(b: seq<byte>, h: PacketHeader) {
    && Reads(b, 18, 26, h.sourceTimestampNs) && Reads(b, 26, 27, h.payloadType) && Reads(b, 27, 28, h.keyId)
    && Reads(b, 28, 30, h.payloadLength) && Reads(b, 30, 38, h.nonceCounter) && Reads(b, 38, 39, h.tagLength)
    && Reads(b, 39, 40, h.reserved)
  }

  lemma PackReads(widths: seq<nat>, values: seq<int>, i: nat, from: nat, to: nat, value: int)
    requires Fits(widths, values) && i < |widths| && from == Total(widths) - Total(widths[i..])
    requires to == from + widths[i] && value == values[i]
    ensures Reads(Pack(widths, values), from, to, value)
  {
    PackAt(widths, values, i, from);
    ReadsEncoded(Pack(widths, values), from, to, values[i], widths[i]);
  }

  lemma ReadsEncoded(b: seq<byte>, from: nat, to: nat, n: nat, k: nat)
    requires from <= to <= |b| && n < Pow256(k) && b[from..to] == ToBE(n, k)
    ensures Reads(b, from, to, n)
  {
    EncodeDecode(n, k);
  }

  lemma FieldReads(h: PacketHeader, i: nat, from: nat, to: nat, value: int)
    requires InRange(h) && i < FIELD_COUNT && from == HEADER_SIZE_BYTES - TotalFrom(i)
    requires to == from + Widths()[i] && value == Fields(h)[i]
    ensures Reads(PackHeader(h).value, from, to, value)
  {
    TotalIs40();
    PackReads(Widths(), Fields(h), i, from, to, value);
  }

  lemma TotalsFrom()
    ensures TotalFrom(14) == 1 && TotalFrom(13) == 2 && TotalFrom(12) == 10 && TotalFrom(11) == 12
    ensures TotalFrom(10) == 13 && TotalFrom(9) == 14 && TotalFrom(8) == 22 && TotalFrom(7) == 24
    ensures TotalFrom(6) == 26 && TotalFrom(5) == 30 && TotalFrom(4) == 32 && TotalFrom(3) == 36
    ensures TotalFrom(2) == 37 && TotalFrom(1) == 38 && TotalFrom(0) == 40
  {
    assert TotalFrom(11) == 12;
    assert TotalFrom(7) == 24;
    assert TotalFrom(3) == 36;
  }

  lemma PackedFrameLayout(h: PacketHeader)
    requires InRange(h)
    ensures FrameLayout(PackHeader(h).value, h)
  {
    TotalsFrom();
    FieldReads(h, 0, 0, 2, h.magic);
    FieldReads(h, 1, 2, 3, h.version);
    FieldReads(h, 2, 3, 4, h.flags);
    FieldReads(h, 3, 4, 8, h.sessionId);
    FieldReads(h, 4, 8, 10, h.streamId);
    FieldReads(h, 5, 10, 14, h.frameId);
    FieldReads(h, 6, 14, 16, h.segmentId);
    FieldReads(h, 7, 16, 18, h.segmentCount);
  }

  lemma PackedPayloadLayout(h: PacketHeader)
    requires InRange(h)
    ensures PayloadLayout(PackHeader(h).value, h)
  {
    TotalsFrom();
    FieldReads(h, 8, 18, 26, h.sourceTimestampNs);
    FieldReads(h, 9, 26, 27, h.payloadType);
    FieldReads(h, 10, 27, 28, h.keyId);
    FieldReads(h, 11, 28, 30, h.payloadLength);
    FieldReads(h, 12, 30, 38, h.nonceCounter);
    FieldReads(h, 13, 38, 39, h.tagLength);
    FieldReads(h, 14, 39, 40, h.reserved);
  }

  /** A packed header has its fields at these places. */
  lemma PackedLayout(h: PacketHeader)
    requires InRange(h)
    ensures Layout(PackHeader(h).value, h)
  {
    PackedFrameLayout(h);
    PackedPayloadLayout(h);
  }

  lemma ReadsPrefix(b: seq<byte>, rest: seq<byte>, from: nat, to: nat, value: int)
    requires Reads(b, from, to, value)
    ensures Reads(b + rest, from, to, value)
  {
    assert (b + rest)[from..to] == b[from..to];
  }

  lemma LayoutPrefix(b: seq<byte>, rest: seq<byte>, h: PacketHeader)
    requires Layout(b, h)
    ensures Layout(b + rest, h)
  {
    ReadsPrefix(b, rest, 0, 2, h.magic);
    ReadsPrefix(b, rest, 2, 3, h.version);
    ReadsPrefix(b, rest, 3, 4, h.flags);
    ReadsPrefix(b, rest, 4, 8, h.sessionId);
    ReadsPrefix(b, rest, 8, 10, h.streamId);
    ReadsPrefix(b, rest, 10, 14, h.frameId);
    ReadsPrefix(b, rest, 14, 16, h.segmentId);
    ReadsPrefix(b, rest, 16, 18, h.segmentCount);
    ReadsPrefix(b, rest, 18, 26, h.sourceTimestampNs);
    ReadsPrefix(b, rest, 26, 27, h.payloadType);
    ReadsPrefix(b, rest, 27, 28, h.keyId);
    ReadsPrefix(b, rest, 28, 30, h.payloadLength);
    ReadsPrefix(b, rest, 30, 38, h.nonceCounter);
    ReadsPrefix(b, rest, 38, 39, h.tagLength);
    ReadsPrefix(b, rest, 39, 40, h.reserved);
  }

  /** An unpacked header reads its fields from these places. */
  lemma UnpackedLayout(buf: seq<byte>)
    requires |buf| >= HEADER_SIZE_BYTES
    ensures Layout(buf, UnpackHeader(buf).value)
  {
    var h := UnpackHeader(buf).value;
    PackOfUnpack(buf);
    PackedLayout(h);
    LayoutPrefix(buf[..HEADER_SIZE_BYTES], buf[HEADER_SIZE_BYTES..], h);
    assert buf == buf[..HEADER_SIZE_BYTES] + buf[HEADER_SIZE_BYTES..];
  }

  // ----- datagrams ---------------------------------------------------------------------------------

  lemma SplitOfBuild(h: PacketHeader, payload: seq<byte>, tag: seq<byte>)
    requires BuildDatagram(h, payload, tag).Some?
    ensures SplitDatagram(BuildDatagram(h, payload, tag).value) == Some((h, payload, tag))
  {
    var d := BuildDatagram(h, payload, tag).value;
    UnpackOfBuilt(h, payload, tag, d);
    SplitBodyOf(h, PackHeader(h).value, payload, tag);
  }

  lemma UnpackOfBuilt(h: PacketHeader, payload: seq<byte>, tag: seq<byte>, d: seq<byte>)
    requires InRange(h) && d == PackHeader(h).value + payload + tag
    ensures UnpackHeader(d) == Some(h)
  {
    UnpackOfPack(h, payload + tag);
    assert d == PackHeader(h).value + (payload + tag);
  }

  lemma BuildOfSplit(d: seq<byte>)
    requires SplitDatagram(d).Some?
    ensures var (h, payload, tag) := SplitDatagram(d).value; BuildDatagram(h, payload, tag) == Some(d)
  {
    PackOfUnpack(d);
    var h := UnpackHeader(d).value;
    assert SplitBody(h, d).Some?;
  }

  /** Splitting succeeds exactly on datagrams as long as their own header says. */
  lemma SplitSucceedsIffWellSized(d: seq<byte>)
    ensures SplitDatagram(d).Some? <==>
              exists h: PacketHeader, payload: seq<byte>, tag: seq<byte> :: BuildDatagram(h, payload, tag) == Some(d)
  {
    if SplitDatagram(d).Some? {
      BuildOfSplit(d);
    }
    if h: PacketHeader, payload: seq<byte>, tag: seq<byte> :| BuildDatagram(h, payload, tag) == Some(d) {
      SplitOfBuild(h, payload, tag);
    }
  }
}
