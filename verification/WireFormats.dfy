/** What the receiver makes of one datagram, for each format it can meet on the wire. */
module WireFormats {
  import opened Bytes
  import opened PacketSchema
  import opened Validation
  import opened FrameSender
  import opened FrameReceiver
  import opened ReassemblyTheorems
  import NonceWindow

  ghost function Decrypted(s: Settings, p: Parsed): Option<Arrival> {
    if p.header.keyId != s.keyId then None
    else match Text(s.cipher, p)
      case None => None
      case Some(text) => Some(Arrival(p.header, text))
  }

  /** The segment a datagram contributes to reassembly, if its nonce is accepted. */
  ghost function Contents(s: Settings, d: seq<byte>): Option<Arrival> {
    match Parse(s.cipher, d)
    case None => None
    case Some(p) => if WellFormed(p.header) then Decrypted(s, p) else None
  }

  /** Only strict mode drops a segment for its nonce. */
  predicate NonceFits(s: Settings, w: NonceWindow.Window, nonce: int) {
    s.strict ==> NonceWindow.Accepts(w, ReorderWindow(s), nonce)
  }

  ghost function ArrivalOf(s: Settings, w: NonceWindow.Window, d: seq<byte>): Option<Arrival> {
    match Contents(s, d)
    case None => None
    case Some(a) => if NonceFits(s, w, a.header.nonceCounter) then Some(a) else None
  }

  ghost function WindowAfter(s: Settings, w: NonceWindow.Window, d: seq<byte>): NonceWindow.Window {
    match Parse(s.cipher, d)
    case None => w
    case Some(p) =>
      if WellFormed(p.header) then NonceWindow.Next(w, s.replayWindow, ReorderWindow(s), p.header.nonceCounter) else w
  }

  /** Admit or count a drop, then push: the state and output that follow. */
  ghost function Admit(st: State, arrival: Option<Arrival>): (State, Option<seq<byte>>) {
    match arrival
    case None => (st.(dropped := st.dropped + 1), None)
    case Some(a) =>
      var out := Output(st.table, MAX_ACTIVE_FRAMES, a);
      (st.(table := Next(st.table, MAX_ACTIVE_FRAMES, a), completed := st.completed + if out.Some? then 1 else 0), out)
  }

  lemma OpenedIsPush(s: Settings, st: State, p: Parsed)
    ensures Opened(s, st, p) == Admit(st, Decrypted(s, p))
  {
  }

  /** The receive loop body moves the window, then admits one segment or counts one drop. */
  lemma ReceivedIsPush(s: Settings, st: State, d: seq<byte>)
    ensures Received(s, st, d) == Admit(st.(window := WindowAfter(s, st.window, d)), ArrivalOf(s, st.window, d))
  {
    var parsed := Parse(s.cipher, d);
    if parsed.Some? { HandledIsPush(s, st, parsed.value); }
  }

  ghost function Admitted(s: Settings, w: NonceWindow.Window, p: Parsed): Option<Arrival> {
    if WellFormed(p.header) && NonceFits(s, w, p.header.nonceCounter) then Decrypted(s, p) else None
  }

  ghost function Checked(s: Settings, w: NonceWindow.Window, p: Parsed): NonceWindow.Window {
    if WellFormed(p.header) then NonceWindow.Next(w, s.replayWindow, ReorderWindow(s), p.header.nonceCounter) else w
  }

  lemma HandledIsPush(s: Settings, st: State, p: Parsed)
    ensures Handled(s, st, p) == Admit(st.(window := Checked(s, st.window, p)), Admitted(s, st.window, p))
  {
    if WellFormed(p.header) { OpenedIsPush(s, st.(window := Checked(s, st.window, p)), p); }
  }

  // ----- the software sender's datagrams -------------------------------------------------------

  /** Segments the receiver can take: not too long, and not one whose datagram looks like a slot. */
  predicate Acceptable(segment: seq<byte>) { |segment| <= 1400 && |segment| != 1352 }

  lemma MagicFirst(h: PacketHeader)
    requires InRange(h)
    ensures PackHeader(h).value[0..2] == ToBE(h.magic, 2)
  {
    TotalIs40();
    assert Widths()[0] == WidthAt(0) && Fields(h)[0] == FieldAt(h, 0);
    assert Pack(Widths(), Fields(h)) == ToBE(h.magic, 2) + Pack(Widths()[1..], Fields(h)[1..]);
  }

  lemma MagicOctets()
    ensures ToBE(MAGIC, 2) == [0x4F, 0x56]
  {
    assert ToBE(MAGIC, 2) == ToBE(0x4F, 1) + [0x56];
    assert ToBE(0x4F, 1) == ToBE(0, 0) + [0x4F];
  }

  lemma SplitOfPrefix(d: seq<byte>, k: nat, h: PacketHeader)
    requires HEADER_SIZE_BYTES <= k <= |d| && UnpackHeader(d) == Some(h)
    ensures UnpackHeader(d[..k]) == Some(h)
    ensures SplitDatagram(d[..k]).Some? <==> 0 <= h.payloadLength && 0 <= h.tagLength
                                             && k == HEADER_SIZE_BYTES + h.payloadLength + h.tagLength
  {
    assert d[..k][..HEADER_SIZE_BYTES] == d[..HEADER_SIZE_BYTES];
  }

  /** A well-sized datagram with the magic at its front. */
  lemma BodyOfMagic(c: Cipher, d: seq<byte>, h: PacketHeader)
    requires |d| >= HEADER_SIZE_BYTES && UnpackHeader(d) == Some(h) && d[0..2] == [0x4F, 0x56]
    requires |d| == HEADER_SIZE_BYTES + h.payloadLength + h.tagLength && h.payloadLength >= 0 && h.tagLength >= 0
    ensures ParseBody(c, d) == Some(Parsed(h, d[HEADER_SIZE_BYTES..HEADER_SIZE_BYTES + h.payloadLength],
                                           d[HEADER_SIZE_BYTES + h.payloadLength..], false))
  {
  }

  /** If it has the size of a slot it is dropped: stripped, it is too short for its own header. */
  lemma ParseOfMagic(c: Cipher, d: seq<byte>, h: PacketHeader)
    requires |d| >= HEADER_SIZE_BYTES && UnpackHeader(d) == Some(h) && d[0..2] == [0x4F, 0x56]
    requires |d| == HEADER_SIZE_BYTES + h.payloadLength + h.tagLength && h.payloadLength >= 0 && h.tagLength >= 0
    ensures Parse(c, d) == if |d| == TRANSPORT_SLOT_BYTES then None else ParseBody(c, d)
  {
    if |d| == TRANSPORT_SLOT_BYTES && Strip(d).Some? {
      var b := Strip(d).value;
      assert b == d[..AUTHENTICATED_BODY_BYTES];
      assert b[0..2] == d[0..2];
      SplitOfPrefix(d, AUTHENTICATED_BODY_BYTES, h);
    }
  }

  /** A zero-padded slot is read as what it pads. */
  lemma ParseOfPadded(c: Cipher, d: seq<byte>, b: seq<byte>)
    requires |b| == AUTHENTICATED_BODY_BYTES && d == b + seq(24, _ => 0)
    ensures Parse(c, d) == ParseBody(c, b)
  {
    assert d[..AUTHENTICATED_BODY_BYTES] == b && d[AUTHENTICATED_BODY_BYTES..] == seq(24, _ => 0);
    StripIff(d);
  }

  lemma DatagramParts(c: Cipher, s: Stream, id: nat, count: nat, segment: seq<byte>, nonce: nat, timestamp: nat)
    requires Sound(c) && Packable(s, id, count, |segment|, nonce, timestamp)
    ensures InRange(HeaderFor(s, id, count, |segment|, nonce, timestamp))
    ensures var h := HeaderFor(s, id, count, |segment|, nonce, timestamp);
            var (ct, tag) := c.seal(Nonce(nonce), PackHeader(h).value, segment);
            && |ct| == |segment| && |tag| == 16
            && Datagram(c, s, id, count, segment, nonce, timestamp) == Some(PackHeader(h).value + ct + tag)
  {
    PackableFits(s, id, count, |segment|, nonce, timestamp);
  }

  lemma FrontOfBuilt(h: PacketHeader, payload: seq<byte>, tag: seq<byte>, d: seq<byte>)
    requires InRange(h) && h.magic == MAGIC && d == PackHeader(h).value + payload + tag
    requires |payload| == h.payloadLength && |tag| == h.tagLength
    ensures UnpackHeader(d) == Some(h) && d[0..2] == [0x4F, 0x56]
    ensures d[HEADER_SIZE_BYTES..HEADER_SIZE_BYTES + |payload|] == payload
    ensures d[HEADER_SIZE_BYTES + |payload|..] == tag
  {
    UnpackOfBuilt(h, payload, tag, d);
    MagicFirst(h);
    MagicOctets();
    assert d[0..2] == PackHeader(h).value[0..2];
  }

  /** Authenticated text under its own header opens to the segment. */
  lemma TextOfSealed(c: Cipher, h: PacketHeader, segment: seq<byte>, p: Parsed)
    requires Sound(c) && InRange(h) && h.nonceCounter >= 0
    requires var (ct, tag) := c.seal(Nonce(h.nonceCounter), PackHeader(h).value, segment);
             p == Parsed(h, ct, tag, false)
    ensures Text(c, p) == Some(segment)
  {
  }

  /** What one sender datagram becomes: its own segment when acceptable, nothing otherwise. */
  lemma SentDatagramArrives(s: Settings, stream: Stream, id: nat, count: nat, segment: seq<byte>, nonce: nat,
                            timestamp: nat)
    requires Sound(s.cipher) && Packable(stream, id, count, |segment|, nonce, timestamp)
    requires stream.keyId == s.keyId && id < count
    ensures var d := Datagram(s.cipher, stream, id, count, segment, nonce, timestamp);
            && d.Some?
            && Contents(s, d.value) ==
               if Acceptable(segment)
               then Some(Arrival(HeaderFor(stream, id, count, |segment|, nonce, timestamp), segment))
               else None
    ensures var d := Datagram(s.cipher, stream, id, count, segment, nonce, timestamp).value;
            forall w :: WindowAfter(s, w, d) ==
                        if Acceptable(segment) then NonceWindow.Next(w, s.replayWindow, ReorderWindow(s), nonce) else w
  {
    var c, h := s.cipher, HeaderFor(stream, id, count, |segment|, nonce, timestamp);
    DatagramParts(c, stream, id, count, segment, nonce, timestamp);
    var (ct, tag) := c.seal(Nonce(nonce), PackHeader(h).value, segment);
    var d := PackHeader(h).value + ct + tag;
    FrontOfBuilt(h, ct, tag, d);
    BodyOfMagic(c, d, h);
    ParseOfMagic(c, d, h);
    if |d| != TRANSPORT_SLOT_BYTES {
      TextOfSealed(c, h, segment, Parsed(h, ct, tag, false));
    }
  }

  // ----- transport slots -------------------------------------------------------------------------

  /** A slot that starts with the magic parses exactly when a 1,384-octet datagram is padded with zeros. */
  lemma MagicSlotParsesIff(c: Cipher, d: seq<byte>)
    requires |d| == TRANSPORT_SLOT_BYTES && d[0..2] == [0x4F, 0x56]
    ensures UnpackHeader(d).Some?
    ensures var h := UnpackHeader(d).value;
            Parse(c, d).Some? <==> d[AUTHENTICATED_BODY_BYTES..] == seq(24, _ => 0)
                                   && h.payloadLength + h.tagLength == AUTHENTICATED_BODY_BYTES - HEADER_SIZE_BYTES
  {
    var h := UnpackHeader(d).value;
    SplitOfPrefix(d, AUTHENTICATED_BODY_BYTES, h);
    StripIff(d);
    if Strip(d).Some? {
      assert Strip(d).value[0..2] == d[0..2];
    }
  }

  lemma StripIff(d: seq<byte>)
    requires |d| == TRANSPORT_SLOT_BYTES
    ensures Strip(d) ==
            if d[AUTHENTICATED_BODY_BYTES..] == seq(24, _ => 0) then Some(d[..AUTHENTICATED_BODY_BYTES]) else None
  {
    var tail, zeros := d[AUTHENTICATED_BODY_BYTES..], seq(24, _ => 0);
    if Strip(d).None? {
      var i :| AUTHENTICATED_BODY_BYTES <= i < |d| && d[i] != 0;
      assert tail[i - AUTHENTICATED_BODY_BYTES] != zeros[i - AUTHENTICATED_BODY_BYTES];
    }
  }

  /** What a slot that starts with the magic contributes: a zero-padded datagram with 1,328 octets of text. */
  ghost function PaddedContents(s: Settings, d: seq<byte>): Option<Arrival>
    requires |d| == TRANSPORT_SLOT_BYTES
  {
    var h := UnpackHeader(d).value;
    if d[AUTHENTICATED_BODY_BYTES..] == seq(24, _ => 0) && h.payloadLength == 1328
       && WellFormed(h) && h.keyId == s.keyId
    then
      match s.cipher.open([0, 0, 0, 1] + d[30..38], d[..40], d[40..1368], d[1368..1384])
      case None => None
      case Some(text) => Some(Arrival(h, text))
    else None
  }

  /** A slot that starts with the magic is dropped unless it is such a datagram and authentic. */
  lemma MagicSlotContents(s: Settings, d: seq<byte>)
    requires |d| == TRANSPORT_SLOT_BYTES && d[0..2] == [0x4F, 0x56]
    ensures Contents(s, d) == PaddedContents(s, d)
  {
    var h := UnpackHeader(d).value;
    MagicSlotParsesIff(s.cipher, d);
    if Parse(s.cipher, d).Some? && WellFormed(h) {
      PaddedParts(s.cipher, d, h);
      TextOfReceived(s.cipher, d, h, d[40..1368], d[1368..1384]);
    } else if Parse(s.cipher, d).Some? {
      PaddedHeader(s.cipher, d, h);
    }
  }

  lemma PaddedHeader(c: Cipher, d: seq<byte>, h: PacketHeader)
    requires |d| == TRANSPORT_SLOT_BYTES && d[0..2] == [0x4F, 0x56] && UnpackHeader(d) == Some(h) && Parse(c, d).Some?
    ensures Parse(c, d).value.header == h
    ensures h.payloadLength + h.tagLength == AUTHENTICATED_BODY_BYTES - HEADER_SIZE_BYTES
    ensures var n := HEADER_SIZE_BYTES + h.payloadLength;
            Parse(c, d) == Some(Parsed(h, d[HEADER_SIZE_BYTES..n], d[n..AUTHENTICATED_BODY_BYTES], false))
  {
    var b := d[..AUTHENTICATED_BODY_BYTES];
    MagicSlotParsesIff(c, d);
    SplitOfPrefix(d, AUTHENTICATED_BODY_BYTES, h);
    assert b[0..2] == d[0..2] && d == b + seq(24, _ => 0);
    ParseOfPadded(c, d, b);
    BodyOfMagic(c, b, h);
    var n := HEADER_SIZE_BYTES + h.payloadLength;
    assert b[HEADER_SIZE_BYTES..n] == d[HEADER_SIZE_BYTES..n] && b[n..] == d[n..AUTHENTICATED_BODY_BYTES];
  }

  lemma PaddedParts(c: Cipher, d: seq<byte>, h: PacketHeader)
    requires |d| == TRANSPORT_SLOT_BYTES && d[0..2] == [0x4F, 0x56] && UnpackHeader(d) == Some(h) && Parse(c, d).Some?
    requires WellFormed(h)
    ensures h.payloadLength == 1328 && Parse(c, d) == Some(Parsed(h, d[40..1368], d[1368..1384], false))
  {
    PaddedHeader(c, d, h);
  }

  /** Decrypting a received datagram uses its own first 40 octets as additional data. */
  lemma TextOfReceived(c: Cipher, d: seq<byte>, h: PacketHeader, payload: seq<byte>, tag: seq<byte>)
    requires UnpackHeader(d) == Some(h)
    ensures |d| >= 40
    ensures Text(c, Parsed(h, payload, tag, false)) == c.open([0, 0, 0, 1] + d[30..38], d[..40], payload, tag)
  {
    PackOfUnpack(d);
    UnpackedLayout(d);
    NonceOnWire(d, h.nonceCounter);
  }

  /** Eight octets that read as a counter are that counter's nonce. */
  lemma NonceOnWire(d: seq<byte>, nonce: nat)
    requires Reads(d, 30, 38, nonce)
    ensures Nonce(nonce) == [0, 0, 0, 1] + d[30..38]
  {
    DecodeEncode(d[30..38]);
  }

  /** Such slots exist: the sender's datagram of 1,328 octets, padded, comes through. */
  lemma PaddedDatagramArrives(s: Settings, stream: Stream, id: nat, count: nat, segment: seq<byte>, nonce: nat,
                              timestamp: nat) returns (d: seq<byte>)
    requires Sound(s.cipher) && Packable(stream, id, count, |segment|, nonce, timestamp)
    requires stream.keyId == s.keyId && id < count && |segment| == 1328
    ensures var sent := Datagram(s.cipher, stream, id, count, segment, nonce, timestamp);
            sent.Some? && d == sent.value + seq(24, _ => 0)
    ensures |d| == TRANSPORT_SLOT_BYTES && d[0..2] == [0x4F, 0x56]
    ensures Contents(s, d) == Some(Arrival(HeaderFor(stream, id, count, |segment|, nonce, timestamp), segment))
  {
    var c, h := s.cipher, HeaderFor(stream, id, count, |segment|, nonce, timestamp);
    DatagramParts(c, stream, id, count, segment, nonce, timestamp);
    var (ct, tag) := c.seal(Nonce(nonce), PackHeader(h).value, segment);
    var b := PackHeader(h).value + ct + tag;
    d := b + seq(24, _ => 0);
    FrontOfBuilt(h, ct, tag, b);
    BodyOfMagic(c, b, h);
    ParseOfPadded(c, d, b);
    TextOfSealed(c, h, segment, Parsed(h, ct, tag, false));
    assert d[0..2] == b[0..2];
  }

  /** What a datagram that starts with the magic contributes, unless it has the size of a slot. */
  ghost function SoftwareContents(s: Settings, d: seq<byte>): Option<Arrival> {
    if |d| < 56 then None
    else
      var h := UnpackHeader(d).value;
      if |d| == 56 + h.payloadLength && WellFormed(h) && h.keyId == s.keyId then
        var n := 40 + h.payloadLength;
        match s.cipher.open([0, 0, 0, 1] + d[30..38], d[..40], d[40..n], d[n..])
        case None => None
        case Some(text) => Some(Arrival(h, text))
      else None
  }

  lemma MagicContents(s: Settings, d: seq<byte>)
    requires |d| >= 2 && d[0..2] == [0x4F, 0x56] && |d| != TRANSPORT_SLOT_BYTES
    ensures Contents(s, d) == SoftwareContents(s, d)
  {
    if |d| >= 40 {
      var h := UnpackHeader(d).value;
      var n := 40 + h.payloadLength;
      if |d| == n + h.tagLength { TextOfReceived(s.cipher, d, h, d[40..n], d[n..]); }
    }
  }

  /** A slot is what it pads, if it is padded with zeros. */
  lemma SlotContents(s: Settings, d: seq<byte>)
    requires |d| == TRANSPORT_SLOT_BYTES
    ensures Contents(s, d) == if d[1384..] == seq(24, _ => 0) then Contents(s, d[..1384]) else None
  {
    StripIff(d);
  }

  /** The FPGA's datagram: nonce prefix, sealed header and payload, tag. */
  function PlDatagram(c: Cipher, nonce: nat, h: PacketHeader, payload: seq<byte>): seq<byte>
    requires InRange(h)
  {
    var (ct, tag) := c.seal(Nonce(nonce), [], PackHeader(h).value + payload);
    ToBE(nonce, 8) + ct + tag
  }

  /** Its slot, padded with zeros. */
  function PlSlot(c: Cipher, nonce: nat, h: PacketHeader, payload: seq<byte>): seq<byte>
    requires InRange(h)
  {
    PlDatagram(c, nonce, h, payload) + seq(24, _ => 0)
  }

  lemma PlBody(c: Cipher, nonce: nat, h: PacketHeader, payload: seq<byte>, ct: seq<byte>, tag: seq<byte>, b: seq<byte>)
    requires Sound(c) && InRange(h) && nonce < Pow256(8)
    requires (ct, tag) == c.seal(Nonce(nonce), [], PackHeader(h).value + payload) && b == ToBE(nonce, 8) + ct + tag
    ensures |b| == 64 + |payload| && ParsePl(c, b) == Some(Parsed(h, payload, tag, true))
  {
    var plain := PackHeader(h).value + payload;
    assert c.open(Nonce(nonce), [], ct, tag) == Some(plain) && |ct| == |plain| && |tag| == 16;
    PlSlices(ToBE(nonce, 8), ct, tag, b);
    EncodeDecode(nonce, 8);
    UnpackOfPack(h, payload);
    assert plain[40..] == payload;
  }

  lemma PlSlices(prefix: seq<byte>, ct: seq<byte>, tag: seq<byte>, b: seq<byte>)
    requires |prefix| == 8 && |tag| == 16 && b == prefix + ct + tag
    ensures b[..8] == prefix && b[8..|b| - 16] == ct && b[|b| - 16..] == tag
  {
  }

  lemma PlFront(prefix: seq<byte>, ct: seq<byte>, tag: seq<byte>, b: seq<byte>)
    requires |prefix| == 8 && b == prefix + ct + tag
    ensures b[0..2] == prefix[0..2]
  {
  }

  /**
   * An unpadded FPGA datagram comes through whatever its payload. There are two exceptions: one
   * whose nonce begins with the octets of the magic is read as a software datagram, and one of
   * 1,408 octets is taken for a slot.
   */
  lemma PlDatagramArrives(s: Settings, nonce: nat, h: PacketHeader, payload: seq<byte>)
    requires Sound(s.cipher) && InRange(h) && nonce < Pow256(8)
    ensures |PlDatagram(s.cipher, nonce, h, payload)| == 64 + |payload|
    ensures var d := PlDatagram(s.cipher, nonce, h, payload);
            Contents(s, d) ==
            if |payload| == 1344 then if d[1384..] == seq(24, _ => 0) then Contents(s, d[..1384]) else None
            else if ToBE(nonce, 8)[0..2] == [0x4F, 0x56] then SoftwareContents(s, d)
            else if WellFormed(h) && h.keyId == s.keyId then Some(Arrival(h, payload)) else None
  {
    var c, d := s.cipher, PlDatagram(s.cipher, nonce, h, payload);
    var (ct, tag) := c.seal(Nonce(nonce), [], PackHeader(h).value + payload);
    PlBody(c, nonce, h, payload, ct, tag, d);
    PlFront(ToBE(nonce, 8), ct, tag, d);
    if |payload| == 1344 {
      SlotContents(s, d);
    } else if d[0..2] == [0x4F, 0x56] {
      MagicContents(s, d);
    } else {
      PlContents(s, d, Parsed(h, payload, tag, true));
    }
  }

  lemma PlContents(s: Settings, d: seq<byte>, p: Parsed)
    requires |d| >= 40 && |d| != TRANSPORT_SLOT_BYTES && d[0..2] != [0x4F, 0x56]
    requires ParsePl(s.cipher, d) == Some(p) && p.decrypted
    ensures Contents(s, d) ==
            if WellFormed(p.header) && p.header.keyId == s.keyId then Some(Arrival(p.header, p.payload)) else None
  {
  }

  /** A slot of the FPGA, with the 1,320 octets of payload that fill it, contributes the same. */
  lemma PlSlotArrives(s: Settings, nonce: nat, h: PacketHeader, payload: seq<byte>)
    requires Sound(s.cipher) && InRange(h) && nonce < Pow256(8) && |payload| == 1320
    ensures |PlSlot(s.cipher, nonce, h, payload)| == TRANSPORT_SLOT_BYTES
    ensures Contents(s, PlSlot(s.cipher, nonce, h, payload)) ==
            if ToBE(nonce, 8)[0..2] == [0x4F, 0x56] then PaddedContents(s, PlSlot(s.cipher, nonce, h, payload))
            else if WellFormed(h) && h.keyId == s.keyId then Some(Arrival(h, payload)) else None
  {
    var b, d := PlDatagram(s.cipher, nonce, h, payload), PlSlot(s.cipher, nonce, h, payload);
    PlDatagramArrives(s, nonce, h, payload);
    PlPrefix(s.cipher, nonce, h, payload);
    PaddedIsBody(s, b, d);
    if ToBE(nonce, 8)[0..2] == [0x4F, 0x56] { MagicSlotContents(s, d); }
  }

  lemma PaddedIsBody(s: Settings, b: seq<byte>, d: seq<byte>)
    requires |b| == 1384 && d == b + seq(24, _ => 0)
    ensures Contents(s, d) == Contents(s, b) && d[0..2] == b[0..2]
  {
    ParseOfPadded(s.cipher, d, b);
  }

  lemma PlPrefix(c: Cipher, nonce: nat, h: PacketHeader, payload: seq<byte>)
    requires InRange(h)
    ensures |PlDatagram(c, nonce, h, payload)| >= 8
    ensures PlDatagram(c, nonce, h, payload)[0..2] == ToBE(nonce, 8)[0..2]
  {
    var (ct, tag) := c.seal(Nonce(nonce), [], PackHeader(h).value + payload);
    PlFront(ToBE(nonce, 8), ct, tag, ToBE(nonce, 8) + ct + tag);
  }

  // ----- the octets of a sender datagram -----------------------------------------------------------

  /**
   * The sender's datagram, octet by octet: the header fields in clear, then the segment sealed
   * under the prefix 1 and the very nonce octets of the header, with the header as additional data.
   */
  lemma SentOctets(c: Cipher, s: Stream, id: nat, count: nat, segment: seq<byte>, nonce: nat, timestamp: nat)
    requires Sound(c) && Packable(s, id, count, |segment|, nonce, timestamp)
    ensures Datagram(c, s, id, count, segment, nonce, timestamp).Some?
    ensures var d := Datagram(c, s, id, count, segment, nonce, timestamp).value;
            && |d| == 56 + |segment| && d[0..2] == [0x4F, 0x56]
            && Layout(d, PacketHeader(0x4F56, 0, 0, s.sessionId, s.streamId, s.frameId, id, count, timestamp, 1,
                                      s.keyId, |segment|, nonce, 16, 0))
            && c.seal([0, 0, 0, 1] + d[30..38], d[..40], segment) == (d[40..40 + |segment|], d[40 + |segment|..])
  {
    var h := HeaderFor(s, id, count, |segment|, nonce, timestamp);
    DatagramParts(c, s, id, count, segment, nonce, timestamp);
    var front := PackHeader(h).value;
    var (ct, tag) := c.seal(Nonce(nonce), front, segment);
    var d := front + ct + tag;
    FrontOfBuilt(h, ct, tag, d);
    LayoutOfBuilt(h, ct, tag, d);
    NonceOnWire(d, nonce);
  }

  lemma LayoutOfBuilt(h: PacketHeader, payload: seq<byte>, tag: seq<byte>, d: seq<byte>)
    requires InRange(h) && d == PackHeader(h).value + payload + tag
    ensures Layout(d, h) && d[..40] == PackHeader(h).value
  {
    var front := PackHeader(h).value;
    PackedLayout(h);
    LayoutPrefix(front, payload + tag, h);
    assert d == front + (payload + tag);
  }

  // ----- any datagram whatsoever ---------------------------------------------------------------------

  /** The FPGA format read off the octets. */
  ghost function PlContentsOf(s: Settings, d: seq<byte>): Option<Arrival>
    requires |d| >= 40
  {
    match s.cipher.open([0, 0, 0, 1] + d[..8], [], d[8..|d| - 16], d[|d| - 16..])
    case None => None
    case Some(plain) =>
      if |plain| < 40 then None
      else
        var h := UnpackHeader(plain).value;
        if WellFormed(h) && h.keyId == s.keyId then Some(Arrival(h, plain[40..])) else None
  }

  ghost function BodyContents(s: Settings, b: seq<byte>): Option<Arrival> {
    if |b| >= 40 && b[0..2] != [0x4F, 0x56] then PlContentsOf(s, b) else SoftwareContents(s, b)
  }

  lemma ContentsOfBody(s: Settings, b: seq<byte>)
    requires |b| != 1408
    ensures Contents(s, b) == BodyContents(s, b)
  {
    if |b| >= 40 && b[0..2] != [0x4F, 0x56] {
      DecodeEncode(b[..8]);
      assert Nonce(FromBE(b[..8])) == [0, 0, 0, 1] + b[..8];
    } else if |b| >= 40 {
      MagicContents(s, b);
    }
  }

  /** What any string of octets contributes, read off the octets. */
  lemma EveryDatagram(s: Settings, d: seq<byte>)
    ensures Contents(s, d) ==
            if |d| != 1408 then BodyContents(s, d)
            else if d[1384..] == seq(24, _ => 0) then BodyContents(s, d[..1384]) else None
  {
    if |d| == 1408 {
      SlotContents(s, d);
      ContentsOfBody(s, d[..1384]);
    } else {
      ContentsOfBody(s, d);
    }
  }
}
