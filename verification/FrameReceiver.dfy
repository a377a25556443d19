/** The PC receiver: one datagram at a time from the socket to a frame. */
module FrameReceiver {
  import opened Bytes
  import opened PacketSchema
  import opened Validation
  import NonceWindow
  import R = Reassembly
  import opened FrameSender

  const TRANSPORT_SLOT_BYTES: nat := 1408
  const AUTHENTICATED_BODY_BYTES: nat := 1384

  /** `strip_transport_padding` */
  function Strip(d: seq<byte>): (r: Option<seq<byte>>)
    ensures r.Some? ==> |d| == TRANSPORT_SLOT_BYTES && d == r.value + seq(24, _ => 0)
    ensures r.None? ==> |d| != TRANSPORT_SLOT_BYTES
                        || exists i :: AUTHENTICATED_BODY_BYTES <= i < |d| && d[i] != 0
  {
    if |d| != TRANSPORT_SLOT_BYTES then None
    else if exists i :: AUTHENTICATED_BODY_BYTES <= i < |d| && d[i] != 0 then None
    else Some(d[..AUTHENTICATED_BODY_BYTES])
  }

  /** A datagram taken apart; `decrypted` if its body is already decrypted. */
  datatype Parsed = Parsed(header: PacketHeader, payload: seq<byte>, tag: seq<byte>, decrypted: bool)

  predicate IsPlFormat(d: seq<byte>) { |d| >= 40 && d[0..2] != [0x4F, 0x56] }

  /** The FPGA format: nonce prefix, then header and payload encrypted together. */
  function ParsePl(c: Cipher, d: seq<byte>): Option<Parsed>
    requires |d| >= 40
  {
    var tag := d[|d| - 16..];
    match c.open(Nonce(FromBE(d[..8])), [], d[8..|d| - 16], tag)
    case None => None
    case Some(plain) =>
      match UnpackHeader(plain)
      case None => None
      case Some(h) => Some(Parsed(h, plain[40..], tag, true))
  }

  /** A datagram without transport padding. */
  function ParseBody(c: Cipher, b: seq<byte>): Option<Parsed> {
    if IsPlFormat(b) then ParsePl(c, b)
    else match SplitDatagram(b)
      case None => None
      case Some((h, payload, tag)) => Some(Parsed(h, payload, tag, false))
  }

  function Parse(c: Cipher, d: seq<byte>): Option<Parsed> {
    if |d| != TRANSPORT_SLOT_BYTES then ParseBody(c, d)
    else match Strip(d)
      case None => None
      case Some(b) => ParseBody(c, b)
  }

  /** The segment text, or `None` where decryption raises. */
  function Text(c: Cipher, p: Parsed): Option<seq<byte>> {
    if p.decrypted then Some(p.payload)
    else match PackHeader(p.header)
      case None => None
      case Some(aad) =>
        if p.header.nonceCounter < 0 then None
        else c.open(Nonce(p.header.nonceCounter), aad, p.payload, p.tag)
  }

  datatype Settings = Settings(cipher: Cipher, keyId: int, strict: bool, replayWindow: int)

  function ReorderWindow(s: Settings): int { if s.strict then 0 else s.replayWindow }

  datatype State = State(window: NonceWindow.Window, table: R.Table, completed: nat, dropped: nat)

  const MAX_ACTIVE_FRAMES: nat := 8

  /** State and output once the segment is decrypted. */
  ghost function Reassembled(st: State, h: PacketHeader, text: seq<byte>): (State, Option<seq<byte>>) {
    var (table, out) := R.Pushed(st.table, MAX_ACTIVE_FRAMES, h, text);
    (st.(table := table, completed := st.completed + if out.Some? then 1 else 0), out)
  }

  /** State and output once the header and the nonce have passed. */
  ghost function Opened(s: Settings, st: State, p: Parsed): (State, Option<seq<byte>>) {
    if p.header.keyId != s.keyId then (st.(dropped := st.dropped + 1), None)
    else match Text(s.cipher, p)
      case None => (st.(dropped := st.dropped + 1), None)
      case Some(text) => Reassembled(st, p.header, text)
  }

  /** State and output once a datagram is parsed. */
  ghost function Handled(s: Settings, st: State, p: Parsed): (State, Option<seq<byte>>) {
    if !WellFormed(p.header) then (st.(dropped := st.dropped + 1), None)
    else
      var ok := NonceWindow.Accepts(st.window, ReorderWindow(s), p.header.nonceCounter);
      var st' := st.(window := NonceWindow.Next(st.window, s.replayWindow, ReorderWindow(s), p.header.nonceCounter));
      if !ok && s.strict then (st'.(dropped := st.dropped + 1), None) else Opened(s, st', p)
  }

  /** State and output after one datagram. */
  ghost function Received(s: Settings, st: State, d: seq<byte>): (State, Option<seq<byte>>) {
    match Parse(s.cipher, d)
    case None => (st.(dropped := st.dropped + 1), None)
    case Some(p) => Handled(s, st, p)
  }

  ghost function Run(s: Settings, st: State, ds: seq<seq<byte>>): State
    decreases |ds|
  {
    if ds == [] then st else Run(s, Received(s, st, ds[0]).0, ds[1..])
  }

  function Put(out: Option<seq<byte>>): seq<seq<byte>> { if out.Some? then [out.value] else [] }

  /** The frames a run puts out. */
  ghost function Frames(s: Settings, st: State, ds: seq<seq<byte>>): seq<seq<byte>>
    decreases |ds|
  {
    if ds == [] then [] else var (st', out) := Received(s, st, ds[0]); Put(out) + Frames(s, st', ds[1..])
  }

  lemma {:induction false} RunAppend(s: Settings, st: State, ds: seq<seq<byte>>, d: seq<byte>)
    ensures Run(s, st, ds + [d]) == Received(s, Run(s, st, ds), d).0
    decreases |ds|
  {
    HeadAndTail(ds, d);
    if ds != [] { RunAppend(s, Received(s, st, ds[0]).0, ds[1..], d); }
  }

  lemma {:induction false} FramesAppend(s: Settings, st: State, ds: seq<seq<byte>>, d: seq<byte>)
    ensures Frames(s, st, ds + [d]) == Frames(s, st, ds) + Put(Received(s, Run(s, st, ds), d).1)
    decreases |ds|
  {
    HeadAndTail(ds, d);
    if ds != [] {
      var (st', out) := Received(s, st, ds[0]);
      FramesAppend(s, st', ds[1..], d);
      ConcatAssoc(Put(out), Frames(s, st', ds[1..]), Put(Received(s, Run(s, st', ds[1..]), d).1));
    }
  }

  lemma HeadAndTail(ds: seq<seq<byte>>, d: seq<byte>)
    ensures (ds + [d])[0] == if ds == [] then d else ds[0]
    ensures (ds + [d])[1..] == if ds == [] then [] else ds[1..] + [d]
  {
  }

  lemma ConcatAssoc(a: seq<seq<byte>>, b: seq<seq<byte>>, c: seq<seq<byte>>)
    ensures (a + b) + c == a + (b + c)
  {
  }

  class Receiver {
    const settings: Settings
    const validator: NonceWindow.NonceValidator
    const reassembler: R.FrameReassembler
    var completed: nat
    var dropped: nat

    ghost predicate Valid()
      reads this, validator, reassembler
    {
      && validator.replayWindow == settings.replayWindow && validator.reorderWindow == ReorderWindow(settings)
      && reassembler.maxActiveFrames == MAX_ACTIVE_FRAMES
    }

    ghost function Value(): State
      reads this, validator, reassembler
    {
      State(validator.Value(), reassembler.frames, completed, dropped)
    }

    constructor (settings: Settings)
      ensures Valid() && this.settings == settings && fresh(validator) && fresh(reassembler)
      ensures validator.replayWindow == settings.replayWindow && reassembler.maxActiveFrames == 8
      ensures validator.reorderWindow == if settings.strict then 0 else settings.replayWindow
      ensures Value() == State(NonceWindow.FRESH, [], 0, 0)
    {
      this.settings := settings;
      this.validator := new NonceWindow.NonceValidator(settings.replayWindow, ReorderWindow(settings));
      this.reassembler := new R.FrameReassembler(MAX_ACTIVE_FRAMES);
      completed, dropped := 0, 0;
    }

    /** The receive loop over what the socket hands out; it stops as soon as enough frames are complete. */
    method ReceiveFrames(datagrams: seq<seq<byte>>, maxFrames: int) returns (used: nat, frames: seq<seq<byte>>)
      requires Valid()
      modifies this, validator, reassembler
      ensures Valid() && used <= |datagrams|
      ensures Value() == Run(settings, old(Value()), datagrams[..used])
      ensures frames == Frames(settings, old(Value()), datagrams[..used])
      ensures completed == old(completed) + |frames|
      ensures used < |datagrams| ==> completed >= maxFrames
      ensures completed <= if old(completed) < maxFrames then maxFrames else old(completed)
    {
      used, frames := 0, [];
      ghost var start, past := Value(), [];
      while completed < maxFrames && used < |datagrams|
        invariant Valid() && used <= |datagrams| && past == datagrams[..used]
        invariant Value() == Run(settings, start, past) && frames == Frames(settings, start, past)
        invariant completed == old(completed) + |frames|
        invariant completed <= if old(completed) < maxFrames then maxFrames else old(completed)
        decreases |datagrams| - used
      {
        var frame := OnNext(datagrams[used], start, past);
        past := past + [datagrams[used]];
        frames := frames + Put(frame);
        used := used + 1;
      }
    }

    /** `OnDatagram` as one more step of a run from `start`. */
    method OnNext(datagram: seq<byte>, ghost start: State, ghost before: seq<seq<byte>>)
      returns (frame: Option<seq<byte>>)
      requires Valid() && Value() == Run(settings, start, before)
      modifies this, validator, reassembler
      ensures Valid() && Value() == Run(settings, start, before + [datagram])
      ensures Frames(settings, start, before + [datagram]) == Frames(settings, start, before) + Put(frame)
      ensures completed == old(completed) + if frame.Some? then 1 else 0
    {
      RunAppend(settings, start, before, datagram);
      FramesAppend(settings, start, before, datagram);
      frame := OnDatagram(datagram);
    }

    /** The body of the receive loop. */
    method OnDatagram(datagram: seq<byte>) returns (frame: Option<seq<byte>>)
      requires Valid()
      modifies this, validator, reassembler
      ensures Valid()
      ensures var (st, out) := Received(settings, old(Value()), datagram); Value() == st && frame == out
      ensures completed == old(completed) + if frame.Some? then 1 else 0
    {
      var parsed := Parse(settings.cipher, datagram);
      if parsed.None? {
        dropped := dropped + 1;
        return None;
      }
      frame := Handle(parsed.value);
    }

    method Handle(p: Parsed) returns (frame: Option<seq<byte>>)
      requires Valid()
      modifies this, validator, reassembler
      ensures Valid()
      ensures var (st, out) := Handled(settings, old(Value()), p); Value() == st && frame == out
      ensures completed == old(completed) + if frame.Some? then 1 else 0
    {
      frame := None;
      var errors := ValidateHeader(p.header);
      if errors != [] {
        dropped := dropped + 1;
        return;
      }
      var fine := validator.ValidateAndTrack(p.header.nonceCounter);
      if !fine && settings.strict {
        dropped := dropped + 1;
        return;
      }
      frame := Open(p);
    }

    method Open(p: Parsed) returns (frame: Option<seq<byte>>)
      requires Valid()
      modifies this, reassembler
      ensures Valid()
      ensures var (st, out) := Opened(settings, old(Value()), p); Value() == st && frame == out
      ensures completed == old(completed) + if frame.Some? then 1 else 0
    {
      if p.header.keyId != settings.keyId {
        dropped := dropped + 1;
        return None;
      }
      var text := Text(settings.cipher, p);
      if text.None? {
        dropped := dropped + 1;
        return None;
      }
      frame := Reassemble(p.header, text.value);
    }

    method Reassemble(h: PacketHeader, text: seq<byte>) returns (frame: Option<seq<byte>>)
      requires Valid()
      modifies this, reassembler
      ensures Valid()
      ensures var (st, out) := Reassembled(old(Value()), h, text); Value() == st && frame == out
      ensures completed == old(completed) + if frame.Some? then 1 else 0
    {
      frame := reassembler.Push(h, text);
      if frame.Some? {
        completed := completed + 1;
      }
    }
  }
}
