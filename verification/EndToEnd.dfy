/** From the sender's frame to the receiver's, over any run of datagrams. */
module EndToEnd {
  import opened Bytes
  import opened PacketSchema
  import opened Validation
  import opened FrameSender
  import opened FrameReceiver
  import opened WireFormats
  import opened FrameRuns
  import opened ReassemblyTheorems
  import R = Reassembly
  import NonceWindow

  // ----- runs of the receive loop --------------------------------------------------------------

  ghost function One(s: Settings, w: NonceWindow.Window, d: seq<byte>): seq<Arrival> {
    match ArrivalOf(s, w, d) case None => [] case Some(a) => [a]
  }

  ghost function Arrivals(s: Settings, w: NonceWindow.Window, ds: seq<seq<byte>>): seq<Arrival>
    decreases |ds|
  {
    if ds == [] then [] else One(s, w, ds[0]) + Arrivals(s, WindowAfter(s, w, ds[0]), ds[1..])
  }

  /** The table sees exactly the admitted segments; every other datagram is counted as dropped. */
  lemma {:induction false} RunPushesArrivals(s: Settings, st: State, ds: seq<seq<byte>>)
    ensures var st', arrivals := Run(s, st, ds), Arrivals(s, st.window, ds);
            && st'.table == RunTable(st.table, MAX_ACTIVE_FRAMES, arrivals)
            && st'.dropped - st.dropped == |ds| - |arrivals|
    decreases |ds|
  {
    if ds != [] {
      ReceivedIsPush(s, st, ds[0]);
      var rest := Arrivals(s, WindowAfter(s, st.window, ds[0]), ds[1..]);
      RunPushesArrivals(s, Received(s, st, ds[0]).0, ds[1..]);
      match ArrivalOf(s, st.window, ds[0])
      case None => assert [] + rest == rest;
      case Some(a) => assert ([a] + rest)[1..] == rest;
    }
  }

  lemma {:induction false} ArrivalsAppend(s: Settings, st: State, ds: seq<seq<byte>>, d: seq<byte>)
    ensures Arrivals(s, st.window, ds + [d]) == Arrivals(s, st.window, ds) + One(s, Run(s, st, ds).window, d)
    decreases |ds|
  {
    if ds == [] {
      assert ds + [d] == [d] && [d][1..] == [];
    } else {
      ReceivedIsPush(s, st, ds[0]);
      assert (ds + [d])[1..] == ds[1..] + [d];
      ArrivalsAppend(s, Received(s, st, ds[0]).0, ds[1..], d);
    }
  }

  lemma {:induction false} IdsAppend(a: seq<Arrival>, b: seq<Arrival>, key: R.Key)
    ensures Ids(a + b, key) == Ids(a, key) + Ids(b, key)
    decreases |a|
  {
    if a == [] {
      assert a + b == b;
    } else {
      assert (a + b)[1..] == a[1..] + b;
      IdsAppend(a[1..], b, key);
    }
  }

  // ----- the nonce check over a run --------------------------------------------------------------

  ghost function NonceOf(s: Settings, d: seq<byte>): seq<int> {
    match Parse(s.cipher, d)
    case None => []
    case Some(p) => if WellFormed(p.header) then [p.header.nonceCounter] else []
  }

  /** The nonces of the datagrams that parse and have a well-formed header. */
  ghost function Nonces(s: Settings, ds: seq<seq<byte>>): seq<int>
    decreases |ds|
  {
    if ds == [] then [] else NonceOf(s, ds[0]) + Nonces(s, ds[1..])
  }

  lemma AfterCons(w: NonceWindow.Window, replay: int, reorder: int, n: int, rest: seq<int>)
    ensures NonceWindow.After(w, replay, reorder, [n] + rest)
            == NonceWindow.After(NonceWindow.Next(w, replay, reorder, n), replay, reorder, rest)
  {
    assert ([n] + rest)[1..] == rest;
  }

  /** The receiver checks exactly these nonces: late ones against the replay window, in strict mode against 0. */
  lemma {:induction false} WindowOverRun(s: Settings, st: State, ds: seq<seq<byte>>)
    ensures Run(s, st, ds).window
            == NonceWindow.After(st.window, s.replayWindow, if s.strict then 0 else s.replayWindow, Nonces(s, ds))
    decreases |ds|
  {
    if ds != [] {
      ReceivedIsPush(s, st, ds[0]);
      WindowOverRun(s, Received(s, st, ds[0]).0, ds[1..]);
      var rest, one := Nonces(s, ds[1..]), NonceOf(s, ds[0]);
      if one == [] {
        assert one + rest == rest;
      } else {
        AfterCons(st.window, s.replayWindow, if s.strict then 0 else s.replayWindow, one[0], rest);
      }
    }
  }

  /**
   * Outside strict mode late arrivals are legal: distinct unseen nonces within one replay window
   * are accepted and remembered in whatever order their datagrams come.
   */
  lemma LateArrivalsAccepted(s: Settings, st: State, ds: seq<seq<byte>>, top: int)
    requires !s.strict && st.window.latest <= top
    requires var ns := Nonces(s, ds);
             && (forall i :: 0 <= i < |ns| ==> top - s.replayWindow < ns[i] <= top && ns[i] !in st.window.seen)
             && (forall i, j :: 0 <= i < j < |ns| ==> ns[i] != ns[j])
    ensures var ns := Nonces(s, ds);
            && (forall i :: 0 <= i < |ns| ==> ns[i] in Run(s, st, ds).window.seen)
            && (forall i :: 0 <= i < |ns| ==> NonceWindow.Decisions(st.window, s.replayWindow, s.replayWindow, ns)[i])
  {
    var ns := Nonces(s, ds);
    WindowOverRun(s, st, ds);
    NonceWindow.ReorderedArrivalsTracked(st.window, s.replayWindow, ns, top);
    NonceWindow.ReorderedArrivalsAccepted(st.window, s.replayWindow, s.replayWindow, ns, top);
  }

  /** In either mode a fresh receiver judges no nonce good twice. */
  lemma NoNonceAcceptedTwice(s: Settings, ds: seq<seq<byte>>)
    ensures var reorder := if s.strict then 0 else s.replayWindow;
            !NonceWindow.AcceptedTwice(Nonces(s, ds),
                                       NonceWindow.Decisions(NonceWindow.FRESH, s.replayWindow, reorder, Nonces(s, ds)))
  {
    NonceWindow.PruningIsInvisibleIff(s.replayWindow, if s.strict then 0 else s.replayWindow);
  }

  // ----- replays -----------------------------------------------------------------------------------

  ghost predicate RisingNonces(arrivals: seq<Arrival>, above: int) {
    && (forall i :: 0 <= i < |arrivals| ==> above < arrivals[i].header.nonceCounter)
    && forall i, j :: 0 <= i < j < |arrivals| ==> arrivals[i].header.nonceCounter < arrivals[j].header.nonceCounter
  }

  /** The high-water mark never falls, and an admitted segment raises it to its own nonce. */
  lemma WindowRises(s: Settings, w: NonceWindow.Window, d: seq<byte>)
    ensures w.latest <= WindowAfter(s, w, d).latest
    ensures s.strict && ArrivalOf(s, w, d).Some? ==>
              w.latest < ArrivalOf(s, w, d).value.header.nonceCounter == WindowAfter(s, w, d).latest
  {
  }

  /** In strict mode the nonces of the segments pushed rise over every run, so nothing is pushed twice. */
  lemma {:induction false} StrictNeverPushesTwice(s: Settings, w: NonceWindow.Window, ds: seq<seq<byte>>)
    requires s.strict
    ensures RisingNonces(Arrivals(s, w, ds), w.latest)
    decreases |ds|
  {
    if ds != [] {
      var w' := WindowAfter(s, w, ds[0]);
      WindowRises(s, w, ds[0]);
      StrictNeverPushesTwice(s, w', ds[1..]);
    }
  }

  /** Outside strict mode a rejected nonce is only reported: every copy of a datagram is pushed. */
  lemma {:induction false} EveryCopyIsPushed(s: Settings, w: NonceWindow.Window, ds: seq<seq<byte>>, a: Arrival)
    requires !s.strict && forall i :: 0 <= i < |ds| ==> Contents(s, ds[i]) == Some(a)
    ensures |Arrivals(s, w, ds)| == |ds| && forall i :: 0 <= i < |ds| ==> Arrivals(s, w, ds)[i] == a
    decreases |ds|
  {
    if ds != [] {
      assert One(s, w, ds[0]) == [a];
      EveryCopyIsPushed(s, WindowAfter(s, w, ds[0]), ds[1..], a);
    }
  }

  // ----- a frame in transit ----------------------------------------------------------------------

  /** A frame with the numbers its datagrams go out under. */
  datatype Transfer = Transfer(stream: Stream, segments: seq<seq<byte>>, nonces: seq<nat>, clock: seq<nat>)

  function KeyFor(x: Transfer): R.Key { R.Key(x.stream.sessionId, x.stream.streamId, x.stream.frameId) }

  /** The sender's headers pack, and both sides use one key. */
  ghost predicate Sendable(s: Settings, x: Transfer) {
    && Sound(s.cipher) && x.stream.keyId == s.keyId && |x.nonces| == |x.clock| == |x.segments| > 0
    && forall i :: 0 <= i < |x.segments| ==>
         Packable(x.stream, i, |x.segments|, |x.segments[i]|, x.nonces[i], x.clock[i])
  }

  ghost function HeaderAt(x: Transfer, i: nat): PacketHeader
    requires i < |x.segments| == |x.nonces| == |x.clock|
  {
    HeaderFor(x.stream, i, |x.segments|, |x.segments[i]|, x.nonces[i], x.clock[i])
  }

  ghost function Sent(s: Settings, x: Transfer, i: nat): (d: seq<byte>)
    requires Sendable(s, x) && i < |x.segments|
    ensures Contents(s, d) == if Acceptable(x.segments[i]) then Some(Arrival(HeaderAt(x, i), x.segments[i])) else None
  {
    SentDatagramArrives(s, x.stream, i, |x.segments|, x.segments[i], x.nonces[i], x.clock[i]);
    Datagram(s.cipher, x.stream, i, |x.segments|, x.segments[i], x.nonces[i], x.clock[i]).value
  }

  /** Every datagram is one of the frame's own, or contributes nothing to it. */
  ghost predicate Mixed(s: Settings, x: Transfer, ds: seq<seq<byte>>)
    requires Sendable(s, x)
  {
    forall j :: 0 <= j < |ds| ==> FromSender(s, x, ds[j]) || Foreign(s, x, ds[j])
  }

  ghost predicate FromSender(s: Settings, x: Transfer, d: seq<byte>)
    requires Sendable(s, x)
  {
    exists i :: 0 <= i < |x.segments| && d == Sent(s, x, i)
  }

  ghost predicate Foreign(s: Settings, x: Transfer, d: seq<byte>) {
    Contents(s, d).Some? ==> !Own(Contents(s, d).value, KeyFor(x))
  }

  lemma {:induction false} ArrivalsMatch(s: Settings, x: Transfer, w: NonceWindow.Window, ds: seq<seq<byte>>)
    requires Sendable(s, x) && Mixed(s, x, ds)
    ensures Matching(Arrivals(s, w, ds), KeyFor(x), x.segments)
    decreases |ds|
  {
    if ds != [] {
      ArrivalsMatch(s, x, WindowAfter(s, w, ds[0]), ds[1..]);
      assert FromSender(s, x, ds[0]) || Foreign(s, x, ds[0]);
    }
  }

  lemma {:induction false} IdsInRange(arrivals: seq<Arrival>, key: R.Key, segments: seq<seq<byte>>)
    requires Matching(arrivals, key, segments)
    ensures Holding(segments, Ids(arrivals, key)).Keys == Ids(arrivals, key)
    decreases |arrivals|
  {
    if arrivals != [] {
      IdsInRange(arrivals[1..], key, segments);
      assert forall i :: i in Ids(arrivals[1..], key) ==> i in Holding(segments, Ids(arrivals[1..], key)).Keys;
    }
  }

  /** Which segments of the frame have arrived after these datagrams. */
  ghost function Got(s: Settings, x: Transfer, w: NonceWindow.Window, ds: seq<seq<byte>>): set<int> {
    Ids(Arrivals(s, w, ds), KeyFor(x))
  }

  /**
   * Whatever else is on the wire, and in either nonce mode: while the frame is incomplete and
   * fewer than eight other frames have been opened after it, its next datagram returns the
   * whole frame if it brings the last missing segment, and nothing otherwise.
   */
  lemma FrameComesThrough(s: Settings, st: State, x: Transfer, ds: seq<seq<byte>>, i: nat)
    requires Sendable(s, x) && Mixed(s, x, ds) && i < |x.segments|
    requires TableInv(st.table, MAX_ACTIVE_FRAMES) && R.Find(st.table, KeyFor(x)) < 0
    requires !Complete(Got(s, x, st.window, ds), |x.segments|)
    requires Younger(st.table, MAX_ACTIVE_FRAMES, Arrivals(s, st.window, ds), KeyFor(x), {}) < MAX_ACTIVE_FRAMES
    ensures Received(s, Run(s, st, ds), Sent(s, x, i)).1 ==
            if Complete(Got(s, x, st.window, ds + [Sent(s, x, i)]), |x.segments|) then Some(Join(x.segments)) else None
  {
    var key, arrivals, d, m := KeyFor(x), Arrivals(s, st.window, ds), Sent(s, x, i), Run(s, st, ds);
    var got := Ids(arrivals, key);
    ArrivalsMatch(s, x, st.window, ds);
    IdsInRange(arrivals, key, x.segments);
    assert {} + got == got;
    HeldRun(st.table, MAX_ACTIVE_FRAMES, arrivals, key, x.segments, {}, 0);
    RunPushesArrivals(s, st, ds);
    ReceivedIsPush(s, m, d);
    ArrivalsAppend(s, st, ds, d);
    IdsAppend(arrivals, One(s, m.window, d), key);
    match ArrivalOf(s, m.window, d)
    case None => assert Ids([], key) == {};
    case Some(a) =>
      assert Ids([a], key) == {i};
      assert Holding(x.segments, got + {i}).Keys == got + {i};
      OwnArrival(m.table, MAX_ACTIVE_FRAMES, a, key, x.segments, got);
  }

  // ----- the frame's own datagrams in any order --------------------------------------------------

  ghost predicate Indices(x: Transfer, order: seq<nat>) { forall k :: 0 <= k < |order| ==> order[k] < |x.segments| }

  ghost function SentAll(s: Settings, x: Transfer, order: seq<nat>): (ds: seq<seq<byte>>)
    requires Sendable(s, x) && Indices(x, order)
    ensures |ds| == |order| && forall k :: 0 <= k < |ds| ==> ds[k] == Sent(s, x, order[k])
  {
    seq(|order|, k requires 0 <= k < |order| => Sent(s, x, order[k]))
  }

  /** The nonces come in increasing order above everything the receiver has seen. */
  ghost predicate Rising(x: Transfer, w: NonceWindow.Window, order: seq<nat>)
    requires Indices(x, order) && |x.nonces| == |x.segments|
  {
    && (forall n :: n in w.seen ==> n <= w.latest)
    && (forall k :: 0 <= k < |order| ==> w.latest < x.nonces[order[k]])
    && (forall j, k :: 0 <= j < k < |order| ==> x.nonces[order[j]] < x.nonces[order[k]])
  }

  ghost function AcceptableIds(x: Transfer, order: seq<nat>): set<int> {
    set i | i in order && i < |x.segments| && Acceptable(x.segments[i])
  }

  lemma RisingStep(s: Settings, x: Transfer, w: NonceWindow.Window, order: seq<nat>)
    requires Sendable(s, x) && Indices(x, order) && order != [] && Rising(x, w, order)
    ensures Rising(x, WindowAfter(s, w, Sent(s, x, order[0])), order[1..])
    ensures NonceWindow.Accepts(w, ReorderWindow(s), x.nonces[order[0]])
  {
    var i := order[0];
    SentDatagramArrives(s, x.stream, i, |x.segments|, x.segments[i], x.nonces[i], x.clock[i]);
    NonceWindow.AboveIsAccepted(w, s.replayWindow, ReorderWindow(s), x.nonces[i]);
    RisingTail(x, w, WindowAfter(s, w, Sent(s, x, i)), order);
  }

  lemma RisingTail(x: Transfer, w: NonceWindow.Window, w': NonceWindow.Window, order: seq<nat>)
    requires Indices(x, order) && order != [] && |x.nonces| == |x.segments| && Rising(x, w, order)
    requires w'.latest <= x.nonces[order[0]] && forall n :: n in w'.seen ==> n <= w'.latest
    ensures Rising(x, w', order[1..])
  {
    var rest := order[1..];
    assert forall k :: 0 <= k < |rest| ==> rest[k] == order[k + 1];
  }

  lemma {:induction false} OrderArrives(s: Settings, x: Transfer, w: NonceWindow.Window, order: seq<nat>)
    requires Sendable(s, x) && Indices(x, order) && (s.strict ==> Rising(x, w, order))
    ensures Got(s, x, w, SentAll(s, x, order)) == AcceptableIds(x, order)
    ensures forall a :: a in Arrivals(s, w, SentAll(s, x, order)) ==> Own(a, KeyFor(x))
    decreases |order|
  {
    if order != [] {
      var i, w' := order[0], WindowAfter(s, w, Sent(s, x, order[0]));
      if s.strict { RisingStep(s, x, w, order); }
      assert SentAll(s, x, order)[1..] == SentAll(s, x, order[1..]);
      OrderArrives(s, x, w', order[1..]);
      var one, rest := One(s, w, Sent(s, x, i)), Arrivals(s, w', SentAll(s, x, order[1..]));
      IdsAppend(one, rest, KeyFor(x));
      IdsOfOne(s, x, w, i);
      AcceptableStep(x, order);
    }
  }

  lemma IdsOfOne(s: Settings, x: Transfer, w: NonceWindow.Window, i: nat)
    requires Sendable(s, x) && i < |x.segments| && NonceFits(s, w, x.nonces[i])
    ensures Ids(One(s, w, Sent(s, x, i)), KeyFor(x)) == if Acceptable(x.segments[i]) then {i} else {}
    ensures forall a :: a in One(s, w, Sent(s, x, i)) ==> Own(a, KeyFor(x))
  {
    var one := One(s, w, Sent(s, x, i));
    if Acceptable(x.segments[i]) { IdsOfSingle(one, Arrival(HeaderAt(x, i), x.segments[i]), KeyFor(x)); }
  }

  lemma IdsOfSingle(one: seq<Arrival>, a: Arrival, key: R.Key)
    requires |one| == 1 && one[0] == a
    ensures Ids(one, key) == IdOf(a, key)
  {
    assert one[1..] == [];
  }

  lemma AcceptableStep(x: Transfer, order: seq<nat>)
    requires order != [] && Indices(x, order)
    ensures AcceptableIds(x, order) ==
            (if Acceptable(x.segments[order[0]]) then {order[0]} else {}) + AcceptableIds(x, order[1..])
  {
    assert order == [order[0]] + order[1..];
  }

  lemma {:induction false} OwnOpensNothing(table: R.Table, arrivals: seq<Arrival>, key: R.Key, got: set<int>)
    requires forall a :: a in arrivals ==> Own(a, key)
    ensures Younger(table, MAX_ACTIVE_FRAMES, arrivals, key, got) == 0
    decreases |arrivals|
  {
    if arrivals != [] {
      OwnOpensNothing(Next(table, MAX_ACTIVE_FRAMES, arrivals[0]), arrivals[1..], key, got + IdOf(arrivals[0], key));
    }
  }

  /** One datagram of the frame after others of it, while some segment `missing` has not been sent. */
  lemma AfterOrder(s: Settings, st: State, x: Transfer, order: seq<nat>, i: nat, missing: nat)
    requires Sendable(s, x) && Indices(x, order) && i < |x.segments| && missing < |x.segments| && missing !in order
    requires TableInv(st.table, MAX_ACTIVE_FRAMES) && R.Find(st.table, KeyFor(x)) < 0
    requires Indices(x, order + [i]) && (s.strict ==> Rising(x, st.window, order + [i]))
    ensures Received(s, Run(s, st, SentAll(s, x, order)), Sent(s, x, i)).1 ==
            if Complete(AcceptableIds(x, order + [i]), |x.segments|) then Some(Join(x.segments)) else None
  {
    var ds := SentAll(s, x, order);
    if s.strict { RisingPrefix(x, st.window, order, i); }
    OrderArrives(s, x, st.window, order);
    OwnOpensNothing(st.table, Arrivals(s, st.window, ds), KeyFor(x), {});
    assert SentAll(s, x, order + [i]) == ds + [Sent(s, x, i)];
    OrderArrives(s, x, st.window, order + [i]);
    assert missing !in AcceptableIds(x, order);
    FrameComesThrough(s, st, x, ds, i);
  }

  lemma RisingPrefix(x: Transfer, w: NonceWindow.Window, order: seq<nat>, i: nat)
    requires Indices(x, order) && Indices(x, order + [i]) && |x.nonces| == |x.segments| && Rising(x, w, order + [i])
    ensures Rising(x, w, order)
  {
    assert forall k :: 0 <= k < |order| ==> (order + [i])[k] == order[k];
  }

  /**
   * A frame's datagrams in any order, with duplicates unless nonces are strict: nothing comes
   * out before the last missing one, and then the frame does if and only if every segment is
   * acceptable.
   */
  lemma AnyOrderDelivers(s: Settings, st: State, x: Transfer, order: seq<nat>, last: nat)
    requires Sendable(s, x) && Indices(x, order + [last]) && last !in order
    requires forall i: nat :: i < |x.segments| && i != last ==> i in order
    requires TableInv(st.table, MAX_ACTIVE_FRAMES) && R.Find(st.table, KeyFor(x)) < 0
    requires s.strict ==> Rising(x, st.window, order + [last])
    ensures Indices(x, order) && last < |x.segments|
    ensures Received(s, Run(s, st, SentAll(s, x, order)), Sent(s, x, last)).1 ==
            if AllAcceptable(x.segments) then Some(Join(x.segments)) else None
    ensures forall k :: 0 <= k < |order| ==> QuietAt(s, st, x, order, k)
  {
    IndicesOfPrefix(x, order, last);
    AfterOrder(s, st, x, order, last, last);
    AcceptableIdsComplete(x, order + [last]);
    forall k | 0 <= k < |order| ensures QuietAt(s, st, x, order, k) { QuietBefore(s, st, x, order, last, k); }
  }

  predicate AllAcceptable(segments: seq<seq<byte>>) { forall i :: 0 <= i < |segments| ==> Acceptable(segments[i]) }

  lemma IndicesOfPrefix(x: Transfer, order: seq<nat>, last: nat)
    requires Indices(x, order + [last])
    ensures Indices(x, order) && last < |x.segments|
  {
    var all := order + [last];
    assert all[|order|] == last && forall k :: 0 <= k < |order| ==> all[k] == order[k];
  }

  lemma AcceptableIdsComplete(x: Transfer, all: seq<nat>)
    requires |x.segments| > 0 && Indices(x, all) && forall i: nat :: i < |x.segments| ==> i in all
    ensures Complete(AcceptableIds(x, all), |x.segments|) <==> AllAcceptable(x.segments)
  {
    if Complete(AcceptableIds(x, all), |x.segments|) {
      forall i | 0 <= i < |x.segments| ensures Acceptable(x.segments[i]) { assert i in AcceptableIds(x, all); }
    }
  }

  /** The `k`-th datagram of the order returns no frame. */
  ghost predicate QuietAt(s: Settings, st: State, x: Transfer, order: seq<nat>, k: nat)
    requires Sendable(s, x) && Indices(x, order) && k < |order|
  {
    Received(s, Run(s, st, SentAll(s, x, order[..k])), Sent(s, x, order[k])).1 == None
  }

  lemma QuietBefore(s: Settings, st: State, x: Transfer, order: seq<nat>, last: nat, k: nat)
    requires Sendable(s, x) && Indices(x, order) && last < |x.segments| && last !in order && k < |order|
    requires TableInv(st.table, MAX_ACTIVE_FRAMES) && R.Find(st.table, KeyFor(x)) < 0
    requires Indices(x, order + [last]) && (s.strict ==> Rising(x, st.window, order + [last]))
    ensures QuietAt(s, st, x, order, k)
  {
    var head := order[..k] + [order[k]];
    assert head == order[..k + 1];
    if s.strict {
      assert forall j :: 0 <= j < |head| ==> head[j] == (order + [last])[j];
      assert Rising(x, st.window, head);
    }
    AfterOrder(s, st, x, order[..k], order[k], last);
    assert last !in AcceptableIds(x, head);
  }

  // ----- the frame the sender cut ------------------------------------------------------------------

  /** The frame as `SendFrame` numbers it. */
  ghost function TransferOf(stream: Stream, frame: seq<byte>, size: nat, start: nat, maxCounter: nat, clock: seq<nat>)
    : Transfer
    requires size > 0 && |clock| >= |Segments(frame, size)|
  {
    var segments := Segments(frame, size);
    Transfer(stream, segments, seq(|segments|, i requires 0 <= i < |segments| => NonceAt(start, maxCounter, i)),
             clock[..|segments|])
  }

  ghost function NonceAt(start: nat, maxCounter: nat, i: nat): nat {
    CounterIsNatural(start, maxCounter, i + 1);
    CounterAfter(start, maxCounter, i + 1)
  }

  /** What `SendFrame` plans to send is what this transfer sends, and its segments are the frame. */
  lemma PlanIsTransfer(s: Settings, stream: Stream, frame: seq<byte>, size: nat, start: nat, maxCounter: nat,
                       clock: seq<nat>, i: nat)
    requires size > 0 && |clock| >= |Segments(frame, size)| && i < |Segments(frame, size)|
    requires Sendable(s, TransferOf(stream, frame, size, start, maxCounter, clock))
    ensures var x := TransferOf(stream, frame, size, start, maxCounter, clock);
            && Plan(s.cipher, stream, x.segments, start, maxCounter, clock)[i] == Some(Sent(s, x, i))
            && Join(x.segments) == frame
  {
    var x := TransferOf(stream, frame, size, start, maxCounter, clock);
    SegmentsJoin(frame, size);
    PlanAt(s.cipher, stream, x.segments, start, maxCounter, clock, |x.segments|, i);
    assert x.nonces[i] == CounterAfter(start, maxCounter, i + 1) && x.clock[i] == clock[i];
    SentDatagramArrives(s, x.stream, i, |x.segments|, x.segments[i], x.nonces[i], x.clock[i]);
  }

  /** Sent in order by a counter that does not wrap, a frame's nonces rise, as strict mode asks. */
  lemma InOrderRises(stream: Stream, frame: seq<byte>, size: nat, start: nat, maxCounter: nat, clock: seq<nat>,
                     w: NonceWindow.Window, order: seq<nat>)
    requires size > 0 && |clock| >= |Segments(frame, size)| && start + |Segments(frame, size)| <= maxCounter
    requires w.latest <= start && forall n :: n in w.seen ==> n <= w.latest
    requires |order| == |Segments(frame, size)| && forall k :: 0 <= k < |order| ==> order[k] == k
    ensures var x := TransferOf(stream, frame, size, start, maxCounter, clock);
            |x.nonces| == |x.segments| && Indices(x, order) && Rising(x, w, order)
  {
    var x := TransferOf(stream, frame, size, start, maxCounter, clock);
    forall k | 0 <= k < |order| ensures x.nonces[order[k]] == start + k + 1 {
      CounterIsConsecutive(start, maxCounter, k + 1);
    }
  }

  /** The nonce octets of two datagrams differ. */
  ghost predicate NoncesDiffer(ds: seq<seq<byte>>)
    requires forall i :: 0 <= i < |ds| ==> |ds[i]| >= 38
  {
    forall i, j :: 0 <= i < j < |ds| ==> ds[i][30..38] != ds[j][30..38]
  }

  /** What the sender plans seals no two segments under one nonce exactly if the counter can count them all. */
  lemma PlannedNoncesDifferIff(s: Settings, stream: Stream, frame: seq<byte>, size: nat, start: nat, maxCounter: nat,
                               clock: seq<nat>, ds: seq<seq<byte>>)
    requires size > 0 && |clock| >= |Segments(frame, size)| == |ds|
    requires start <= maxCounter && 0 < maxCounter < 0x1_0000_0000_0000_0000
    requires Sendable(s, TransferOf(stream, frame, size, start, maxCounter, clock))
    requires forall i :: 0 <= i < |ds| ==>
               Plan(s.cipher, stream, Segments(frame, size), start, maxCounter, clock)[i] == Some(ds[i])
    ensures forall i :: 0 <= i < |ds| ==> |ds[i]| >= 38
    ensures NoncesDiffer(ds) <==> |ds| <= maxCounter
  {
    forall i | 0 <= i < |ds|
      ensures |ds[i]| >= 38 && NonceAfter(start, maxCounter, i + 1) == [0, 0, 0, 1] + ds[i][30..38]
    {
      PlannedNonce(s, stream, frame, size, start, maxCounter, clock, i, ds[i]);
    }
    NonceOctetsDistinctIff(start, maxCounter, |ds|);
    if NoncesDiffer(ds) {
      forall i, j | 1 <= i < j <= |ds| ensures NonceAfter(start, maxCounter, i) != NonceAfter(start, maxCounter, j) {
        assert ds[i - 1][30..38] != ds[j - 1][30..38];
        Prefixed(ds[i - 1][30..38], ds[j - 1][30..38]);
      }
    }
    if |ds| <= maxCounter {
      forall i, j | 0 <= i < j < |ds| ensures ds[i][30..38] != ds[j][30..38] {
        assert NonceAfter(start, maxCounter, i + 1) != NonceAfter(start, maxCounter, j + 1);
      }
    }
  }

  lemma Prefixed(a: seq<byte>, b: seq<byte>)
    requires a != b
    ensures [0, 0, 0, 1] + a != [0, 0, 0, 1] + b
  {
    assert ([0, 0, 0, 1] + a)[4..] == a && ([0, 0, 0, 1] + b)[4..] == b;
  }

  lemma PlannedNonce(s: Settings, stream: Stream, frame: seq<byte>, size: nat, start: nat, maxCounter: nat,
                     clock: seq<nat>, i: nat, d: seq<byte>)
    requires size > 0 && |clock| >= |Segments(frame, size)| && i < |Segments(frame, size)|
    requires Sendable(s, TransferOf(stream, frame, size, start, maxCounter, clock))
    requires Plan(s.cipher, stream, Segments(frame, size), start, maxCounter, clock)[i] == Some(d)
    ensures |d| >= 38 && NonceAfter(start, maxCounter, i + 1) == [0, 0, 0, 1] + d[30..38]
  {
    var x := TransferOf(stream, frame, size, start, maxCounter, clock);
    PlanIsTransfer(s, stream, frame, size, start, maxCounter, clock, i);
    assert x.nonces[i] == CounterAfter(start, maxCounter, i + 1);
    SentOctets(s.cipher, stream, i, |x.segments|, x.segments[i], x.nonces[i], x.clock[i]);
    NonceOnWire(d, x.nonces[i]);
  }

  /**
   * Segment, number, encrypt, pack; then parse, validate, decrypt, reassemble: the datagrams
   * the sender planned, in any order, give back exactly the frame that was cut, if and only if
   * no segment is longer than 1,400 octets or exactly 1,352 octets long.
   */
  lemma FrameRoundTrip(s: Settings, st: State, stream: Stream, frame: seq<byte>, size: nat, start: nat, maxCounter: nat,
                       clock: seq<nat>, order: seq<nat>, last: nat, ds: seq<seq<byte>>, d: seq<byte>)
    requires frame != [] && size > 0 && |clock| >= |Segments(frame, size)|
    requires var x := TransferOf(stream, frame, size, start, maxCounter, clock);
             var plan := Plan(s.cipher, stream, x.segments, start, maxCounter, clock);
             && Sendable(s, x) && Indices(x, order + [last]) && last !in order
             && (forall i: nat :: i < |x.segments| && i != last ==> i in order)
             && (s.strict ==> Rising(x, st.window, order + [last]))
             && R.Find(st.table, KeyFor(x)) < 0
             && |ds| == |order| && Indices(x, order) && (forall k :: 0 <= k < |order| ==> plan[order[k]] == Some(ds[k]))
             && last < |plan| && plan[last] == Some(d)
    requires TableInv(st.table, MAX_ACTIVE_FRAMES)
    ensures Received(s, Run(s, st, ds), d).1 == if AllAcceptable(Segments(frame, size)) then Some(frame) else None
  {
    var x := TransferOf(stream, frame, size, start, maxCounter, clock);
    IndicesOfPrefix(x, order, last);
    PlanIsTransfer(s, stream, frame, size, start, maxCounter, clock, last);
    forall k | 0 <= k < |order| ensures ds[k] == Sent(s, x, order[k]) {
      PlanIsTransfer(s, stream, frame, size, start, maxCounter, clock, order[k]);
    }
    assert ds == SentAll(s, x, order);
    AnyOrderDelivers(s, st, x, order, last);
  }

  /** So a one-segment frame comes out once for every copy of its datagram. */
  lemma {:induction false} EveryCopyIsDelivered(s: Settings, st: State, x: Transfer, ds: seq<seq<byte>>)
    requires Sendable(s, x) && |x.segments| == 1 && Acceptable(x.segments[0]) && !s.strict
    requires TableInv(st.table, MAX_ACTIVE_FRAMES) && R.Find(st.table, KeyFor(x)) < 0
    requires forall i :: 0 <= i < |ds| ==> ds[i] == Sent(s, x, 0)
    ensures |Frames(s, st, ds)| == |ds| && forall i :: 0 <= i < |ds| ==> Frames(s, st, ds)[i] == Join(x.segments)
    decreases |ds|
  {
    if ds != [] {
      var st' := CopyIsDelivered(s, st, x, ds);
      EveryCopyIsDelivered(s, st', x, ds[1..]);
    }
  }

  lemma CopyIsDelivered(s: Settings, st: State, x: Transfer, ds: seq<seq<byte>>) returns (st': State)
    requires Sendable(s, x) && |x.segments| == 1 && Acceptable(x.segments[0]) && !s.strict
    requires TableInv(st.table, MAX_ACTIVE_FRAMES) && R.Find(st.table, KeyFor(x)) < 0
    requires ds != [] && ds[0] == Sent(s, x, 0)
    ensures st'.table == st.table && Frames(s, st, ds) == [Join(x.segments)] + Frames(s, st', ds[1..])
  {
    st' := Received(s, st, ds[0]).0;
    OneSegmentDelivers(st.table, Arrival(HeaderAt(x, 0), x.segments[0]), x.segments);
    ReceivedIsPush(s, st, ds[0]);
  }

  lemma OneSegmentDelivers(table: R.Table, a: Arrival, segments: seq<seq<byte>>)
    requires TableInv(table, MAX_ACTIVE_FRAMES) && R.Find(table, R.KeyOf(a.header)) < 0
    requires |segments| == 1 && Carries(a, segments)
    ensures Output(table, MAX_ACTIVE_FRAMES, a) == Some(Join(segments)) && Next(table, MAX_ACTIVE_FRAMES, a) == table
  {
    OwnArrival(table, MAX_ACTIVE_FRAMES, a, R.KeyOf(a.header), segments, {});
    PushCases(table, MAX_ACTIVE_FRAMES, a);
    assert Complete(Holding(segments, {} + {0}).Keys, 1);
  }
}
