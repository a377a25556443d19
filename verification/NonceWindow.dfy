/**
 * Replay protection of the receiver: a set of recently accepted nonces that is pruned to a
 * window, and a high-water mark. Counters may be any integers, as in the source.
 */
module NonceWindow {
  /** `latest_nonce` and `seen_nonces` */
  datatype Window = Window(latest: int, seen: set<int>)

  const FRESH := Window(0, {})

  predicate Accepts(w: Window, reorder: int, n: int) {
    n !in w.seen && (n > w.latest || n + reorder > w.latest)
  }

  /** The window after accepting `n`, before pruning. */
  function Remember(w: Window, n: int): Window {
    Window(if n > w.latest then n else w.latest, w.seen + {n})
  }

  function Prune(w: Window, replay: int): Window {
    if |w.seen| > replay then Window(w.latest, set k | k in w.seen && k > w.latest - replay) else w
  }

  function Next(w: Window, replay: int, reorder: int, n: int): Window {
    if Accepts(w, reorder, n) then Prune(Remember(w, n), replay) else w
  }

  function Decisions(w: Window, replay: int, reorder: int, ns: seq<int>): (ds: seq<bool>)
    ensures |ds| == |ns|
    decreases |ns|
  {
    if ns == [] then []
    else [Accepts(w, reorder, ns[0])] + Decisions(Next(w, replay, reorder, ns[0]), replay, reorder, ns[1..])
  }

  function After(w: Window, replay: int, reorder: int, ns: seq<int>): Window
    decreases |ns|
  {
    if ns == [] then w else After(Next(w, replay, reorder, ns[0]), replay, reorder, ns[1..])
  }

  /** A nonce above everything seen is accepted and becomes the high-water mark. */
  lemma AboveIsAccepted(w: Window, replay: int, reorder: int, n: int)
    requires n > w.latest && forall k :: k in w.seen ==> k <= w.latest
    ensures Accepts(w, reorder, n)
    ensures var w' := Next(w, replay, reorder, n); w'.latest == n && forall k :: k in w'.seen ==> k <= n
  {
  }

  /** `NonceValidator`: the fields a receiver keeps, updated in place. */
  class NonceValidator {
    const replayWindow: int
    const reorderWindow: int
    var latestNonce: int
    var seenNonces: set<int>
    var rejectsMonotonic: nat
    var rejectsReplay: nat
    var reordered: nat

    ghost function Value(): Window reads this { Window(latestNonce, seenNonces) }

    constructor (replayWindow: int, reorderWindow: int)
      ensures this.replayWindow == replayWindow && this.reorderWindow == reorderWindow
      ensures Value() == FRESH && rejectsMonotonic == rejectsReplay == reordered == 0
    {
      this.replayWindow, this.reorderWindow := replayWindow, reorderWindow;
      latestNonce, seenNonces := 0, {};
      rejectsMonotonic, rejectsReplay, reordered := 0, 0, 0;
    }

    method ValidateAndTrack(n: int) returns (ok: bool)
      modifies this
      ensures ok == Accepts(old(Value()), reorderWindow, n)
      ensures Value() == Next(old(Value()), replayWindow, reorderWindow, n)
      ensures ok <==> n !in old(seenNonces) && (n > old(latestNonce) || n + reorderWindow > old(latestNonce))
      ensures latestNonce == if ok && n > old(latestNonce) then n else old(latestNonce)
      ensures var all := old(seenNonces) + {n};
              seenNonces == if !ok then old(seenNonces)
                            else if |all| > replayWindow then set k | k in all && k > latestNonce - replayWindow
                            else all
      ensures rejectsReplay == old(rejectsReplay) + if n in old(seenNonces) then 1 else 0
      ensures rejectsMonotonic == old(rejectsMonotonic) + if !ok && n !in old(seenNonces) then 1 else 0
      ensures reordered == old(reordered) + if ok && n <= old(latestNonce) then 1 else 0
    {
      if n in seenNonces {
        rejectsReplay := rejectsReplay + 1;
        return false;
      }
      if n > latestNonce {
      } else if n + reorderWindow > latestNonce {
        reordered := reordered + 1;
      } else {
        rejectsMonotonic := rejectsMonotonic + 1;
        return false;
      }
      seenNonces := seenNonces + {n};
      if n > latestNonce {
        latestNonce := n;
      }
      if |seenNonces| > replayWindow {
        var cutoff := latestNonce - replayWindow;
        seenNonces := set k | k in seenNonces && k > cutoff;
      }
      return true;
    }
  }

  // ----- the reference: nothing is ever forgotten --------------------------------------------

  function NextUnbounded(w: Window, reorder: int, n: int): Window {
    if Accepts(w, reorder, n) then Remember(w, n) else w
  }

  function UnboundedDecisions(w: Window, reorder: int, ns: seq<int>): (ds: seq<bool>)
    ensures |ds| == |ns|
    decreases |ns|
  {
    if ns == [] then []
    else [Accepts(w, reorder, ns[0])] + UnboundedDecisions(NextUnbounded(w, reorder, ns[0]), reorder, ns[1..])
  }

  /** The pruned window has lost only nonces too old to be accepted again. */
  ghost predicate Lossless(pruned: Window, full: Window, reorder: int) {
    && pruned.latest == full.latest && pruned.seen <= full.seen
    && (forall n :: n in full.seen && n !in pruned.seen ==> n + reorder <= full.latest)
    && (forall n :: n in full.seen ==> n <= full.latest)
  }

  lemma {:induction false} PrunedDecidesAlike(pruned: Window, full: Window, replay: int, reorder: int, ns: seq<int>)
    requires reorder <= 0 || reorder <= replay
    requires Lossless(pruned, full, reorder)
    ensures Decisions(pruned, replay, reorder, ns) == UnboundedDecisions(full, reorder, ns)
    decreases |ns|
  {
    if ns != [] {
      assert Accepts(pruned, reorder, ns[0]) == Accepts(full, reorder, ns[0]);
      PrunedDecidesAlike(Next(pruned, replay, reorder, ns[0]), NextUnbounded(full, reorder, ns[0]), replay, reorder,
                         ns[1..]);
    }
  }

  ghost predicate AcceptedTwice(ns: seq<int>, ds: seq<bool>)
    requires |ns| == |ds|
  {
    exists i, j :: 0 <= i < j < |ns| && ds[i] && ds[j] && ns[i] == ns[j]
  }

  lemma {:induction false} RememberedIsRejected(w: Window, reorder: int, ns: seq<int>, n: int, j: nat)
    requires n in w.seen && j < |ns| && ns[j] == n
    ensures !UnboundedDecisions(w, reorder, ns)[j]
    decreases |ns|
  {
    if j > 0 { RememberedIsRejected(NextUnbounded(w, reorder, ns[0]), reorder, ns[1..], n, j - 1); }
  }

  lemma {:induction false} UnboundedNeverAcceptsTwice(w: Window, reorder: int, ns: seq<int>)
    ensures !AcceptedTwice(ns, UnboundedDecisions(w, reorder, ns))
    decreases |ns|
  {
    var ds := UnboundedDecisions(w, reorder, ns);
    if ns != [] {
      var w' := NextUnbounded(w, reorder, ns[0]);
      UnboundedNeverAcceptsTwice(w', reorder, ns[1..]);
      forall i, j | 0 <= i < j < |ns| && ds[i] && ds[j]
        ensures ns[i] != ns[j]
      {
        if i == 0 {
          if ns[0] == ns[j] { RememberedIsRejected(w', reorder, ns[1..], ns[0], j - 1); }
        } else {
          assert ns[1..][i - 1] == ns[i] && ns[1..][j - 1] == ns[j];
        }
      }
    }
  }

  // ----- why the window order matters --------------------------------------------------------

  function UpTo(m: nat): seq<int> { seq(m, i => i + 1) }

  function Range(m: nat): (r: set<int>)
    ensures |r| == m && forall i :: i in r <==> 1 <= i <= m
  {
    if m == 0 then {} else Range(m - 1) + {m}
  }

  lemma {:induction false} AfterAppend(w: Window, replay: int, reorder: int, ns: seq<int>, n: int)
    ensures After(w, replay, reorder, ns + [n]) == Next(After(w, replay, reorder, ns), replay, reorder, n)
    ensures Decisions(w, replay, reorder, ns + [n])
            == Decisions(w, replay, reorder, ns) + [Accepts(After(w, replay, reorder, ns), reorder, n)]
    decreases |ns|
  {
    if ns == [] {
      assert ns + [n] == [n] && [n][1..] == [];
    } else {
      assert (ns + [n])[1..] == ns[1..] + [n];
      AfterAppend(Next(w, replay, reorder, ns[0]), replay, reorder, ns[1..], n);
    }
  }

  lemma UpToStep(m: nat)
    requires m > 0
    ensures UpTo(m) == UpTo(m - 1) + [m]
  {
  }

  /** Counting up, nothing is pruned before the window is exceeded. */
  lemma {:induction false} CountingUp(replay: int, reorder: int, m: nat)
    requires m == 0 || m <= replay
    ensures After(FRESH, replay, reorder, UpTo(m)) == Window(m, Range(m))
    ensures forall i :: 0 <= i < m ==> Decisions(FRESH, replay, reorder, UpTo(m))[i]
  {
    if m > 0 {
      CountingUp(replay, reorder, m - 1);
      UpToStep(m);
      AfterAppend(FRESH, replay, reorder, UpTo(m - 1), m);
    } else {
      assert UpTo(0) == [];
    }
  }

  /** With a reorder window wider than the replay window, nonce 1 is accepted twice. */
  lemma ReplayAcceptedWhenWiderReorder(replay: int, reorder: int) returns (ns: seq<int>)
    requires reorder > 0 && reorder > replay
    ensures AcceptedTwice(ns, Decisions(FRESH, replay, reorder, ns))
  {
    var k: nat := if replay > 0 then replay else 0;
    CountingUp(replay, reorder, k);
    var up := UpTo(k);
    var w := After(FRESH, replay, reorder, up);
    AfterAppend(FRESH, replay, reorder, up, k + 1);
    assert |w.seen + {k + 1}| == k + 1;
    var w' := After(FRESH, replay, reorder, up + [k + 1]);
    assert w'.latest == k + 1 && 1 !in w'.seen;
    AfterAppend(FRESH, replay, reorder, up + [k + 1], 1);
    ns := up + [k + 1] + [1];
    var ds := Decisions(FRESH, replay, reorder, ns);
    assert ns[0] == 1 && ds[0] && ns[k + 1] == 1 && ds[k + 1];
  }

  /**
   * Pruning changes no decision, on any sequence of nonces, exactly when the reorder window
   * is at most the replay window or empty.
   */
  lemma PruningIsInvisibleIff(replay: int, reorder: int)
    ensures (forall ns: seq<int> :: Decisions(FRESH, replay, reorder, ns) == UnboundedDecisions(FRESH, reorder, ns))
            <==> reorder <= 0 || reorder <= replay
    ensures (forall ns: seq<int> :: !AcceptedTwice(ns, Decisions(FRESH, replay, reorder, ns)))
            <==> reorder <= 0 || reorder <= replay
  {
    if reorder <= 0 || reorder <= replay {
      forall ns: seq<int>
        ensures Decisions(FRESH, replay, reorder, ns) == UnboundedDecisions(FRESH, reorder, ns)
        ensures !AcceptedTwice(ns, Decisions(FRESH, replay, reorder, ns))
      {
        PrunedDecidesAlike(FRESH, FRESH, replay, reorder, ns);
        UnboundedNeverAcceptsTwice(FRESH, reorder, ns);
      }
    } else {
      var ns := ReplayAcceptedWhenWiderReorder(replay, reorder);
      UnboundedNeverAcceptsTwice(FRESH, reorder, ns);
    }
  }

  // ----- bounds, reordering, strict mode -----------------------------------------------------

  lemma {:induction false} RangeBound(s: set<int>, low: int, high: int)
    requires forall k :: k in s ==> low < k <= high
    requires low <= high
    ensures |s| <= high - low
    decreases high - low
  {
    if low == high {
      forall k | k in s ensures false { }
      assert s == {};
    } else {
      RangeBound(s - {high}, low, high - 1);
      if high !in s { assert s - {high} == s; }
    }
  }

  /** After every call at most `replay` nonces are tracked, none above the high-water mark. */
  lemma {:induction false} TrackedSetIsBounded(w: Window, replay: nat, reorder: int, ns: seq<int>)
    requires |w.seen| <= replay && forall k :: k in w.seen ==> k <= w.latest
    ensures var t := After(w, replay, reorder, ns);
            |t.seen| <= replay && (forall k :: k in t.seen ==> k <= t.latest) && w.latest <= t.latest
    decreases |ns|
  {
    if ns != [] {
      var t := Next(w, replay, reorder, ns[0]);
      if |Remember(w, ns[0]).seen| > replay && Accepts(w, reorder, ns[0]) {
        RangeBound(t.seen, t.latest - replay, t.latest);
      }
      TrackedSetIsBounded(t, replay, reorder, ns[1..]);
    }
  }

  /**
   * Any arrival order of distinct new nonces within one reorder window is accepted in full,
   * whatever the replay window.
   */
  lemma {:induction false} ReorderedArrivalsAccepted(w: Window, replay: int, reorder: int, ns: seq<int>, top: int)
    requires w.latest <= top
    requires forall i :: 0 <= i < |ns| ==> top - reorder < ns[i] <= top && ns[i] !in w.seen
    requires forall i, j :: 0 <= i < j < |ns| ==> ns[i] != ns[j]
    ensures forall i :: 0 <= i < |ns| ==> Decisions(w, replay, reorder, ns)[i]
    decreases |ns|
  {
    if ns != [] {
      ReorderedArrivalsAccepted(Next(w, replay, reorder, ns[0]), replay, reorder, ns[1..], top);
    }
  }

  /** With an empty reorder window exactly the strict running maxima above the mark pass. */
  lemma {:induction false} StrictAcceptsRunningMaxima(w: Window, replay: int, reorder: int, ns: seq<int>)
    requires reorder <= 0 && forall k :: k in w.seen ==> k <= w.latest
    ensures forall i :: 0 <= i < |ns| ==>
              (Decisions(w, replay, reorder, ns)[i] <==> ns[i] > w.latest && forall j :: 0 <= j < i ==> ns[i] > ns[j])
    decreases |ns|
  {
    if ns != [] {
      var w' := Next(w, replay, reorder, ns[0]);
      StrictAcceptsRunningMaxima(w', replay, reorder, ns[1..]);
      var ds := Decisions(w, replay, reorder, ns);
      forall i | 0 < i < |ns|
        ensures ds[i] <==> ns[i] > w.latest && forall j :: 0 <= j < i ==> ns[i] > ns[j]
      {
        assert ds[i] <==> ns[i] > w'.latest && forall j :: 0 <= j < i - 1 ==> ns[i] > ns[1..][j];
        assert (forall j :: 0 <= j < i - 1 ==> ns[i] > ns[1..][j]) <==> (forall j :: 1 <= j < i ==> ns[i] > ns[j]) by {
          assert forall j :: 0 <= j < i - 1 ==> ns[1..][j] == ns[j + 1];
          assert forall j :: 1 <= j < i ==> ns[j] == ns[1..][j - 1];
        }
      }
    }
  }

  /** A nonce stays tracked while nothing a replay window above it arrives. */
  lemma {:induction false} TrackedStays(w: Window, replay: int, reorder: int, ns: seq<int>, n: int, top: int)
    requires n in w.seen && top - replay < n && w.latest <= top && forall i :: 0 <= i < |ns| ==> ns[i] <= top
    ensures n in After(w, replay, reorder, ns).seen
    decreases |ns|
  {
    if ns != [] { TrackedStays(Next(w, replay, reorder, ns[0]), replay, reorder, ns[1..], n, top); }
  }

  /** With equal windows, nonces that arrive within one window in any order are all tracked afterwards. */
  lemma {:induction false} ReorderedArrivalsTracked(w: Window, window: int, ns: seq<int>, top: int)
    requires w.latest <= top && forall i :: 0 <= i < |ns| ==> top - window < ns[i] <= top
    ensures forall i :: 0 <= i < |ns| ==> ns[i] in After(w, window, window, ns).seen
    decreases |ns|
  {
    if ns != [] {
      var w' := Next(w, window, window, ns[0]);
      assert ns[0] in w'.seen;
      TrackedStays(w', window, window, ns[1..], ns[0], top);
      ReorderedArrivalsTracked(w', window, ns[1..], top);
      forall i | 0 <= i < |ns| ensures ns[i] in After(w, window, window, ns).seen {
        if i > 0 { assert ns[i] == ns[1..][i - 1]; }
      }
    }
  }
}
