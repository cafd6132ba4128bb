/**
 The controller without its step function: each of its four fields read off the history of calls by looking only at
 which calls occurred and in what order.
 */
module FallbackHistory {
  import opened Fallback

  /** The calls that end the connecting phase. */
  predicate Decisive(c: Call) {
    match c
    case CurrentState => false
    case IceStateChanged(ice) => ice == Connected || ice == Failed
    case DirectChannelResult(_) => true
    case Tick(elapsed) => elapsed >= 6_000
  }

  /** No call before position `i` ended the connecting phase. */
  predicate Undecided(h: History, i: nat)
    requires i <= |h|
  {
    forall k | 0 <= k < i :: !Decisive(h[k])
  }

  predicate IsTickIn(c: Call, lo: int, hi: int) {
    c.Tick? && lo <= c.elapsed < hi
  }

  predicate Triggers(h: History, i: nat)
    requires i < |h|
  {
    || h[i] == IceStateChanged(Failed)
    || (IsTickIn(h[i], 6_000, 20_000) && Undecided(h, i))
  }

  predicate TriggeredBefore(h: History, i: nat)
    requires i <= |h|
  {
    exists k | 0 <= k < i :: Triggers(h, k)
  }

  predicate Reassures(h: History, i: nat)
    requires i < |h|
  {
    IsTickIn(h[i], 3_000, 6_000) && Undecided(h, i)
  }

  predicate ReassuredBefore(h: History, i: nat)
    requires i <= |h|
  {
    exists k | 0 <= k < i :: Reassures(h, k)
  }

  /** Call `i` writes the visible state. */
  predicate Effective(h: History, i: nat)
    requires i < |h|
  {
    match h[i]
    case CurrentState => false
    case IceStateChanged(ice) => ice == Connected || (ice == Failed && !TriggeredBefore(h, i))
    case DirectChannelResult(_) => true
    case Tick(elapsed) =>
      && Undecided(h, i)
      && (elapsed >= 6_000 || (elapsed >= 3_000 && !ReassuredBefore(h, i)))
  }

  /** What an effective call writes; it depends on the call alone. */
  function Written(c: Call): TransportState {
    match c
    case CurrentState => Connecting(ConnectingText)
    case IceStateChanged(ice) =>
      if ice == Connected then WebRtcConnected else FallingBackToDirectChannel(WebRtcFailedText, true)
    case DirectChannelResult(connected) => if connected then DirectChannelConnected else Abandoned(BothFailedText)
    case Tick(elapsed) =>
      if elapsed >= 20_000 then Abandoned(TimedOutText)
      else if elapsed >= 6_000 then FallingBackToDirectChannel(StillViaWebRtcText, true)
      else Connecting(StillConnectingText)
  }

  ghost predicate LastEffective(h: History, i: nat) {
    && i < |h|
    && Effective(h, i)
    && forall k | i < k < |h| :: !Effective(h, k)
  }

  ghost predicate LastIceReport(h: History, i: nat) {
    && i < |h|
    && h[i].IceStateChanged?
    && forall k | i < k < |h| :: !h[k].IceStateChanged?
  }

  ghost predicate CurrentIs(h: History, current: TransportState) {
    || (current == Connecting(ConnectingText) && forall i | 0 <= i < |h| :: !Effective(h, i))
    || exists i: nat :: LastEffective(h, i) && current == Written(h[i])
  }

  ghost predicate IceIs(h: History, ice: IceConnectionState) {
    || (ice == New && forall i | 0 <= i < |h| :: !h[i].IceStateChanged?)
    || exists i: nat :: LastIceReport(h, i) && h[i].ice == ice
  }

  ghost predicate IsOutcome(h: History, s: ControllerState) {
    && CurrentIs(h, s.current)
    && IceIs(h, s.ice)
    && s.fallbackTriggered == TriggeredBefore(h, |h|)
    && s.earlyStatusEmitted == ReassuredBefore(h, |h|)
  }

  // ----- The readings depend only on the calls they mention -----

  lemma Frame(h: History, n: nat, i: nat)
    requires i <= n <= |h|
    ensures Undecided(h[..n], i) == Undecided(h, i)
    ensures TriggeredBefore(h[..n], i) == TriggeredBefore(h, i)
    ensures ReassuredBefore(h[..n], i) == ReassuredBefore(h, i)
    ensures i < n ==> Effective(h[..n], i) == Effective(h, i)
  {
    var g := h[..n];
    assert forall k | 0 <= k < n :: g[k] == h[k];
    assert forall k | 0 <= k < i :: Triggers(g, k) == Triggers(h, k);
    assert forall k | 0 <= k < i :: Reassures(g, k) == Reassures(h, k);
  }

  lemma ReadingsStep(h: History)
    requires h != []
    ensures var n := |h| - 1; var g := h[..n];
            && Undecided(h, n + 1) == (Undecided(g, n) && !Decisive(h[n]))
            && TriggeredBefore(h, n + 1) == (TriggeredBefore(g, n) || Triggers(h, n))
            && ReassuredBefore(h, n + 1) == (ReassuredBefore(g, n) || Reassures(h, n))
            && (Undecided(g, n) == Undecided(h, n))
            && (TriggeredBefore(g, n) == TriggeredBefore(h, n))
            && (ReassuredBefore(g, n) == ReassuredBefore(h, n))
  {
    Frame(h, |h| - 1, |h| - 1);
  }

  lemma CurrentStep(h: History, before: TransportState)
    requires h != [] && CurrentIs(h[..|h| - 1], before)
    ensures CurrentIs(h, if Effective(h, |h| - 1) then Written(h[|h| - 1]) else before)
  {
    var n := |h| - 1;
    var g := h[..n];
    forall i | 0 <= i < n ensures Effective(g, i) == Effective(h, i) {
      Frame(h, n, i);
    }
    if Effective(h, n) {
      assert LastEffective(h, n);
    } else if exists i: nat :: LastEffective(g, i) && before == Written(g[i]) {
      var i: nat :| LastEffective(g, i) && before == Written(g[i]);
      assert LastEffective(h, i) && before == Written(h[i]);
    }
  }

  lemma IceStep(h: History, before: IceConnectionState)
    requires h != [] && IceIs(h[..|h| - 1], before)
    ensures IceIs(h, if h[|h| - 1].IceStateChanged? then h[|h| - 1].ice else before)
  {
    var n := |h| - 1;
    var g := h[..n];
    if h[n].IceStateChanged? {
      assert LastIceReport(h, n);
    } else if exists i: nat :: LastIceReport(g, i) && g[i].ice == before {
      var i: nat :| LastIceReport(g, i) && g[i].ice == before;
      assert LastIceReport(h, i) && h[i].ice == before;
    }
  }

  // ----- Main results -----

  /** The controller is still connecting exactly when no call ended that phase, and then no fallback was triggered. */
  lemma {:induction false} ConnectingIffUndecided(h: History)
    ensures Run(h).current.Connecting? <==> Undecided(h, |h|)
    ensures Run(h).current.Connecting? ==> !Run(h).fallbackTriggered
  {
    if h == [] {
    } else {
      ConnectingIffUndecided(h[..|h| - 1]);
      ReadingsStep(h);
    }
  }

  lemma {:induction false} RunIsOutcome(h: History)
    ensures IsOutcome(h, Run(h))
  {
    if h == [] {
    } else {
      hide CurrentIs, IceIs, TriggeredBefore, ReassuredBefore, Undecided;
      var n := |h| - 1;
      var g := h[..n];
      RunIsOutcome(g);
      ConnectingIffUndecided(g);
      ReadingsStep(h);
      CurrentStep(h, Run(g).current);
      IceStep(h, Run(g).ice);
    }
  }

  lemma OutcomeUnique(h: History, s: ControllerState, t: ControllerState)
    requires IsOutcome(h, s) && IsOutcome(h, t)
    ensures s == t
  {
    forall i: nat, j: nat | LastEffective(h, i) && LastEffective(h, j) ensures i == j {
    }
    forall i: nat, j: nat | LastIceReport(h, i) && LastIceReport(h, j) ensures i == j {
    }
  }

  /** The history alone determines the controller: all four fields, and so every value a call returned. */
  lemma OutcomeExact(h: History, s: ControllerState)
    ensures IsOutcome(h, s) <==> s == Run(h)
  {
    RunIsOutcome(h);
    if IsOutcome(h, s) {
      OutcomeUnique(h, s, Run(h));
    }
  }
}
