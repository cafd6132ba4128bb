/** Properties of whole runs: how often the controller moves by itself, and which calls make no difference. */
module FallbackRuns {
  import opened Fallback
  import opened FallbackHistory
  import opened FallbackReach
  import opened FallbackTiming

  // ----- How often the visible state changes without anyone succeeding or reporting a result -----

  predicate Spontaneous(c: Call) {
    c.Tick? || c == IceStateChanged(Failed)
  }

  function Changes(h: History): nat {
    if h == [] then 0
    else
      var g, c := h[..|h| - 1], h[|h| - 1];
      Changes(g) + if Spontaneous(c) && Run(h).current != Run(g).current then 1 else 0
  }

  /** How often the fallback state is entered from another state. */
  function FallbackEntries(h: History): nat {
    if h == [] then 0
    else
      var g := h[..|h| - 1];
      FallbackEntries(g) +
      if Run(h).current.FallingBackToDirectChannel? && !Run(g).current.FallingBackToDirectChannel? then 1 else 0
  }

  lemma NoChangesYet()
    ensures Changes([]) == 0 && Run([]) == INITIAL
  {
  }

  lemma ChangesSnoc(h: History, c: Call)
    ensures Changes(h + [c]) ==
            Changes(h) + if Spontaneous(c) && Step(Run(h), c).current != Run(h).current then 1 else 0
  {
    SnocFacts(h, c);
  }

  lemma {:induction false} ChangesPotential(h: History)
    ensures var s := Run(h);
            if s.current.Connecting? then Changes(h) == if s.earlyStatusEmitted then 1 else 0
            else if !s.fallbackTriggered then Changes(h) <= 2
            else Changes(h) <= 3
  {
    hide Changes, Run;
    if h == [] {
      NoChangesYet();
    } else {
      var g, c := h[..|h| - 1], h[|h| - 1];
      assert h == g + [c];
      ChangesPotential(g);
      ChangesSnoc(g, c);
      SnocFacts(g, c);
      AlwaysInvariant(g);
    }
  }

  lemma {:induction false} RegularChangesPotential(h: History, d: nat)
    requires Regular(h, d) && d <= 14_000
    ensures var s := Run(h);
            if s.current.Connecting? then Changes(h) == if s.earlyStatusEmitted then 1 else 0
            else if !s.fallbackTriggered then Changes(h) <= 1
            else Changes(h) <= 2
  {
    hide Changes, Run, Clock, StatusSince, Regular;
    if h == [] {
      NoChangesYet();
    } else {
      var g, c := h[..|h| - 1], h[|h| - 1];
      assert h == g + [c];
      RegularSnoc(g, c, d);
      RegularChangesPotential(g, d);
      ChangesSnoc(g, c);
      SnocFacts(g, c);
      AlwaysInvariant(g);
      ConnectingClock(g);
    }
  }

  /** Ticks and failure reports change the visible state at most 3 times over any run. */
  lemma AtMostThreeChanges(h: History)
    ensures Changes(h) <= 3
  {
    ChangesPotential(h);
  }

  /** Three changes can happen exactly when ticks may be more than 14 seconds apart; otherwise there are at most two. */
  lemma ThreeChangesThreshold(d: nat)
    ensures (exists h: History :: Regular(h, d) && Changes(h) == 3) <==> d >= 14_001
    ensures d <= 14_000 ==> forall h: History :: Regular(h, d) ==> Changes(h) <= 2
  {
    if d >= 14_001 {
      TimeoutRun(d);
      var early: History := [] + [Tick(5_999)];
      var late := early + [Tick(20_000)];
      var failed := late + [IceStateChanged(Failed)];
      ChangesSnoc([], Tick(5_999));
      SnocFacts([], Tick(5_999));
      ChangesSnoc(early, Tick(20_000));
      SnocFacts(early, Tick(20_000));
      ChangesSnoc(late, IceStateChanged(Failed));
      RegularSnoc(late, IceStateChanged(Failed), d);
      assert Regular(failed, d) && Changes(failed) == 3;
    } else {
      forall h: History | Regular(h, d) ensures Changes(h) <= 2 {
        RegularChangesPotential(h, d);
      }
    }
  }

  /** Two changes are always possible, however fine the timer. */
  lemma TwoChangesAreReached(d: nat)
    requires d >= 1
    ensures exists h: History :: Regular(h, d) && Changes(h) == 2
  {
    hide Changes, Run, Clock, StatusSince, Regular, EveryMs;
    var quiet := EveryMs(2_999);
    var early := quiet + [Tick(3_000)];
    var failed := early + [IceStateChanged(Failed)];
    EveryMsRun(2_999, d);
    ChangesPotential(quiet);
    SnocFacts(quiet, Tick(3_000));
    ChangesSnoc(quiet, Tick(3_000));
    ChangesSnoc(early, IceStateChanged(Failed));
    RegularSnoc(quiet, Tick(3_000), d);
    RegularSnoc(early, IceStateChanged(Failed), d);
    assert Regular(failed, d) && Changes(failed) == 2;
  }

  lemma {:induction false} EntriesPotential(h: History)
    ensures FallbackEntries(h) == if Run(h).fallbackTriggered then 1 else 0
  {
    if h == [] {
    } else {
      var g, c := h[..|h| - 1], h[|h| - 1];
      assert h == g + [c];
      EntriesPotential(g);
      SnocFacts(g, c);
      AlwaysInvariant(g);
    }
  }

  /** The fallback is entered once if at all, and whenever it is shown it demands fresh signaling. */
  lemma FallbackOnceAndFresh(h: History)
    ensures FallbackEntries(h) == if FellBackBefore(h, |h|) then 1 else 0
    ensures Run(h).current.FallingBackToDirectChannel? ==> Run(h).current.needsFreshSignaling
  {
    EntriesPotential(h);
    TriggeredIffFellBack(h);
    AlwaysInvariant(h);
  }

  /** The connecting phase is never re-entered. */
  lemma {:induction false} StaysOutOfConnecting(s: ControllerState, h: History)
    requires !s.current.Connecting?
    ensures !After(s, h).current.Connecting?
  {
    if h == [] {
    } else {
      StaysOutOfConnecting(s, h[..|h| - 1]);
    }
  }

  // ----- What the user reads after each change -----

  lemma TextsExactly(h: History, c: Call)
    requires Run(h + [c]).current != Run(h).current
    ensures
      match Run(h + [c]).current
      case Connecting(status) => c.Tick? && status == StillConnectingText
      case WebRtcConnected => c == IceStateChanged(Connected)
      case FallingBackToDirectChannel(status, _) =>
        || (c.Tick? && status == StillViaWebRtcText)
        || (c == IceStateChanged(Failed) && status == WebRtcFailedText)
      case DirectChannelConnected => c == DirectChannelResult(true)
      case Abandoned(reason) =>
        || (c.Tick? && reason == TimedOutText)
        || (c == DirectChannelResult(false) && reason == BothFailedText)
  {
    SnocFacts(h, c);
  }

  /** Whenever a call changes the visible state, the words shown are those of the kind of call that changed it. */
  lemma WordsExactly(h: History, c: Call)
    requires Run(h + [c]).current != Run(h).current
    ensures
      match Run(h + [c]).current
      case Connecting(status) => c.Tick? && Wording(status) == "Still connecting…"
      case WebRtcConnected => c == IceStateChanged(Connected)
      case FallingBackToDirectChannel(status, _) =>
        || (c.Tick? && Wording(status) == "Still connecting via WebRTC, trying direct channel…")
        || (c == IceStateChanged(Failed) && Wording(status) == "WebRTC connection failed, trying direct channel…")
      case DirectChannelConnected => c == DirectChannelResult(true)
      case Abandoned(reason) =>
        || (c.Tick? && Wording(reason) == "Timed out waiting for a connection.")
        || (c == DirectChannelResult(false) &&
            Wording(reason) == "Both WebRTC and the direct channel failed to connect.")
  {
    hide Run, Wording;
    TextsExactly(h, c);
    WordingTable();
  }

  // ----- Calls that make no difference -----

  function WithoutTicks(h: History): History {
    if h == [] then []
    else
      var g, c := h[..|h| - 1], h[|h| - 1];
      if c.Tick? then WithoutTicks(g) else WithoutTicks(g) + [c]
  }

  /** What the calls other than ticks return. */
  function OtherResults(s: ControllerState, h: History): seq<TransportState> {
    if h == [] then []
    else
      var g, c := h[..|h| - 1], h[|h| - 1];
      if c.Tick? then OtherResults(s, g) else OtherResults(s, g) + [After(s, h).current]
  }

  /** Once out of the connecting phase, ticks may be dropped: no other call notices and the final state is the same. */
  lemma {:induction false} TickErasure(s: ControllerState, h: History)
    requires !s.current.Connecting?
    ensures After(s, WithoutTicks(h)) == After(s, h)
    ensures OtherResults(s, WithoutTicks(h)) == OtherResults(s, h)
  {
    if h == [] {
    } else {
      var g, c := h[..|h| - 1], h[|h| - 1];
      TickErasure(s, g);
      StaysOutOfConnecting(s, g);
      if !c.Tick? {
        var f := WithoutTicks(g);
        assert (f + [c])[..|f|] == f;
      }
    }
  }

  /** Runs of equal calls reduced to one call each. */
  function Collapse(h: History): History {
    if |h| <= 1 then h
    else
      var g, c := h[..|h| - 1], h[|h| - 1];
      if g[|g| - 1] == c then Collapse(g) else Collapse(g) + [c]
  }

  lemma StepIdempotent(s: ControllerState, c: Call)
    ensures Step(Step(s, c), c) == Step(s, c)
  {
  }

  /** Reporting the same thing again changes nothing, from any state and anywhere in a run. */
  lemma {:induction false} CollapseKeepsState(s: ControllerState, h: History)
    ensures After(s, Collapse(h)) == After(s, h)
  {
    if |h| <= 1 {
    } else {
      var g, c := h[..|h| - 1], h[|h| - 1];
      CollapseKeepsState(s, g);
      if g[|g| - 1] == c {
        StepIdempotent(After(s, g[..|g| - 1]), c);
      } else {
        AfterSnoc(s, Collapse(g), c);
      }
    }
  }

  // ----- Callers that report a direct-channel result only after being told to fall back -----

  predicate DemandsFreshSignaling(t: TransportState) {
    t.FallingBackToDirectChannel? && t.needsFreshSignaling
  }

  /** One of the first `i` calls returned a fallback state. */
  ghost predicate FellBackBefore(h: History, i: nat)
    requires i <= |h|
  {
    exists j: nat :: j <= i && Run(h[..j]).current.FallingBackToDirectChannel?
  }

  /** Each direct-channel result comes after some call returned a fallback state. */
  ghost predicate Disciplined(h: History) {
    forall i | 0 <= i < |h| && h[i].DirectChannelResult? :: FellBackBefore(h, i)
  }

  predicate DirectSettled(t: TransportState) {
    t == DirectChannelConnected || t == Abandoned(BothFailedText)
  }

  lemma {:induction false} SettledByResult(h: History) returns (i: nat)
    requires DirectSettled(Run(h).current)
    ensures i < |h| && h[i].DirectChannelResult?
  {
    assert h != [];
    var g, c := h[..|h| - 1], h[|h| - 1];
    if c.DirectChannelResult? {
      i := |h| - 1;
    } else {
      assert DirectSettled(Run(g).current);
      i := SettledByResult(g);
    }
  }

  /**
   With disciplined callers, a direct-channel outcome is only ever shown after fresh signaling was demanded, and then
   only a connected report or a further result can replace it.
   */
  lemma DisciplinedOutcome(h: History)
    requires Disciplined(h) && DirectSettled(Run(h).current)
    ensures exists j: nat :: j <= |h| && DemandsFreshSignaling(Run(h[..j]).current)
    ensures forall c: Call ::
              Step(Run(h), c).current != Run(h).current ==> c == IceStateChanged(Connected) || c.DirectChannelResult?
  {
    var i := SettledByResult(h);
    var j: nat :| j <= i && Run(h[..j]).current.FallingBackToDirectChannel?;
    AlwaysInvariant(h[..j]);
    assert FellBackBefore(h, |h|);
    TriggeredIffFellBack(h);
    assert DemandsFreshSignaling(Run(h[..j]).current);
  }

  // ----- When a failure report goes unnoticed -----

  lemma {:induction false} TriggeredIffFellBack(h: History)
    ensures Run(h).fallbackTriggered <==> FellBackBefore(h, |h|)
  {
    if h == [] {
    } else {
      var n := |h| - 1;
      var g := h[..n];
      TriggeredIffFellBack(g);
      forall j: nat | j <= n ensures g[..j] == h[..j] {
      }
      assert h[..|h|] == h;
      assert FellBackBefore(h, n + 1) <==> FellBackBefore(g, n) || Run(h).current.FallingBackToDirectChannel? by {
        if FellBackBefore(g, n) {
          var j: nat :| j <= n && Run(g[..j]).current.FallingBackToDirectChannel?;
          assert Run(h[..j]).current.FallingBackToDirectChannel?;
        }
      }
      AlwaysInvariant(h);
    }
  }

  /** From a reachable state a failure report shows exactly if the fallback was not triggered before. */
  lemma FailureIgnoredIffTriggered(s: ControllerState)
    requires Invariant(s)
    ensures Step(s, IceStateChanged(Failed)).current == s.current <==> s.fallbackTriggered
  {
  }

  /**
   After any run, a failure report leaves the visible state alone, be it connected, settled or fallen back, exactly if
   some earlier call had returned a fallback state; that is, exactly if an earlier call was a failure report or was the
   first call to end the connecting phase and a tick before the timeout.
   */
  lemma FailureIgnoredIffFellBack(h: History)
    ensures Run(h + [IceStateChanged(Failed)]).current == Run(h).current <==> FellBackBefore(h, |h|)
    ensures FellBackBefore(h, |h|) <==> TriggeredBefore(h, |h|)
  {
    SnocFacts(h, IceStateChanged(Failed));
    AlwaysInvariant(h);
    FailureIgnoredIffTriggered(Run(h));
    TriggeredIffFellBack(h);
    OutcomeExact(h, Run(h));
  }

  /** So a call that recovered from a fallback goes on showing "connected" when its connection then fails. */
  lemma FailureAfterRecoveryIsIgnored()
    ensures
      var s := Run([Tick(6_000)] + [IceStateChanged(Connected)] + [IceStateChanged(Failed)]);
      s.current == WebRtcConnected && s.ice == Failed
  {
    var first: History := [Tick(6_000)];
    assert [] + first == first;
    SnocFacts([], Tick(6_000));
    SnocFacts(first, IceStateChanged(Connected));
    SnocFacts(first + [IceStateChanged(Connected)], IceStateChanged(Failed));
  }

  /** And a direct-channel result reported out of the blue is undone by a later failure report. */
  lemma UndisciplinedOutcomeIsUndone()
    ensures
      var h: History := [DirectChannelResult(true)];
      && Run(h).current == DirectChannelConnected
      && Run(h + [IceStateChanged(Failed)]).current.FallingBackToDirectChannel?
  {
    var c := DirectChannelResult(true);
    assert [] + [c] == [c];
    SnocFacts([], c);
    SnocFacts([c], IceStateChanged(Failed));
  }
}
