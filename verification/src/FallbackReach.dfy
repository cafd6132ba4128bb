/** Which states the controller can be in, exactly. */
module FallbackReach {
  import opened Fallback

  ghost predicate Reachable(s: ControllerState) {
    exists h: History :: Run(h) == s
  }

  predicate NeverSettledIce(ice: IceConnectionState) {
    ice == New || ice == Disconnected
  }

  predicate Invariant(s: ControllerState) {
    && (s.ice == Failed ==> s.fallbackTriggered)
    && match s.current
       case Connecting(status) =>
         && !s.fallbackTriggered
         && NeverSettledIce(s.ice)
         && status == (if s.earlyStatusEmitted then StillConnectingText else ConnectingText)
       case WebRtcConnected => true
       case FallingBackToDirectChannel(status, needsFresh) =>
         && s.fallbackTriggered
         && needsFresh
         && s.ice != Connected
         && (status == WebRtcFailedText || status == StillViaWebRtcText)
       case DirectChannelConnected => true
       case Abandoned(reason) =>
         || reason == BothFailedText
         || (reason == TimedOutText && !s.fallbackTriggered && NeverSettledIce(s.ice))
  }

  lemma InvariantStep(s: ControllerState, c: Call)
    requires Invariant(s)
    ensures Invariant(Step(s, c))
  {
  }

  lemma {:induction false} InvariantAfter(s: ControllerState, h: History)
    requires Invariant(s)
    ensures Invariant(After(s, h))
  {
    if h == [] {
    } else {
      InvariantAfter(s, h[..|h| - 1]);
      InvariantStep(After(s, h[..|h| - 1]), h[|h| - 1]);
    }
  }

  lemma AlwaysInvariant(h: History)
    ensures Invariant(Run(h))
  {
    InvariantAfter(INITIAL, h);
  }

  /** An early status if one is wanted, then a failure report if the fallback should be triggered. */
  function Prelude(early: bool, triggered: bool): History {
    (if early then [Tick(3_000)] else []) + (if triggered then [IceStateChanged(Failed)] else [])
  }

  /** A run into `s`: the prelude, the call that sets the stage, and the last ICE report. */
  function Witness(s: ControllerState): History {
    var start := Prelude(s.earlyStatusEmitted, s.fallbackTriggered);
    var untriggered := Prelude(s.earlyStatusEmitted, false);
    match s.current
    case Connecting(_) => start + [IceStateChanged(s.ice)]
    case WebRtcConnected => start + [IceStateChanged(Connected)] + [IceStateChanged(s.ice)]
    case FallingBackToDirectChannel(status, _) =>
      if status == WebRtcFailedText then start + [IceStateChanged(s.ice)]
      else untriggered + [Tick(6_000)] + [IceStateChanged(s.ice)]
    case DirectChannelConnected => start + [IceStateChanged(s.ice)] + [DirectChannelResult(true)]
    case Abandoned(reason) =>
      if reason == BothFailedText then start + [IceStateChanged(s.ice)] + [DirectChannelResult(false)]
      else untriggered + [Tick(20_000)] + [IceStateChanged(s.ice)]
  }

  lemma PreludeRun(early: bool, triggered: bool)
    ensures
      var s := Run(Prelude(early, triggered));
      && s.fallbackTriggered == triggered
      && s.earlyStatusEmitted == early
      && s.current == (if triggered then FallingBackToDirectChannel(WebRtcFailedText, true)
                       else if early then Connecting(StillConnectingText) else Connecting(ConnectingText))
      && s.ice == (if triggered then Failed else New)
  {
    var first: History := if early then [Tick(3_000)] else [];
    assert [] + [Tick(3_000)] == [Tick(3_000)];
    AfterSnoc(INITIAL, [], Tick(3_000));
    assert first + [] == first;
    AfterSnoc(INITIAL, first, IceStateChanged(Failed));
  }

  lemma TwoMore(h: History, a: Call, b: Call)
    ensures Run(h + [a]) == Step(Run(h), a)
    ensures Run(h + [a] + [b]) == Step(Step(Run(h), a), b)
  {
    AfterSnoc(INITIAL, h, a);
    AfterSnoc(INITIAL, h + [a], b);
  }

  lemma WitnessReaches(s: ControllerState)
    requires Invariant(s)
    ensures Run(Witness(s)) == s
  {
    hide Run;
    var start := Prelude(s.earlyStatusEmitted, s.fallbackTriggered);
    var untriggered := Prelude(s.earlyStatusEmitted, false);
    var report := IceStateChanged(s.ice);
    PreludeRun(s.earlyStatusEmitted, s.fallbackTriggered);
    PreludeRun(s.earlyStatusEmitted, false);
    TwoMore(start, IceStateChanged(Connected), report);
    TwoMore(start, report, DirectChannelResult(true));
    TwoMore(start, report, DirectChannelResult(false));
    TwoMore(untriggered, Tick(6_000), report);
    TwoMore(untriggered, Tick(20_000), report);
  }

  /** Some run of the controller ends in `s` exactly when `s` satisfies the invariant. */
  lemma ReachableExact(s: ControllerState)
    ensures Reachable(s) <==> Invariant(s)
  {
    if Invariant(s) {
      WitnessReaches(s);
    }
    forall h: History ensures Invariant(Run(h)) {
      AlwaysInvariant(h);
    }
  }
}
