/** When two controllers cannot be told apart by their callers, and which racing calls may be swapped. */
module FallbackEquivalence {
  import opened Common
  import opened Fallback
  import opened FallbackReach

  /** The wording of a fallback status is not observed; everything else a call returns is. */
  function Blur(t: TransportState): TransportState {
    if t.FallingBackToDirectChannel? then FallingBackToDirectChannel(WebRtcFailedText, t.needsFreshSignaling) else t
  }

  /** What the calls of `h` return, starting from `s`. */
  function Returned(s: ControllerState, h: History): seq<TransportState> {
    if h == [] then [] else Returned(s, h[..|h| - 1]) + [Blur(After(s, h).current)]
  }

  /** No sequence of calls tells the two apart. */
  ghost predicate Equivalent(s: ControllerState, t: ControllerState) {
    forall h: History :: Returned(s, h) == Returned(t, h)
  }

  /** The part of a state that can matter later: never `ice`, and the early flag only while connecting. */
  predicate Alike(s: ControllerState, t: ControllerState) {
    && Blur(s.current) == Blur(t.current)
    && s.fallbackTriggered == t.fallbackTriggered
    && (s.current.Connecting? ==> s.earlyStatusEmitted == t.earlyStatusEmitted)
  }

  lemma AlikeStep(s: ControllerState, t: ControllerState, c: Call)
    requires Alike(s, t)
    ensures Alike(Step(s, c), Step(t, c))
  {
  }

  lemma {:induction false} AlikeAfter(s: ControllerState, t: ControllerState, h: History)
    requires Alike(s, t)
    ensures Alike(After(s, h), After(t, h))
    ensures Returned(s, h) == Returned(t, h)
  {
    if h == [] {
    } else {
      var g := h[..|h| - 1];
      AlikeAfter(s, t, g);
      AlikeStep(After(s, g), After(t, g), h[|h| - 1]);
    }
  }

  lemma OneCall(s: ControllerState, c: Call)
    ensures Returned(s, [c]) == [Blur(Step(s, c).current)]
  {
    assert [c][..0] == [];
    assert After(s, [c]) == Step(After(s, []), c);
  }

  lemma Distinguish(s: ControllerState, t: ControllerState, c: Call)
    requires Equivalent(s, t)
    ensures Blur(Step(s, c).current) == Blur(Step(t, c).current)
  {
    OneCall(s, c);
    OneCall(t, c);
    assert Returned(s, [c]) == Returned(t, [c]);
  }

  /** Full abstraction: reachable controllers are indistinguishable exactly when they are alike. */
  lemma EquivalentIffAlike(s: ControllerState, t: ControllerState)
    requires Reachable(s) && Reachable(t)
    ensures Equivalent(s, t) <==> Alike(s, t)
  {
    ReachableExact(s);
    ReachableExact(t);
    if Alike(s, t) {
      forall h: History ensures Returned(s, h) == Returned(t, h) {
        AlikeAfter(s, t, h);
      }
    }
    if Equivalent(s, t) {
      Distinguish(s, t, CurrentState);
      Distinguish(s, t, IceStateChanged(Failed));
    }
  }

  lemma StepReachable(s: ControllerState, c: Call)
    requires Reachable(s)
    ensures Reachable(Step(s, c))
  {
    ReachableExact(s);
    ReachableExact(Step(s, c));
  }

  // ----- Which two neighbouring calls may be swapped -----

  /** The calls that write the visible state whatever it is. */
  predicate Overwrites(c: Call) {
    c == IceStateChanged(Connected) || c.DirectChannelResult?
  }

  predicate InFallbackWindow(elapsed: U64) {
    6_000 <= elapsed < 20_000
  }

  /** A tick that triggers the fallback of a connecting controller. */
  predicate IsFallbackTick(c: Call) {
    c.Tick? && InFallbackWindow(c.elapsed)
  }

  predicate IsAbandonTick(c: Call) {
    c.Tick? && c.elapsed >= 20_000
  }

  /**
   From `s` the order of `c` and `d` matters: different outcomes overwrite each other; an outcome either hides a
   trigger or is replaced by it, when nothing was triggered yet; or a fallback tick races the overall timeout.
   */
  predicate Conflict(s: ControllerState, c: Call, d: Call) {
    || (Overwrites(c) && Overwrites(d) && c != d)
    || (Overwrites(c) && d == IceStateChanged(Failed) && !s.fallbackTriggered)
    || (Overwrites(c) && IsFallbackTick(d) && s.current.Connecting?)
    || (IsAbandonTick(c) && IsFallbackTick(d) && s.current.Connecting?)
  }

  predicate SwapsAlike(s: ControllerState, c: Call, d: Call) {
    Alike(Step(Step(s, c), d), Step(Step(s, d), c))
  }

  lemma SwapIce(s: ControllerState, ice: IceConnectionState, d: Call)
    requires Invariant(s)
    ensures var c := IceStateChanged(ice);
            SwapsAlike(s, c, d) <==> !Conflict(s, c, d) && !Conflict(s, d, c)
  {
  }

  lemma SwapDirectResult(s: ControllerState, connected: bool, d: Call)
    requires Invariant(s)
    ensures var c := DirectChannelResult(connected);
            SwapsAlike(s, c, d) <==> !Conflict(s, c, d) && !Conflict(s, d, c)
  {
  }

  lemma SwapTick(s: ControllerState, elapsed: U64, d: Call)
    requires Invariant(s)
    ensures var c := Tick(elapsed);
            SwapsAlike(s, c, d) <==> !Conflict(s, c, d) && !Conflict(s, d, c)
  {
  }

  lemma SwapAlike(s: ControllerState, c: Call, d: Call)
    requires Invariant(s)
    ensures SwapsAlike(s, c, d) <==> !Conflict(s, c, d) && !Conflict(s, d, c)
  {
    hide SwapsAlike;
    match c
    case CurrentState => SwapNothing(s, d);
    case IceStateChanged(ice) => SwapIce(s, ice, d);
    case DirectChannelResult(connected) => SwapDirectResult(s, connected, d);
    case Tick(elapsed) => SwapTick(s, elapsed, d);
  }

  lemma SwapNothing(s: ControllerState, d: Call)
    ensures SwapsAlike(s, CurrentState, d)
  {
  }

  /** From a reachable state, two calls may be swapped without any caller noticing exactly if they do not conflict. */
  lemma SwapExactly(s: ControllerState, c: Call, d: Call)
    requires Reachable(s)
    ensures Equivalent(Step(Step(s, c), d), Step(Step(s, d), c)) <==> !Conflict(s, c, d) && !Conflict(s, d, c)
  {
    StepReachable(s, c);
    StepReachable(s, d);
    StepReachable(Step(s, c), d);
    StepReachable(Step(s, d), c);
    ReachableExact(s);
    SwapAlike(s, c, d);
    EquivalentIffAlike(Step(Step(s, c), d), Step(Step(s, d), c));
  }

  /** Two ticks may be swapped unless the controller is connecting and they fall on either side of the timeout. */
  lemma TicksSwapExactly(s: ControllerState, a: U64, b: U64)
    requires Reachable(s)
    ensures Equivalent(Step(Step(s, Tick(a)), Tick(b)), Step(Step(s, Tick(b)), Tick(a))) <==>
            !(&& s.current.Connecting?
              && (|| (InFallbackWindow(a) && b >= 20_000)
                  || (InFallbackWindow(b) && a >= 20_000)))
  {
    SwapExactly(s, Tick(a), Tick(b));
  }

  /** A connected report and a tick may be swapped unless the tick would trigger the fallback. */
  lemma ConnectedTickSwapExactly(s: ControllerState, elapsed: U64)
    requires Reachable(s)
    ensures
      var connected, tick := IceStateChanged(Connected), Tick(elapsed);
      Equivalent(Step(Step(s, connected), tick), Step(Step(s, tick), connected)) <==>
      !(s.current.Connecting? && InFallbackWindow(elapsed))
  {
    SwapExactly(s, IceStateChanged(Connected), Tick(elapsed));
  }

  // ----- Races between the timer and the ICE callbacks -----

  /** A failure report and a tick may arrive in either order. */
  lemma RaceInsensitive(s: ControllerState, elapsed: U64)
    requires Reachable(s)
    ensures
      var failure, tick := IceStateChanged(Failed), Tick(elapsed);
      Equivalent(Step(Step(s, failure), tick), Step(Step(s, tick), failure))
  {
    SwapExactly(s, IceStateChanged(Failed), Tick(elapsed));
  }

  /** Everything but success reports and direct-channel results. */
  predicate IsSetback(c: Call) {
    match c
    case CurrentState => true
    case IceStateChanged(ice) => ice != Connected
    case DirectChannelResult(_) => false
    case Tick(_) => true
  }

  lemma {:induction false} SetbacksOnly(h: History)
    requires forall i | 0 <= i < |h| :: IsSetback(h[i])
    ensures var s := Run(h);
            && (s.current.FallingBackToDirectChannel? <==> s.fallbackTriggered)
            && (s.current.FallingBackToDirectChannel? ==> s.current.needsFreshSignaling)
    ensures IceStateChanged(Failed) in h ==> Run(h).fallbackTriggered
  {
    if h == [] {
    } else {
      var g, c := h[..|h| - 1], h[|h| - 1];
      SetbacksOnly(g);
      assert h == g + [c];
    }
  }

  /**
   However ticks and New, Disconnected and Failed reports interleave, one Failed among them is enough: the run ends
   falling back with fresh signaling demanded, and all interleavings are indistinguishable afterwards.
   */
  lemma AnyOrderFallsBack(g: History, h: History)
    requires forall i | 0 <= i < |g| :: IsSetback(g[i])
    requires IceStateChanged(Failed) in g
    requires multiset(g) == multiset(h)
    ensures Run(h).current.FallingBackToDirectChannel? && Run(h).current.needsFreshSignaling
    ensures Equivalent(Run(g), Run(h))
  {
    assert IceStateChanged(Failed) in multiset(g);
    forall i | 0 <= i < |h| ensures IsSetback(h[i]) {
      assert h[i] in multiset(h);
      assert h[i] in g;
    }
    SetbacksOnly(g);
    SetbacksOnly(h);
    EquivalentIffAlike(Run(g), Run(h));
  }

  /** For one, the ticks at 6000 and 20000 of a new controller may not be swapped. */
  lemma TickOrderMatters()
    ensures
      var a, b := Tick(6_000), Tick(20_000);
      !Equivalent(Step(Step(INITIAL, a), b), Step(Step(INITIAL, b), a))
  {
    ReachableExact(INITIAL);
    TicksSwapExactly(INITIAL, 6_000, 20_000);
  }
}
