/** Real-time bounds: what a timer of a given spacing guarantees about silence and about timing out. */
module FallbackTiming {
  import opened Fallback

  /** The time of the last tick, 0 before the first. */
  function Clock(h: History): nat {
    if h == [] then 0
    else if h[|h| - 1].Tick? then h[|h| - 1].elapsed
    else Clock(h[..|h| - 1])
  }

  /** Tick times never decrease, start by `d` and are spaced at most `d` apart; other calls come anywhere. */
  ghost predicate Regular(h: History, d: nat) {
    forall i | 0 <= i < |h| && h[i].Tick? :: Clock(h[..i]) <= h[i].elapsed <= Clock(h[..i]) + d
  }

  /** The time at which the visible state last changed. */
  function StatusSince(h: History): nat {
    if h == [] then 0
    else if Run(h).current != Run(h[..|h| - 1]).current then Clock(h)
    else StatusSince(h[..|h| - 1])
  }

  /** How long the visible state has gone without an update at time `now`. */
  function Silence(h: History, now: nat): int {
    now - StatusSince(h)
  }

  lemma RegularPrefix(h: History, d: nat, n: nat)
    requires Regular(h, d) && n <= |h|
    ensures Regular(h[..n], d)
  {
    forall i | 0 <= i < n && h[i].Tick? ensures h[..n][..i] == h[..i] {
    }
  }

  lemma EmptyHistory(d: nat)
    ensures Regular([], d) && Run([]) == INITIAL && Clock([]) == 0 && StatusSince([]) == 0
  {
  }

  lemma SnocFacts(h: History, c: Call)
    ensures (h + [c])[..|h|] == h
    ensures Run(h + [c]) == Step(Run(h), c)
    ensures Clock(h + [c]) == if c.Tick? then c.elapsed else Clock(h)
    ensures StatusSince(h + [c]) ==
            if Step(Run(h), c).current != Run(h).current then Clock(h + [c]) else StatusSince(h)
  {
    AfterSnoc(INITIAL, h, c);
  }

  lemma RegularSnoc(h: History, c: Call, d: nat)
    ensures Regular(h + [c], d) <==> Regular(h, d) && (c.Tick? ==> Clock(h) <= c.elapsed <= Clock(h) + d)
  {
    var g := h + [c];
    SnocFacts(h, c);
    if Regular(g, d) {
      RegularPrefix(g, d, |h|);
      assert c.Tick? ==> g[|h|].Tick?;
    }
    if Regular(h, d) && (c.Tick? ==> Clock(h) <= c.elapsed <= Clock(h) + d) {
      forall i | 0 <= i < |g| && g[i].Tick? ensures Clock(g[..i]) <= g[i].elapsed <= Clock(g[..i]) + d {
        if i < |h| {
          assert g[..i] == h[..i] && h[i].Tick?;
        }
      }
    }
  }

  lemma {:induction false} UpdatedInThePast(h: History, d: nat)
    requires Regular(h, d)
    ensures StatusSince(h) <= Clock(h)
  {
    if h == [] {
    } else {
      var g, c := h[..|h| - 1], h[|h| - 1];
      assert h == g + [c];
      RegularSnoc(g, c, d);
      UpdatedInThePast(g, d);
      SnocFacts(g, c);
    }
  }

  /** Where the clock and the last update stand while the controller is connecting. */
  lemma {:induction false} ConnectingClock(h: History)
    ensures Run(h).current.Connecting? ==>
              && !Run(h).fallbackTriggered
              && (if Run(h).earlyStatusEmitted then Run(h).current.status == StillConnectingText
                  else Run(h).current.status == ConnectingText)
              && (if Run(h).earlyStatusEmitted
                  then 3_000 <= StatusSince(h) < 6_000 && Clock(h) < 6_000
                  else StatusSince(h) == 0 && Clock(h) < 3_000)
  {
    if h == [] {
    } else {
      var g, c := h[..|h| - 1], h[|h| - 1];
      ConnectingClock(g);
      assert h == g + [c];
      SnocFacts(g, c);
    }
  }

  // ----- The silence bound -----

  /**
   While connecting, at any time before the next tick is due, the status shown is less than 3000 + d old; and the first
   tick at or past 6000 leaves the phase, no later than 5999 + d.
   */
  lemma SilenceBound(h: History, d: nat, now: nat)
    requires Run(h).current.Connecting?
    requires Clock(h) <= now <= Clock(h) + d
    ensures Silence(h, now) < 3_000 + d
    ensures now < 6_000 + d
  {
    ConnectingClock(h);
  }

  /** Hence over a regular run no tick finds a connecting status that old, and the one ending the phase is in time. */
  lemma RegularSilenceBound(h: History, d: nat, i: nat)
    requires Regular(h, d) && i < |h| && h[i].Tick?
    requires Run(h[..i]).current.Connecting?
    ensures Silence(h[..i], h[i].elapsed) < 3_000 + d
    ensures h[i].elapsed < 6_000 + d
    ensures h[i].elapsed >= 6_000 <==> !Run(h[..i + 1]).current.Connecting?
    ensures d <= 14_000 && h[i].elapsed >= 6_000 ==> Run(h[..i + 1]).current.FallingBackToDirectChannel?
  {
    SilenceBound(h[..i], d, h[i].elapsed);
    ConnectingClock(h[..i]);
    assert h[..i + 1] == h[..i] + [h[i]];
    SnocFacts(h[..i], h[i]);
  }

  /** A tick every millisecond from 1 to `n`. */
  function EveryMs(n: nat): History
    requires n < 0x1_0000_0000_0000_0000
  {
    if n == 0 then [] else EveryMs(n - 1) + [Tick(n)]
  }

  lemma {:induction false} EveryMsRun(n: nat, d: nat)
    requires n < 3_000 && d >= 1
    ensures Regular(EveryMs(n), d)
    ensures Run(EveryMs(n)) == INITIAL && Clock(EveryMs(n)) == n && StatusSince(EveryMs(n)) == 0
  {
    hide Run, Clock, StatusSince, Regular;
    if n == 0 {
      EmptyHistory(d);
    } else {
      EveryMsRun(n - 1, d);
      SnocFacts(EveryMs(n - 1), Tick(n));
      RegularSnoc(EveryMs(n - 1), Tick(n), d);
    }
  }

  /** The bound is attained: for every spacing some regular run holds a connecting status for 2999 + d. */
  lemma SilenceBoundIsTight(d: nat)
    requires d >= 1
    ensures exists h: History :: Regular(h, d) && Run(h).current.Connecting? && Silence(h, Clock(h) + d) == 2_999 + d
  {
    EveryMsRun(2_999, d);
    assert Silence(EveryMs(2_999), Clock(EveryMs(2_999)) + d) == 2_999 + d;
  }

  // ----- Silence once the connecting phase is over -----

  predicate TicksOnly(g: History) {
    forall i | 0 <= i < |g| :: g[i].Tick?
  }

  lemma {:induction false} SilentContinuation(h: History, d: nat, n: nat) returns (g: History)
    requires Regular(h, d) && d >= 1 && !Run(h).current.Connecting?
    requires Clock(h) + n < 0x1_0000_0000_0000_0000
    ensures TicksOnly(g) && Regular(h + g, d)
    ensures Run(h + g) == Run(h) && StatusSince(h + g) == StatusSince(h) && Clock(h + g) == Clock(h) + n
  {
    hide Run, Clock, StatusSince, Regular;
    if n == 0 {
      g := [];
      assert h + g == h;
    } else {
      var f := SilentContinuation(h, d, n - 1);
      var c := Tick(Clock(h) + n);
      g := f + [c];
      assert h + g == (h + f) + [c];
      SnocFacts(h + f, c);
      RegularSnoc(h + f, c, d);
    }
  }

  lemma {:induction false} TicksFromConnecting(h: History, g: History)
    requires Run(h).current.Connecting? && TicksOnly(g)
    ensures Run(h + g).current.Connecting? || StatusSince(h + g) >= 6_000
  {
    if g == [] {
      assert h + g == h;
    } else {
      var f, c := g[..|g| - 1], g[|g| - 1];
      TicksFromConnecting(h, f);
      assert h + g == (h + f) + [c];
      SnocFacts(h + f, c);
      ConnectingClock(h + f);
    }
  }

  /** The timer can keep running regularly and yet let 3000 + d pass without an update of what `h` left on screen. */
  ghost predicate CanFallSilent(h: History, d: nat) {
    exists g: History ::
      && TicksOnly(g)
      && Regular(h + g, d)
      && StatusSince(h + g) == StatusSince(h)
      && Silence(h + g, Clock(h + g)) >= 3_000 + d
  }

  /** The promise "never silent for long" holds exactly in the connecting phase: afterwards no tick updates anything. */
  lemma SilencePromiseExact(h: History, d: nat)
    requires Regular(h, d) && d >= 1
    requires Clock(h) + 3_000 + d < 0x1_0000_0000_0000_0000
    ensures CanFallSilent(h, d) <==> !Run(h).current.Connecting?
  {
    if !Run(h).current.Connecting? {
      UpdatedInThePast(h, d);
      var g := SilentContinuation(h, d, 3_000 + d);
      assert Silence(h + g, Clock(h + g)) >= 3_000 + d;
    } else {
      ConnectingClock(h);
      forall g: History | TicksOnly(g) && Regular(h + g, d) && StatusSince(h + g) == StatusSince(h)
        ensures Silence(h + g, Clock(h + g)) < 3_000 + d
      {
        TicksFromConnecting(h, g);
        SilenceBound(h + g, d, Clock(h + g));
      }
    }
  }

  // ----- When the overall timeout can fire -----

  lemma {:induction false} NoTimeout(h: History, d: nat)
    requires Regular(h, d) && d <= 14_000
    ensures Run(h).current != Abandoned(TimedOutText)
  {
    if h == [] {
    } else {
      var g, c := h[..|h| - 1], h[|h| - 1];
      assert h == g + [c];
      RegularSnoc(g, c, d);
      NoTimeout(g, d);
      SnocFacts(g, c);
      ConnectingClock(g);
    }
  }

  lemma TimeoutRun(d: nat)
    requires d >= 14_001
    ensures Regular([] + [Tick(5_999)] + [Tick(20_000)], d)
    ensures Run([] + [Tick(5_999)]).current == Connecting(StillConnectingText)
    ensures Run([] + [Tick(5_999)] + [Tick(20_000)]).current == Abandoned(TimedOutText)
    ensures !Run([] + [Tick(5_999)] + [Tick(20_000)]).fallbackTriggered
  {
    var h: History := [] + [Tick(5_999)];
    SnocFacts([], Tick(5_999));
    RegularSnoc([], Tick(5_999), d);
    SnocFacts(h, Tick(20_000));
    RegularSnoc(h, Tick(20_000), d);
  }

  /** A timer of spacing at most `d` can run into the overall timeout exactly when `d` is at least 14001. */
  lemma TimeoutThreshold(d: nat)
    ensures (exists h: History :: Regular(h, d) && Run(h).current == Abandoned(TimedOutText)) <==> d >= 14_001
  {
    if d >= 14_001 {
      TimeoutRun(d);
    } else {
      forall h: History | Regular(h, d) ensures Run(h).current != Abandoned(TimedOutText) {
        NoTimeout(h, d);
      }
    }
  }
}
