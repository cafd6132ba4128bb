/**
 When "abandoned" is the truth. The documentation reads `Abandoned` as "both transports failed"; what had failed is told
 here from the callers' reports alone.
 */
module FallbackAbandon {
  import opened Fallback
  import opened FallbackHistory
  import opened FallbackRuns
  import opened FallbackTiming

  /** The last thing WebRTC was reported to be is failed. */
  ghost predicate WebRtcHasFailed(h: History) {
    exists k: nat :: LastIceReport(h, k) && h[k].ice == Failed
  }

  ghost predicate LastDirectReport(h: History, i: nat) {
    && i < |h|
    && h[i].DirectChannelResult?
    && forall k | i < k < |h| :: !h[k].DirectChannelResult?
  }

  /** The last thing the direct channel was reported to be is failed. */
  ghost predicate DirectChannelHasFailed(h: History) {
    exists k: nat :: LastDirectReport(h, k) && !h[k].connected
  }

  /** Both transports had failed when call `i` returned. */
  ghost predicate BothFailedAt(h: History, i: nat)
    requires i < |h|
  {
    WebRtcHasFailed(h[..i + 1]) && DirectChannelHasFailed(h[..i + 1])
  }

  /** If the run ends abandoned, both transports had failed when the call that abandoned it returned. */
  ghost predicate Truthful(h: History) {
    Run(h).current.Abandoned? ==> exists i: nat :: LastEffective(h, i) && BothFailedAt(h, i)
  }

  /** Call `i` reports the direct channel failed while the last ICE report is a failure. */
  ghost predicate FailsBoth(h: History, i: nat)
    requires i < |h|
  {
    h[i] == DirectChannelResult(false) && WebRtcHasFailed(h[..i])
  }

  /** A caller that reports a failed direct channel only while its last ICE report is a failure. */
  ghost predicate Careful(h: History) {
    forall i | 0 <= i < |h| && h[i] == DirectChannelResult(false) :: WebRtcHasFailed(h[..i])
  }

  /** An abandoned run was abandoned by one call: a failed direct channel, or a tick that ended the connecting phase. */
  lemma AbandoningCall(h: History) returns (i: nat)
    requires Run(h).current.Abandoned?
    ensures LastEffective(h, i) && Run(h).current == Written(h[i])
    ensures h[i] == DirectChannelResult(false) || (h[i].Tick? && Undecided(h, i))
    ensures forall j: nat :: LastEffective(h, j) ==> j == i
  {
    RunIsOutcome(h);
    i :| LastEffective(h, i) && Run(h).current == Written(h[i]);
  }

  lemma WebRtcStep(h: History, i: nat)
    requires i < |h| && !h[i].IceStateChanged?
    ensures WebRtcHasFailed(h[..i + 1]) <==> WebRtcHasFailed(h[..i])
  {
    var g, f := h[..i], h[..i + 1];
    assert forall k: nat :: LastIceReport(f, k) <==> LastIceReport(g, k);
  }

  /** A late tick finds no direct-channel report; a failed direct channel is its own last report. */
  lemma DirectStep(h: History, i: nat)
    requires i < |h|
    ensures h[i] == DirectChannelResult(false) ==> DirectChannelHasFailed(h[..i + 1])
    ensures h[i].Tick? && Undecided(h, i) ==> !DirectChannelHasFailed(h[..i + 1])
  {
    var f := h[..i + 1];
    if h[i] == DirectChannelResult(false) {
      assert LastDirectReport(f, i);
    }
    if h[i].Tick? && Undecided(h, i) {
      assert forall k | 0 <= k < |f| :: f[k] == h[k];
    }
  }

  lemma BothFailedIffFailsBoth(h: History, i: nat)
    requires i < |h|
    requires h[i] == DirectChannelResult(false) || (h[i].Tick? && Undecided(h, i))
    ensures BothFailedAt(h, i) <==> FailsBoth(h, i)
  {
    WebRtcStep(h, i);
    DirectStep(h, i);
  }

  /**
   Of any abandoned run it is true that both transports had failed exactly when the call that abandoned it reported a
   failed direct channel while the last ICE report was a failure.
   */
  lemma TruthfulExactly(h: History, i: nat)
    requires Run(h).current.Abandoned? && LastEffective(h, i)
    ensures Truthful(h) <==> FailsBoth(h, i)
    ensures FailsBoth(h, i) ==> Run(h).current == Abandoned(BothFailedText)
  {
    var j := AbandoningCall(h);
    BothFailedIffFailsBoth(h, i);
  }

  lemma CarefulPrefix(h: History, n: nat)
    requires Careful(h) && n <= |h|
    ensures Careful(h[..n])
  {
    forall i | 0 <= i < n && h[i] == DirectChannelResult(false) ensures h[..n][..i] == h[..i] {
    }
  }

  /** Some tick from 20000 on found the controller still connecting. */
  ghost predicate TimesOut(h: History) {
    exists i | 0 <= i < |h| :: h[i].Tick? && h[i].elapsed >= 20_000 && Undecided(h, i)
  }

  lemma CarefulIsTruthful(h: History)
    requires Careful(h) && !TimesOut(h)
    ensures Truthful(h)
  {
    if Run(h).current.Abandoned? {
      var i := AbandoningCall(h);
      TruthfulExactly(h, i);
    }
  }

  lemma TimesOutPrefix(h: History, n: nat)
    requires n <= |h| && TimesOut(h[..n])
    ensures TimesOut(h)
  {
    var f := h[..n];
    var i :| 0 <= i < |f| && f[i].Tick? && f[i].elapsed >= 20_000 && Undecided(f, i);
    Frame(h, n, i);
    assert h[i] == f[i];
  }

  /** A tick that times out makes the run untruthful there and then. */
  lemma TimeoutIsUntruthful(h: History, i: nat)
    requires i < |h| && h[i].Tick? && h[i].elapsed >= 20_000 && Undecided(h, i)
    ensures Run(h[..i + 1]).current == Abandoned(TimedOutText)
    ensures !Truthful(h[..i + 1])
  {
    var f := h[..i + 1];
    assert f == h[..i] + [h[i]];
    Frame(h, i, i);
    ConnectingIffUndecided(h[..i]);
    SnocFacts(h[..i], h[i]);
    Frame(h, i + 1, i);
    assert LastEffective(f, i);
    TruthfulExactly(f, i);
  }

  /** A failed direct channel reported at any other time makes the run untruthful there and then. */
  lemma CarelessIsUntruthful(h: History, i: nat)
    requires i < |h| && h[i] == DirectChannelResult(false) && !WebRtcHasFailed(h[..i])
    ensures !Truthful(h[..i + 1])
  {
    var f := h[..i + 1];
    assert f == h[..i] + [h[i]];
    SnocFacts(h[..i], h[i]);
    assert LastEffective(f, i);
    assert f[..i] == h[..i];
    TruthfulExactly(f, i);
  }

  /** A run never shows a false "abandoned" exactly when its caller is careful and no tick times out. */
  lemma TruthfulThroughoutExactly(h: History)
    ensures (forall n: nat | n <= |h| :: Truthful(h[..n])) <==> Careful(h) && !TimesOut(h)
  {
    if !Careful(h) {
      var i :| 0 <= i < |h| && h[i] == DirectChannelResult(false) && !WebRtcHasFailed(h[..i]);
      CarelessIsUntruthful(h, i);
    } else if TimesOut(h) {
      var i :| 0 <= i < |h| && h[i].Tick? && h[i].elapsed >= 20_000 && Undecided(h, i);
      TimeoutIsUntruthful(h, i);
    } else {
      forall n: nat | n <= |h| ensures Truthful(h[..n]) {
        CarefulPrefix(h, n);
        if TimesOut(h[..n]) {
          TimesOutPrefix(h, n);
        }
        CarefulIsTruthful(h[..n]);
      }
    }
  }

  lemma RegularNeverTimesOut(h: History, d: nat)
    requires Regular(h, d) && d <= 14_000
    ensures !TimesOut(h)
  {
    if TimesOut(h) {
      var i :| 0 <= i < |h| && h[i].Tick? && h[i].elapsed >= 20_000 && Undecided(h, i);
      TimeoutIsUntruthful(h, i);
      RegularPrefix(h, d, i + 1);
      NoTimeout(h[..i + 1], d);
    }
  }

  /** With ticks at most 14 seconds apart, a run never shows a false "abandoned" exactly when its caller is careful. */
  lemma TruthfulThroughoutIffCareful(h: History, d: nat)
    requires Regular(h, d) && d <= 14_000
    ensures (forall n: nat | n <= |h| :: Truthful(h[..n])) <==> Careful(h)
  {
    TruthfulThroughoutExactly(h);
    RegularNeverTimesOut(h, d);
  }

  /** Careful callers are never shown a false "abandoned" exactly when ticks come at most 14 seconds apart. */
  lemma CarefulSuffices(d: nat)
    ensures (forall h: History :: Careful(h) && Regular(h, d) ==> Truthful(h)) <==> d <= 14_000
  {
    if d <= 14_000 {
      forall h: History | Careful(h) && Regular(h, d) ensures Truthful(h) {
        RegularNeverTimesOut(h, d);
        CarefulIsTruthful(h);
      }
    } else {
      TimeoutRun(d);
      var h: History := [] + [Tick(5_999)] + [Tick(20_000)];
      var i := AbandoningCall(h);
      TruthfulExactly(h, i);
      assert Careful(h) && Regular(h, d) && !Truthful(h);
    }
  }

  /** A disciplined caller can be told "both failed" without ever having reported that WebRTC failed. */
  lemma AbandonedWithoutWebRtcFailure()
    ensures
      var h: History := [Tick(6_000)] + [DirectChannelResult(false)];
      Disciplined(h) && Run(h).current == Abandoned(BothFailedText) && !Truthful(h)
  {
    var g: History := [Tick(6_000)];
    assert [] + g == g;
    SnocFacts([], Tick(6_000));
    var h := g + [DirectChannelResult(false)];
    SnocFacts(g, DirectChannelResult(false));
    assert g[..1] == g;
    ResultAfterFallback(g, 1, false);
    CarelessIsUntruthful(h, 1);
    assert h[..2] == h;
  }

  lemma ResultAfterFallback(g: History, j: nat, connected: bool)
    requires j <= |g| && Run(g[..j]).current.FallingBackToDirectChannel?
    requires forall i | 0 <= i < |g| :: !g[i].DirectChannelResult?
    ensures Disciplined(g + [DirectChannelResult(connected)])
  {
    var h := g + [DirectChannelResult(connected)];
    assert h[..j] == g[..j];
    assert FellBackBefore(h, |g|);
  }

  lemma ConnectedLast(h: History)
    requires h != [] && h[|h| - 1] == IceStateChanged(Connected)
    ensures !WebRtcHasFailed(h)
  {
    assert LastIceReport(h, |h| - 1);
  }

  /** And also while the last it reported of WebRTC is that it is connected. */
  lemma AbandonedWhileConnected()
    ensures
      var h: History := [IceStateChanged(Failed)] + [IceStateChanged(Connected)] + [DirectChannelResult(false)];
      && Disciplined(h)
      && Run(h).current == Abandoned(BothFailedText)
      && Run(h).ice == Connected
      && !Truthful(h)
  {
    hide Run, Clock, StatusSince, Truthful, WebRtcHasFailed, Disciplined;
    var f: History := [IceStateChanged(Failed)];
    assert [] + f == f;
    EmptyHistory(0);
    SnocFacts([], IceStateChanged(Failed));
    var g := f + [IceStateChanged(Connected)];
    var h := g + [DirectChannelResult(false)];
    SnocFacts(f, IceStateChanged(Connected));
    SnocFacts(g, DirectChannelResult(false));
    assert g[..1] == f;
    ResultAfterFallback(g, 1, false);
    ConnectedLast(g);
    assert h[..2] == g;
    CarelessIsUntruthful(h, 2);
    assert h[..3] == h;
  }
}
