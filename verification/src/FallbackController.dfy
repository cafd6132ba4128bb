/** The controller as the program runs it: four fields updated in place under a lock. */
module FallbackController {
  import opened Common
  import opened Fallback
  import opened FallbackHistory

  class TransportFallbackController {
    var current: TransportState
    var ice: IceConnectionState
    var fallbackTriggered: bool
    var earlyStatusEmitted: bool
    /** Every call made so far, and what each of them returned. */
    ghost var history: History
    ghost var results: seq<TransportState>

    ghost function View(): ControllerState
      reads this
    {
      ControllerState(current, ice, fallbackTriggered, earlyStatusEmitted)
    }

    /** The fields, and every value returned so far, are what the history says. */
    ghost predicate Valid()
      reads this
    {
      && IsOutcome(history, View())
      && |results| == |history|
      && forall i | 0 <= i < |results| :: CurrentIs(history[..i + 1], results[i])
    }

    constructor ()
      ensures Valid() && history == []
      ensures View() == ControllerState(Connecting(ConnectingText), New, false, false)
    {
      current := Connecting(ConnectingText);
      ice := New;
      fallbackTriggered := false;
      earlyStatusEmitted := false;
      history := [];
      results := [];
      new;
      OutcomeExact([], View());
    }

    /** Bookkeeping only: writes down the call that has just run and what it returns. */
    ghost method Record(c: Call, before: ControllerState)
      requires IsOutcome(history, before) && View() == Step(before, c)
      requires |results| == |history|
      requires forall i | 0 <= i < |results| :: CurrentIs(history[..i + 1], results[i])
      modifies this`history, this`results
      ensures Valid() && history == old(history) + [c] && results == old(results) + [current]
    {
      OutcomeExact(history, before);
      AfterSnoc(INITIAL, history, c);
      var h := history + [c];
      OutcomeExact(h, View());
      forall i | 0 <= i < |results| ensures CurrentIs(h[..i + 1], results[i]) {
        assert h[..i + 1] == history[..i + 1];
      }
      assert h[..|h|] == h;
      history := h;
      results := results + [current];
    }

    method GetCurrentState() returns (r: TransportState)
      requires Valid()
      modifies this`history, this`results
      ensures Valid() && history == old(history) + [CurrentState]
      ensures results == old(results) + [r]
      ensures r == current
    {
      r := current;
      Record(CurrentState, View());
    }

    method OnIceStateChanged(newIce: IceConnectionState) returns (r: TransportState)
      requires Valid()
      modifies this
      ensures Valid() && history == old(history) + [IceStateChanged(newIce)]
      ensures results == old(results) + [r]
      ensures View() == Step(old(View()), IceStateChanged(newIce)) && r == current
    {
      ghost var before := View();
      ice := newIce;
      match newIce {
        case Connected =>
          current := WebRtcConnected;
        case Failed =>
          if !fallbackTriggered {
            fallbackTriggered := true;
            current := FallingBackToDirectChannel(WebRtcFailedText, true);
          }
        case _ =>
      }
      r := current;
      Record(IceStateChanged(newIce), before);
    }

    method OnDirectChannelResult(connected: bool) returns (r: TransportState)
      requires Valid()
      modifies this
      ensures Valid() && history == old(history) + [DirectChannelResult(connected)]
      ensures results == old(results) + [r]
      ensures View() == Step(old(View()), DirectChannelResult(connected)) && r == current
    {
      ghost var before := View();
      current := if connected then DirectChannelConnected else Abandoned(BothFailedText);
      r := current;
      Record(DirectChannelResult(connected), before);
    }

    method OnTick(elapsed: U64) returns (r: TransportState)
      requires Valid()
      modifies this
      ensures Valid() && history == old(history) + [Tick(elapsed)]
      ensures results == old(results) + [r]
      ensures View() == Step(old(View()), Tick(elapsed)) && r == current
    {
      ghost var before := View();
      if !current.Connecting? {
        r := current;
        Record(Tick(elapsed), before);
        return;
      }
      if elapsed >= ABANDON_MS {
        current := Abandoned(TimedOutText);
      } else if elapsed >= FALLBACK_TRIGGER_MS && !fallbackTriggered {
        fallbackTriggered := true;
        current := FallingBackToDirectChannel(StillViaWebRtcText, true);
      } else if elapsed >= EARLY_STATUS_MS && !earlyStatusEmitted {
        earlyStatusEmitted := true;
        current := Connecting(StillConnectingText);
      }
      r := current;
      Record(Tick(elapsed), before);
    }
  }
}
