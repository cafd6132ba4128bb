/**
 The transport fallback controller: a mutex-guarded state machine driven by ICE callbacks, direct-channel results and a
 timer. Every method holds the lock from start to end, so any use of a controller is a sequence of calls.
 */
module Fallback {
  import opened Common

  /** The status and reason texts, by name; `Wording` gives what the user reads. */
  datatype Text =
    | ConnectingText
    | StillConnectingText
    | WebRtcFailedText
    | StillViaWebRtcText
    | BothFailedText
    | TimedOutText

  function Wording(t: Text): string {
    match t
    case ConnectingText => "Connecting…"
    case StillConnectingText => "Still connecting…"
    case WebRtcFailedText => "WebRTC connection failed, trying direct channel…"
    case StillViaWebRtcText => "Still connecting via WebRTC, trying direct channel…"
    case BothFailedText => "Both WebRTC and the direct channel failed to connect."
    case TimedOutText => "Timed out waiting for a connection."
  }

  datatype TransportState =
    | Connecting(status: Text)
    | WebRtcConnected
    | FallingBackToDirectChannel(fallbackStatus: Text, needsFreshSignaling: bool)
    | DirectChannelConnected
    | Abandoned(reason: Text)

  datatype IceConnectionState = New | Connected | Failed | Disconnected

  const EARLY_STATUS_MS: U64 := 3_000
  const FALLBACK_TRIGGER_MS: U64 := 6_000
  const ABANDON_MS: U64 := 20_000

  datatype ControllerState = ControllerState(
    current: TransportState,
    ice: IceConnectionState,
    fallbackTriggered: bool,
    earlyStatusEmitted: bool)

  /** One call on the controller; `elapsed` is milliseconds since connecting began. */
  datatype Call =
    | CurrentState
    | IceStateChanged(ice: IceConnectionState)
    | DirectChannelResult(connected: bool)
    | Tick(elapsed: U64)

  type History = seq<Call>

  const INITIAL := ControllerState(Connecting(ConnectingText), New, false, false)

  function AfterIce(s: ControllerState, ice: IceConnectionState): ControllerState {
    var s := s.(ice := ice);
    match ice
    case Connected => s.(current := WebRtcConnected)
    case Failed =>
      if !s.fallbackTriggered then
        s.(fallbackTriggered := true, current := FallingBackToDirectChannel(WebRtcFailedText, true))
      else s
    case _ => s
  }

  function AfterTick(s: ControllerState, elapsed: U64): ControllerState {
    if !s.current.Connecting? then s
    else if elapsed >= ABANDON_MS then s.(current := Abandoned(TimedOutText))
    else if elapsed >= FALLBACK_TRIGGER_MS && !s.fallbackTriggered then
      s.(fallbackTriggered := true, current := FallingBackToDirectChannel(StillViaWebRtcText, true))
    else if elapsed >= EARLY_STATUS_MS && !s.earlyStatusEmitted then
      s.(earlyStatusEmitted := true, current := Connecting(StillConnectingText))
    else s
  }

  function Step(s: ControllerState, c: Call): ControllerState {
    match c
    case CurrentState => s
    case IceStateChanged(ice) => AfterIce(s, ice)
    case DirectChannelResult(connected) =>
      s.(current := if connected then DirectChannelConnected else Abandoned(BothFailedText))
    case Tick(elapsed) => AfterTick(s, elapsed)
  }

  /** The state after a sequence of calls; each call returned the `current` of the state right after it. */
  function After(s: ControllerState, h: History): ControllerState {
    if h == [] then s else Step(After(s, h[..|h| - 1]), h[|h| - 1])
  }

  function Run(h: History): ControllerState {
    After(INITIAL, h)
  }

  lemma {:induction false} AfterAppend(s: ControllerState, g: History, h: History)
    ensures After(s, g + h) == After(After(s, g), h)
  {
    if h == [] {
      assert g + h == g;
    } else {
      var n := |h| - 1;
      assert (g + h)[..|g| + n] == g + h[..n];
      AfterAppend(s, g, h[..n]);
    }
  }

  lemma AfterSnoc(s: ControllerState, h: History, c: Call)
    ensures After(s, h + [c]) == Step(After(s, h), c)
  {
    assert (h + [c])[..|h|] == h;
  }

  function WordingLength(t: Text): nat {
    match t
    case ConnectingText => 11
    case StillConnectingText => 17
    case WebRtcFailedText => 48
    case StillViaWebRtcText => 51
    case BothFailedText => 53
    case TimedOutText => 35
  }

  /** What the user reads, text by text. */
  lemma WordingTable()
    ensures Wording(ConnectingText) == "Connecting…"
    ensures Wording(StillConnectingText) == "Still connecting…"
    ensures Wording(WebRtcFailedText) == "WebRTC connection failed, trying direct channel…"
    ensures Wording(StillViaWebRtcText) == "Still connecting via WebRTC, trying direct channel…"
    ensures Wording(BothFailedText) == "Both WebRTC and the direct channel failed to connect."
    ensures Wording(TimedOutText) == "Timed out waiting for a connection."
  {
  }

  lemma WordingHasLength(t: Text)
    ensures |Wording(t)| == WordingLength(t)
  {
  }

  /** Comparing texts by name is comparing what the user reads. */
  lemma WordingsDiffer(t: Text, u: Text)
    ensures Wording(t) == Wording(u) <==> t == u
  {
    hide Wording;
    WordingHasLength(t);
    WordingHasLength(u);
  }
}
