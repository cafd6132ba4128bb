/**
 The Noise handshake object and the encrypted transport it turns into. The cryptography is an outside library; it enters
 as functions on an abstract state, so what is proved holds for whatever those functions answer.
 */
module Noise {
  import opened Common

  const NOISE_MAX_MESSAGE: nat := 65535

  /** A handshake of type `H` that can become a transport of type `T`; each write or read is given a buffer size. */
  datatype SnowHandshake<!H, !T> = SnowHandshake(
    write: (H, Bytes, nat) -> (H, Result<Bytes, string>),
    read: (H, Bytes, nat) -> (H, Result<Bytes, string>),
    isFinished: H -> bool,
    intoTransport: H -> Result<T, string>)

  datatype SnowTransport<!T> = SnowTransport(
    seal: (T, Bytes, nat) -> (T, Result<Bytes, string>),
    open: (T, Bytes, nat) -> (T, Result<Bytes, string>))

  /** "handshake already consumed", or an error of the library passed on. */
  datatype NoiseError = Consumed | Library(message: string)

  function PassOn<T>(r: Result<T, string>): Result<T, NoiseError> {
    match r
    case Ok(v) => Ok(v)
    case Err(e) => Err(Library(e))
  }

  // ----- The handshake as a machine over calls from any number of callers -----

  datatype Operation = WriteMessage(payload: Bytes) | ReadMessage(msg: Bytes) | IsFinished | IntoTransport

  datatype HandshakeCall = HandshakeCall(caller: nat, op: Operation)

  datatype Reply<+T> =
    | Data(bytes: Bytes)
    | Finished(finished: bool)
    | Transport(transport: T)
    | Failed(error: NoiseError)

  function DataReply<T>(r: Result<Bytes, string>): Reply<T> {
    if r.Ok? then Data(r.value) else Failed(Library(r.error))
  }

  /** What one operation does to the handshake behind the lock, and what its caller gets. */
  function Perform<H, T>(snow: SnowHandshake<H, T>, inner: Option<H>, op: Operation): (Option<H>, Reply<T>) {
    match inner
    case None => (None, Failed(Consumed))
    case Some(hs) =>
      match op
      case WriteMessage(payload) =>
        var (hs', r) := snow.write(hs, payload, NOISE_MAX_MESSAGE);
        (Some(hs'), DataReply(r))
      case ReadMessage(msg) =>
        var (hs', r) := snow.read(hs, msg, NOISE_MAX_MESSAGE);
        (Some(hs'), DataReply(r))
      case IsFinished => (inner, Finished(snow.isFinished(hs)))
      case IntoTransport =>
        var r := snow.intoTransport(hs);
        (None, if r.Ok? then Transport(r.value) else Failed(Library(r.error)))
  }

  function Inner<H, T>(snow: SnowHandshake<H, T>, start: H, h: seq<HandshakeCall>): Option<H> {
    if h == [] then Some(start) else Perform(snow, Inner(snow, start, h[..|h| - 1]), h[|h| - 1].op).0
  }

  /** What call `i` of the history `h` returned. */
  function ReplyAt<H, T>(snow: SnowHandshake<H, T>, start: H, h: seq<HandshakeCall>, i: nat): Reply<T>
    requires i < |h|
  {
    Perform(snow, Inner(snow, start, h[..i]), h[i].op).1
  }

  predicate ConsumedBefore(h: seq<HandshakeCall>, i: nat)
    requires i <= |h|
  {
    exists j | 0 <= j < i :: h[j].op == IntoTransport
  }

  lemma {:induction false} InnerGoneIffConsumed<H, T>(snow: SnowHandshake<H, T>, start: H, h: seq<HandshakeCall>)
    ensures Inner(snow, start, h).None? <==> ConsumedBefore(h, |h|)
  {
    if h == [] {
    } else {
      var g := h[..|h| - 1];
      InnerGoneIffConsumed(snow, start, g);
      assert forall j | 0 <= j < |g| :: h[j] == g[j];
    }
  }

  /** A call is told "already consumed" exactly when some earlier call asked for the transport, granted or not. */
  lemma ConsumedExactly<H, T>(snow: SnowHandshake<H, T>, start: H, h: seq<HandshakeCall>, i: nat)
    requires i < |h|
    ensures ReplyAt(snow, start, h, i) == Failed(Consumed) <==> ConsumedBefore(h, i)
  {
    var g := h[..i];
    InnerGoneIffConsumed(snow, start, g);
    assert forall j | 0 <= j < i :: h[j] == g[j];
  }

  /** A transport is handed out exactly by the first request for one, if the library then agrees. */
  lemma TransportExactly<H, T>(snow: SnowHandshake<H, T>, start: H, h: seq<HandshakeCall>, i: nat)
    requires i < |h|
    ensures ReplyAt(snow, start, h, i).Transport? <==>
            && h[i].op == IntoTransport
            && !ConsumedBefore(h, i)
            && Inner(snow, start, h[..i]).Some?
            && snow.intoTransport(Inner(snow, start, h[..i]).value).Ok?
  {
    ConsumedExactly(snow, start, h, i);
  }

  /** However the calls of however many callers interleave, at most one of them yields a transport. */
  lemma AtMostOneTransport<H, T>(snow: SnowHandshake<H, T>, start: H, h: seq<HandshakeCall>, i: nat, j: nat)
    requires i < |h| && j < |h|
    requires ReplyAt(snow, start, h, i).Transport? && ReplyAt(snow, start, h, j).Transport?
    ensures i == j
  {
    assert forall k: nat, l: nat | k < l < |h| && h[k].op == IntoTransport :: ConsumedBefore(h, l);
    TransportExactly(snow, start, h, i);
    TransportExactly(snow, start, h, j);
  }

  /**
   `states` are the library's own states over the history `h`: each write and each read moves on from the state that the
   call before it left, and nothing else does.
   */
  ghost predicate LibraryRun<H, T>(
    snow: SnowHandshake<H, T>, start: H, h: seq<HandshakeCall>, states: seq<H>)
  {
    && |states| == |h| + 1
    && states[0] == start
    && forall k | 0 <= k < |h| ::
         states[k + 1] == match h[k].op
                          case WriteMessage(payload) => snow.write(states[k], payload, 65_535).0
                          case ReadMessage(msg) => snow.read(states[k], msg, 65_535).0
                          case IsFinished => states[k]
                          case IntoTransport => states[k]
  }

  lemma {:induction false} LibraryStates<H, T>(snow: SnowHandshake<H, T>, start: H, h: seq<HandshakeCall>)
    returns (states: seq<H>)
    ensures LibraryRun(snow, start, h, states)
  {
    if h == [] {
      states := [start];
    } else {
      var n := |h| - 1;
      states := LibraryStates(snow, start, h[..n]);
      var s := states[n];
      var next := match h[n].op
        case WriteMessage(payload) => snow.write(s, payload, 65_535).0
        case ReadMessage(msg) => snow.read(s, msg, 65_535).0
        case _ => s;
      states := states + [next];
    }
  }

  lemma {:induction false} InnerIsLibraryState<H, T>(
    snow: SnowHandshake<H, T>, start: H, h: seq<HandshakeCall>, states: seq<H>, i: nat)
    requires LibraryRun(snow, start, h, states)
    requires i <= |h| && !ConsumedBefore(h, i)
    ensures Inner(snow, start, h[..i]) == Some(states[i])
  {
    if i == 0 {
    } else {
      InnerIsLibraryState(snow, start, h, states, i - 1);
      assert h[..i][..i - 1] == h[..i - 1] && h[i - 1].op != IntoTransport;
    }
  }

  /**
   Until the transport is first asked for, the handshake has gone through exactly the library's own writes and reads, in
   order and with their payloads, and every reply is the library's answer in that state.
   */
  lemma LibrarySeesEveryCall<H, T>(
    snow: SnowHandshake<H, T>, start: H, h: seq<HandshakeCall>, states: seq<H>, i: nat)
    requires LibraryRun(snow, start, h, states)
    requires i < |h| && !ConsumedBefore(h, i)
    ensures Inner(snow, start, h[..i]) == Some(states[i])
    ensures
      var reply := ReplyAt(snow, start, h, i);
      match h[i].op
      case WriteMessage(payload) =>
        (match snow.write(states[i], payload, 65_535).1
         case Ok(bytes) => reply == Data(bytes)
         case Err(e) => reply == Failed(Library(e)))
      case ReadMessage(msg) =>
        (match snow.read(states[i], msg, 65_535).1
         case Ok(bytes) => reply == Data(bytes)
         case Err(e) => reply == Failed(Library(e)))
      case IsFinished => reply == Finished(snow.isFinished(states[i]))
      case IntoTransport =>
        (match snow.intoTransport(states[i])
         case Ok(t) => reply == Transport(t)
         case Err(e) => reply == Failed(Library(e)))
  {
    InnerIsLibraryState(snow, start, h, states, i);
  }

  // ----- The objects -----

  class NoiseHandshake<H, T> {
    const snow: SnowHandshake<H, T>
    var inner: Option<H>
    ghost const start: H
    ghost var history: seq<HandshakeCall>

    ghost predicate Valid()
      reads this
    {
      inner == Inner(snow, start, history)
    }

    constructor (snow: SnowHandshake<H, T>, hs: H)
      ensures Valid() && this.snow == snow && inner == Some(hs) && history == []
    {
      this.snow := snow;
      inner := Some(hs);
      start := hs;
      history := [];
    }

    ghost method Record(c: HandshakeCall, before: Option<H>)
      requires before == Inner(snow, start, history)
      requires inner == Perform(snow, before, c.op).0
      modifies this`history
      ensures Valid() && history == old(history) + [c]
      ensures ReplyAt(snow, start, history, |history| - 1) == Perform(snow, before, c.op).1
    {
      assert (history + [c])[..|history|] == history;
      history := history + [c];
    }

    method WriteMessage(ghost caller: nat, payload: Bytes) returns (r: Result<Bytes, NoiseError>)
      requires Valid()
      modifies this
      ensures Valid() && history == old(history) + [HandshakeCall(caller, Operation.WriteMessage(payload))]
      ensures ReplyAt(snow, start, history, |history| - 1) == if r.Ok? then Data(r.value) else Failed(r.error)
    {
      ghost var before := inner;
      if inner.None? {
        r := Err(Consumed);
      } else {
        var (hs, out) := snow.write(inner.value, payload, NOISE_MAX_MESSAGE);
        inner := Some(hs);
        r := PassOn(out);
      }
      Record(HandshakeCall(caller, Operation.WriteMessage(payload)), before);
    }

    method ReadMessage(ghost caller: nat, msg: Bytes) returns (r: Result<Bytes, NoiseError>)
      requires Valid()
      modifies this
      ensures Valid() && history == old(history) + [HandshakeCall(caller, Operation.ReadMessage(msg))]
      ensures ReplyAt(snow, start, history, |history| - 1) == if r.Ok? then Data(r.value) else Failed(r.error)
    {
      ghost var before := inner;
      if inner.None? {
        r := Err(Consumed);
      } else {
        var (hs, out) := snow.read(inner.value, msg, NOISE_MAX_MESSAGE);
        inner := Some(hs);
        r := PassOn(out);
      }
      Record(HandshakeCall(caller, Operation.ReadMessage(msg)), before);
    }

    method IsFinished(ghost caller: nat) returns (r: Result<bool, NoiseError>)
      requires Valid()
      modifies this`history
      ensures Valid() && history == old(history) + [HandshakeCall(caller, Operation.IsFinished)]
      ensures ReplyAt(snow, start, history, |history| - 1) == if r.Ok? then Finished(r.value) else Failed(r.error)
    {
      if inner.None? {
        r := Err(Consumed);
      } else {
        r := Ok(snow.isFinished(inner.value));
      }
      Record(HandshakeCall(caller, Operation.IsFinished), inner);
    }

    /** The handshake is taken out before the library is asked, so it is gone even when the library refuses. */
    method IntoTransport(ghost caller: nat) returns (r: Result<T, NoiseError>)
      requires Valid()
      modifies this
      ensures Valid() && history == old(history) + [HandshakeCall(caller, Operation.IntoTransport)]
      ensures ReplyAt(snow, start, history, |history| - 1) == if r.Ok? then Transport(r.value) else Failed(r.error)
      ensures inner == None
    {
      ghost var before := inner;
      var taken := inner;
      inner := None;
      if taken.None? {
        r := Err(Consumed);
      } else {
        r := PassOn(snow.intoTransport(taken.value));
      }
      Record(HandshakeCall(caller, Operation.IntoTransport), before);
    }
  }

  class NoiseTransport<T> {
    const snow: SnowTransport<T>
    var inner: T

    constructor (snow: SnowTransport<T>, t: T)
      ensures this.snow == snow && inner == t
    {
      this.snow := snow;
      inner := t;
    }

    method Encrypt(plaintext: Bytes) returns (r: Result<Bytes, NoiseError>)
      modifies this
      ensures var (after, out) := snow.seal(old(inner), plaintext, 65_535);
              inner == after && r == if out.Ok? then Ok(out.value) else Err(Library(out.error))
    {
      var (after, out) := snow.seal(inner, plaintext, NOISE_MAX_MESSAGE);
      inner := after;
      r := PassOn(out);
    }

    method Decrypt(ciphertext: Bytes) returns (r: Result<Bytes, NoiseError>)
      modifies this
      ensures var (after, out) := snow.open(old(inner), ciphertext, 65_535);
              inner == after && r == if out.Ok? then Ok(out.value) else Err(Library(out.error))
    {
      var (after, out) := snow.open(inner, ciphertext, NOISE_MAX_MESSAGE);
      inner := after;
      r := PassOn(out);
    }
  }
}
