/** Signal messages carried over an encrypted transport, from one peer's encoder to the other's decoder. */
module EndToEnd {
  import opened Common
  import opened Signal
  import SignalCodec
  import opened SignalProperties
  import opened Noise
  import Utf8

  // ----- What is assumed of the transport (sections 3 and 4.2 of the Noise Protocol Framework) -----

  /** A sealed message fits the buffer it is written to and is no shorter than its plaintext. */
  ghost predicate SealFits<T>(snow: SnowTransport<T>, a: T, p: Bytes) {
    var (_, r) := snow.seal(a, p, 65_535);
    r.Ok? ==> |p| <= |r.value| <= 65_535
  }

  /** What a paired peer opens is what was sealed, and the two stay paired; a refused message leaves them paired. */
  ghost predicate Delivers<T>(snow: SnowTransport<T>, paired: (T, T) -> bool, a: T, b: T, p: Bytes) {
    var (a', r) := snow.seal(a, p, 65_535);
    match r
    case Err(_) => paired(a', b)
    case Ok(c) =>
      var (b', q) := snow.open(b, c, 65_535);
      q == Ok(p) && paired(a', b')
  }

  ghost predicate Lawful<T(!new)>(snow: SnowTransport<T>, paired: (T, T) -> bool) {
    && (forall a: T, p: Bytes :: SealFits(snow, a, p))
    && (forall a: T, b: T, p: Bytes :: paired(a, b) ==> Delivers(snow, paired, a, b, p))
  }

  const TAG: Bytes := [0, 0, 0, 0, 0, 0, 0, 0, 0, 0, 0, 0, 0, 0, 0, 0]

  function TagSeal(n: int, p: Bytes, size: nat): (int, Result<Bytes, string>) {
    if |p| + |TAG| <= size then (n + 1, Ok(p + TAG)) else (n, Err("input"))
  }

  function TagOpen(n: int, c: Bytes, size: nat): (int, Result<Bytes, string>) {
    if |TAG| <= |c| then (n + 1, Ok(c[..|c| - |TAG|])) else (n, Err("decrypt"))
  }

  predicate SameCount(a: int, b: int) {
    a == b
  }

  /** The assumptions can be met, for one by peers that count messages and add a 16-byte tag to each. */
  lemma LawfulIsPossible()
    ensures Lawful(SnowTransport(TagSeal, TagOpen), SameCount) && SameCount(0, 0)
  {
    var snow := SnowTransport(TagSeal, TagOpen);
    forall a: int, b: int, p: Bytes | SameCount(a, b) ensures Delivers(snow, SameCount, a, b, p) {
      assert (p + TAG)[..|p + TAG| - |TAG|] == p;
    }
  }

  /** Those peers accept a message exactly when its encoding leaves room for the tag in 65535 bytes. */
  lemma TagAcceptsExactly(n: int, m: SignalMessage)
    ensures TagSeal(n, Encode(m), NOISE_MAX_MESSAGE).1.Ok? <==> |Encode(m)| <= 65_519
    ensures m.Offer? || m.Answer? ==>
              (TagSeal(n, Encode(m), NOISE_MAX_MESSAGE).1.Ok? <==> Size(m.sdp) <= 65_516)
  {
    if m.Offer? || m.Answer? {
      DescriptionLayout(m);
    }
  }

  // ----- One peer sends, the other receives -----

  datatype Receipt = Message(m: SignalMessage) | DecryptError(message: string) | DecodeError(error: CodecError)

  function Receive<T>(snow: SnowTransport<T>, b: T, c: Bytes): (T, Receipt) {
    var (b', p) := snow.open(b, c, 65_535);
    match p
    case Err(e) => (b', DecryptError(e))
    case Ok(bytes) =>
      match Decode(bytes)
      case Err(e) => (b', DecodeError(e))
      case Ok(m) => (b', Message(m))
  }

  /** Receiving, told without the decoder: the canonical message whose encoding the opened bytes start with. */
  lemma ReceiveExactly<T>(snow: SnowTransport<T>, b: T, c: Bytes, m: SignalMessage)
    ensures
      var (b', p) := snow.open(b, c, 65_535);
      var (after, receipt) := Receive(snow, b, c);
      && after == b'
      && (receipt == Message(m) <==> p.Ok? && Canonical(m) && Encode(m) <= p.value)
      && (forall e :: receipt == DecryptError(e) <==> p == Err(e))
      && (forall e :: receipt == DecodeError(e) <==> p.Ok? && Decode(p.value) == Err(e))
  {
    hide Encode, Decode, Canonical;
    var p := snow.open(b, c, 65_535).1;
    if p.Ok? {
      AcceptedLanguage(p.value, m);
    }
  }

  predicate MidFits(m: SignalMessage) {
    m.IceCandidate? ==> Size(MidText(m.sdpMid)) <= 0xFF
  }

  predicate TextFits(m: SignalMessage) {
    match m
    case IceCandidate(candidate, _, _) => Size(candidate) <= 0xFFFF
    case Bye => true
    case _ => Size(m.sdp) <= 0xFFFF
  }

  /** A message whose 16-bit length field wraps is too long for any Noise message. */
  lemma WrappedLengthIsTooLong(m: SignalMessage)
    ensures !TextFits(m) ==> |Encode(m)| > 65_535
    ensures WithinLimits(m) <==> TextFits(m) && MidFits(m)
  {
    match m {
      case IceCandidate(candidate, mid, mline) => CandidateLayout(candidate, mid, mline, Encode(m));
      case Bye =>
      case _ => DescriptionLayout(m);
    }
  }

  /**
   What the peer makes of a message that gets through: its normal form if the mid fits the 8-bit length, else the
   UTF-8 error or a candidate with a shortened mid and two bytes of the mid's text as its m-line index.
   */
  function ReceiptFor(m: SignalMessage): Receipt {
    if MidFits(m) then
      Message(NormalForm(m))
    else
      var mid := MidText(m.sdpMid);
      var cut := Size(mid) % 0x100;
      match Utf8.Cut(mid, cut)
      case None => DecodeError(InvalidUtf8)
      case Some(p) => Message(IceCandidate(m.candidate, PresentText(p), PresentIndex(NumberAt(mid, cut))))
  }

  lemma ReceiptExactly(m: SignalMessage)
    requires TextFits(m)
    ensures match Decode(Encode(m))
            case Ok(seen) => ReceiptFor(m) == Message(seen)
            case Err(e) => ReceiptFor(m) == DecodeError(e)
    ensures ReceiptFor(m) == Message(NormalForm(m)) <==> MidFits(m)
  {
    hide Encode, Decode;
    WrappedLengthIsTooLong(m);
    RoundTripToNormalForm(m);
    if !MidFits(m) {
      assert m.sdpMid.Some?;
      WrappedMid(m.candidate, m.sdpMid.value, m.sdpMlineIndex);
    }
  }

  /** What the peer makes of a message that gets through: the normal form exactly when the mid fits the 8-bit length. */
  lemma DeliveredIffMidFits<T(!new)>(snow: SnowTransport<T>, paired: (T, T) -> bool, a: T, b: T, m: SignalMessage)
    requires Lawful(snow, paired) && paired(a, b)
    requires snow.seal(a, Encode(m), 65_535).1.Ok?
    ensures
      var receipt := Receive(snow, b, snow.seal(a, Encode(m), 65_535).1.value).1;
      receipt == ReceiptFor(m) && (receipt == Message(NormalForm(m)) <==> MidFits(m))
  {
    hide Encode, Decode, ReceiptFor, TextFits, MidFits;
    assert SealFits(snow, a, Encode(m));
    assert Delivers(snow, paired, a, b, Encode(m));
    WrappedLengthIsTooLong(m);
    ReceiptExactly(m);
  }

  /**
   Over a whole session, told by the states `xs` of the sender and `ys` of the receiver between messages: each message
   is sealed in turn, and if it is accepted the receiver opens it. Then every accepted message gets exactly its receipt,
   whatever became of the others, and the peers are paired after each message.
   */
  lemma {:induction false} SessionDelivers<T(!new)>(
    snow: SnowTransport<T>, paired: (T, T) -> bool, ms: seq<SignalMessage>, xs: seq<T>, ys: seq<T>, n: nat)
    requires Lawful(snow, paired)
    requires |xs| == |ys| == |ms| + 1 && paired(xs[0], ys[0])
    requires forall k | 0 <= k < |ms| :: xs[k + 1] == snow.seal(xs[k], Encode(ms[k]), 65_535).0
    requires forall k | 0 <= k < |ms| ::
               ys[k + 1] == match snow.seal(xs[k], Encode(ms[k]), 65_535).1
                            case Ok(c) => snow.open(ys[k], c, 65_535).0
                            case Err(_) => ys[k]
    requires n <= |ms|
    ensures forall k | 0 <= k <= n :: paired(xs[k], ys[k])
    ensures forall k | 0 <= k < n && snow.seal(xs[k], Encode(ms[k]), 65_535).1.Ok? ::
              var receipt := Receive(snow, ys[k], snow.seal(xs[k], Encode(ms[k]), 65_535).1.value).1;
              receipt == ReceiptFor(ms[k]) && (receipt == Message(NormalForm(ms[k])) <==> MidFits(ms[k]))
  {
    hide Encode, Decode, ReceiptFor, MidFits, NormalForm;
    if n == 0 {
    } else {
      SessionDelivers(snow, paired, ms, xs, ys, n - 1);
      var k := n - 1;
      assert Delivers(snow, paired, xs[k], ys[k], Encode(ms[k]));
      if snow.seal(xs[k], Encode(ms[k]), 65_535).1.Ok? {
        DeliveredIffMidFits(snow, paired, xs[k], ys[k], ms[k]);
      }
    }
  }

  /** Every session has such states. */
  lemma {:induction false} SessionStates<T(!new)>(snow: SnowTransport<T>, a: T, b: T, ms: seq<SignalMessage>)
    returns (xs: seq<T>, ys: seq<T>)
    ensures |xs| == |ys| == |ms| + 1 && xs[0] == a && ys[0] == b
    ensures forall k | 0 <= k < |ms| :: xs[k + 1] == snow.seal(xs[k], Encode(ms[k]), 65_535).0
    ensures forall k | 0 <= k < |ms| ::
              ys[k + 1] == match snow.seal(xs[k], Encode(ms[k]), 65_535).1
                           case Ok(c) => snow.open(ys[k], c, 65_535).0
                           case Err(_) => ys[k]
  {
    hide Encode;
    if ms == [] {
      xs, ys := [a], [b];
    } else {
      var n := |ms| - 1;
      xs, ys := SessionStates(snow, a, b, ms[..n]);
      var (x, r) := snow.seal(xs[n], Encode(ms[n]), 65_535);
      var y := match r case Ok(c) => snow.open(ys[n], c, 65_535).0 case Err(_) => ys[n];
      xs, ys := xs + [x], ys + [y];
    }
  }

  // ----- The same through the objects the two peers hold -----

  /** `c` is on its way: opening it gives the peer the bytes `p`, and leaves the two peers paired. */
  ghost predicate InFlight<T>(snow: SnowTransport<T>, paired: (T, T) -> bool, a: T, b: T, c: Bytes, p: Bytes) {
    var (b', q) := snow.open(b, c, 65_535);
    q == Ok(p) && paired(a, b')
  }

  ghost predicate Connects<T(!new)>(sender: NoiseTransport<T>, receiver: NoiseTransport<T>, paired: (T, T) -> bool) {
    sender != receiver && sender.snow == receiver.snow && Lawful(sender.snow, paired)
  }

  /** Encode, then encrypt. A refused message leaves the peers paired; an accepted one is in flight between them. */
  method SendSignal<T(!new)>(
    sender: NoiseTransport<T>, m: SignalMessage, ghost receiver: NoiseTransport<T>, ghost paired: (T, T) -> bool)
    returns (r: Result<Bytes, NoiseError>)
    modifies sender
    ensures var (after, out) := sender.snow.seal(old(sender.inner), Encode(m), 65_535);
            sender.inner == after && r == if out.Ok? then Ok(out.value) else Err(Library(out.error))
    ensures Connects(sender, receiver, paired) && paired(old(sender.inner), receiver.inner) ==>
              match r
              case Err(_) => paired(sender.inner, receiver.inner)
              case Ok(c) =>
                && |Encode(m)| <= |c| <= 65_535
                && TextFits(m)
                && InFlight(sender.snow, paired, sender.inner, receiver.inner, c, Encode(m))
  {
    ghost var a, b := sender.inner, receiver.inner;
    var bytes := SignalCodec.EncodeInner(m);
    r := sender.Encrypt(bytes);
    if Connects(sender, receiver, paired) && paired(a, b) {
      assert SealFits(sender.snow, a, Encode(m));
      assert Delivers(sender.snow, paired, a, b, Encode(m));
      WrappedLengthIsTooLong(m);
    }
  }

  /** Decrypt, then decode. A signal in flight arrives in normal form exactly if its mid fits; the peers stay paired. */
  method ReceiveSignal<T(!new)>(
    receiver: NoiseTransport<T>, c: Bytes,
    ghost sender: NoiseTransport<T>, ghost paired: (T, T) -> bool, ghost m: SignalMessage)
    returns (r: Receipt)
    modifies receiver
    ensures (receiver.inner, r) == Receive(receiver.snow, old(receiver.inner), c)
    ensures Connects(sender, receiver, paired) && TextFits(m)
            && InFlight(sender.snow, paired, sender.inner, old(receiver.inner), c, Encode(m)) ==>
              && paired(sender.inner, receiver.inner)
              && r == ReceiptFor(m)
              && (r == Message(NormalForm(m)) <==> MidFits(m))
  {
    var plain := receiver.Decrypt(c);
    match plain {
      case Err(Library(e)) => r := DecryptError(e);
      case Ok(bytes) =>
        var decoded := SignalCodec.DecodeInner(bytes);
        r := match decoded case Ok(signal) => Message(signal) case Err(e) => DecodeError(e);
    }
    if TextFits(m) {
      ReceiptExactly(m);
    }
  }

  /** A peer that sends while the other receives: what arrives, if the message is accepted at all. */
  method Exchange<T(!new)>(
    sender: NoiseTransport<T>, receiver: NoiseTransport<T>, m: SignalMessage, ghost paired: (T, T) -> bool)
    returns (r: Option<Receipt>)
    requires Connects(sender, receiver, paired) && paired(sender.inner, receiver.inner)
    modifies sender, receiver
    ensures paired(sender.inner, receiver.inner)
    ensures sender.inner == sender.snow.seal(old(sender.inner), Encode(m), 65_535).0
    ensures r.Some? <==> sender.snow.seal(old(sender.inner), Encode(m), 65_535).1.Ok?
    ensures r.None? ==> receiver.inner == old(receiver.inner)
    ensures r.Some? ==> r.value == ReceiptFor(m) && (r.value == Message(NormalForm(m)) <==> MidFits(m))
  {
    var sent := SendSignal(sender, m, receiver, paired);
    if sent.Err? {
      return None;
    }
    var receipt := ReceiveSignal(receiver, sent.value, sender, paired, m);
    r := Some(receipt);
  }
}
