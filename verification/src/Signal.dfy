/**
 The WebRTC signal messages and their wire format: a type byte, then length-prefixed UTF-8 text and big-endian numbers.
 Lengths are narrowed to the width of their prefix, so an oversized field wraps its length.
 */
module Signal {
  import opened Common
  import Utf8

  type Str = Utf8.Str

  datatype SignalMessage =
    | Offer(sdp: Str)
    | Answer(sdp: Str)
    | IceCandidate(candidate: Str, sdpMid: Option<Str>, sdpMlineIndex: Option<U16>)
    | Bye

  /** The error strings of the decoder, by meaning. */
  datatype CodecError = Truncated | InvalidUtf8 | UnknownType(kind: Byte)

  const SIGNAL_TYPE_OFFER: Byte := 1
  const SIGNAL_TYPE_ANSWER: Byte := 2
  const SIGNAL_TYPE_ICE: Byte := 3
  const SIGNAL_TYPE_BYE: Byte := 4
  const SIGNAL_NO_MLINE_INDEX: U16 := 0xFFFF

  // ----- Printing -----

  /** `as u16` and `as u8` keep the low bits. */
  function AsU16(n: nat): U16 {
    n % 0x1_0000
  }

  function AsU8(n: nat): Byte {
    n % 0x100
  }

  function ToBigEndian(n: U16): (b: Bytes)
    ensures |b| == 2
  {
    [n / 0x100, n % 0x100]
  }

  function U16Field(s: Str): Bytes {
    var text := Utf8.Encode(s);
    ToBigEndian(AsU16(|text|)) + text
  }

  function U8Field(s: Str): Bytes {
    var text := Utf8.Encode(s);
    [AsU8(|text|)] + text
  }

  function MidText(mid: Option<Str>): Str {
    if mid.Some? then mid.value else []
  }

  function MlineNumber(mline: Option<U16>): U16 {
    if mline.Some? then mline.value else SIGNAL_NO_MLINE_INDEX
  }

  function Encode(m: SignalMessage): Bytes {
    match m
    case Offer(sdp) => [SIGNAL_TYPE_OFFER] + U16Field(sdp)
    case Answer(sdp) => [SIGNAL_TYPE_ANSWER] + U16Field(sdp)
    case IceCandidate(candidate, mid, mline) =>
      [SIGNAL_TYPE_ICE] + U16Field(candidate) + U8Field(MidText(mid)) + ToBigEndian(MlineNumber(mline))
    case Bye => [SIGNAL_TYPE_BYE]
  }

  // ----- Parsing -----

  /** What reading a field from a cursor leaves behind: the value read and the bytes not yet read. */
  datatype Read<+T> = Read(value: T, rest: Bytes)

  function TakeN(cur: Bytes, n: nat): Result<Read<Bytes>, CodecError> {
    if |cur| < n then Err(Truncated) else Ok(Read(cur[..n], cur[n..]))
  }

  function FromBigEndian(b: Bytes): U16
    requires |b| == 2
  {
    var hi: int, lo: int := b[0], b[1];
    hi * 0x100 + lo
  }

  function TakeText(cur: Bytes, n: nat): Result<Read<Str>, CodecError> {
    var text :- TakeN(cur, n);
    match Utf8.Validate(text.value)
    case None => Err(InvalidUtf8)
    case Some(s) => Ok(Read(s, text.rest))
  }

  function TakeU16(cur: Bytes): Result<Read<U16>, CodecError> {
    var two :- TakeN(cur, 2);
    Ok(Read(FromBigEndian(two.value), two.rest))
  }

  function TakeU8(cur: Bytes): Result<Read<Byte>, CodecError> {
    var one :- TakeN(cur, 1);
    Ok(Read(one.value[0], one.rest))
  }

  function TakeU16Str(cur: Bytes): Result<Read<Str>, CodecError> {
    var len :- TakeU16(cur);
    TakeText(len.rest, len.value)
  }

  function TakeU8Str(cur: Bytes): Result<Read<Str>, CodecError> {
    var len :- TakeU8(cur);
    TakeText(len.rest, len.value)
  }

  /** The empty text and the sentinel number read as absent fields. */
  function PresentText(s: Str): Option<Str> {
    if s == [] then None else Some(s)
  }

  function PresentIndex(n: U16): Option<U16> {
    if n == SIGNAL_NO_MLINE_INDEX then None else Some(n)
  }

  function TakeIce(cur: Bytes): Result<Read<SignalMessage>, CodecError> {
    var candidate :- TakeU16Str(cur);
    var mid :- TakeU8Str(candidate.rest);
    var mline :- TakeU16(mid.rest);
    Ok(Read(IceCandidate(candidate.value, PresentText(mid.value), PresentIndex(mline.value)), mline.rest))
  }

  function ParseBody(kind: Byte, cur: Bytes): Result<Read<SignalMessage>, CodecError> {
    if kind == SIGNAL_TYPE_OFFER then
      var sdp :- TakeU16Str(cur);
      Ok(Read(Offer(sdp.value), sdp.rest))
    else if kind == SIGNAL_TYPE_ANSWER then
      var sdp :- TakeU16Str(cur);
      Ok(Read(Answer(sdp.value), sdp.rest))
    else if kind == SIGNAL_TYPE_ICE then
      TakeIce(cur)
    else if kind == SIGNAL_TYPE_BYE then
      Ok(Read(Bye, cur))
    else
      Err(UnknownType(kind))
  }

  /** The decoder together with the bytes its cursor has not consumed when it stops. */
  function Parse(b: Bytes): Result<Read<SignalMessage>, CodecError> {
    var kind :- TakeU8(b);
    ParseBody(kind.value, kind.rest)
  }

  function Decode(b: Bytes): Result<SignalMessage, CodecError> {
    var m :- Parse(b);
    Ok(m.value)
  }

  // ----- The messages the format can carry -----

  function Size(s: Str): nat {
    |Utf8.Encode(s)|
  }

  /** Every text fits the length prefix in front of it. */
  predicate WithinLimits(m: SignalMessage) {
    match m
    case Offer(sdp) => Size(sdp) <= 0xFFFF
    case Answer(sdp) => Size(sdp) <= 0xFFFF
    case IceCandidate(candidate, mid, _) => Size(candidate) <= 0xFFFF && Size(MidText(mid)) <= 0xFF
    case Bye => true
  }

  /** Within the limits, and no present field carries the value that stands for an absent one. */
  predicate Canonical(m: SignalMessage) {
    && WithinLimits(m)
    && (m.IceCandidate? ==> m.sdpMid != Some([]) && m.sdpMlineIndex != Some(SIGNAL_NO_MLINE_INDEX))
  }

  /** The message a peer sees: sentinel values become absent fields. */
  function NormalForm(m: SignalMessage): SignalMessage {
    match m
    case IceCandidate(candidate, mid, mline) =>
      IceCandidate(candidate,
                   if mid == Some([]) then None else mid,
                   if mline == Some(SIGNAL_NO_MLINE_INDEX) then None else mline)
    case _ => m
  }

  function EncodeAll(ms: seq<SignalMessage>): Bytes {
    if ms == [] then [] else Encode(ms[0]) + EncodeAll(ms[1..])
  }
}
