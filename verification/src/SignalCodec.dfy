/** The codec as the program runs it: printing grows a vector in place, parsing advances a shared cursor. */
module SignalCodec {
  import opened Common
  import Utf8
  import opened Signal

  class ByteVec {
    var data: Bytes

    constructor ()
      ensures data == []
    {
      data := [];
    }

    method Push(b: Byte)
      modifies this
      ensures data == old(data) + [b]
    {
      data := data + [b];
    }

    method ExtendFromSlice(s: Bytes)
      modifies this
      ensures data == old(data) + s
    {
      data := data + s;
    }
  }

  method PushU16Str(out: ByteVec, s: Str)
    modifies out
    ensures out.data == old(out.data) + U16Field(s)
  {
    out.ExtendFromSlice(ToBigEndian(AsU16(Size(s))));
    out.ExtendFromSlice(Utf8.Encode(s));
  }

  method PushU8Str(out: ByteVec, s: Str)
    modifies out
    ensures out.data == old(out.data) + U8Field(s)
  {
    out.Push(AsU8(Size(s)));
    out.ExtendFromSlice(Utf8.Encode(s));
  }

  method EncodeInner(m: SignalMessage) returns (bytes: Bytes)
    ensures bytes == Encode(m)
  {
    var out := new ByteVec();
    match m {
      case Offer(sdp) =>
        out.Push(SIGNAL_TYPE_OFFER);
        assert out.data == [SIGNAL_TYPE_OFFER];
        PushU16Str(out, sdp);
      case Answer(sdp) =>
        out.Push(SIGNAL_TYPE_ANSWER);
        assert out.data == [SIGNAL_TYPE_ANSWER];
        PushU16Str(out, sdp);
      case IceCandidate(candidate, mid, mline) =>
        out.Push(SIGNAL_TYPE_ICE);
        assert out.data == [SIGNAL_TYPE_ICE];
        PushU16Str(out, candidate);
        PushU8Str(out, MidText(mid));
        out.ExtendFromSlice(ToBigEndian(MlineNumber(mline)));
      case Bye =>
        out.Push(SIGNAL_TYPE_BYE);
        assert out.data == [SIGNAL_TYPE_BYE];
    }
    bytes := out.data;
  }

  /** A cursor method did what the parsing function says of the bytes it started from. */
  ghost predicate Follows<T>(spec: Result<Read<T>, CodecError>, r: Result<T, CodecError>, rest: Bytes) {
    match spec
    case Ok(read) => r == Ok(read.value) && rest == read.rest
    case Err(e) => r == Err(e)
  }

  ghost predicate IsSuffix(rest: Bytes, all: Bytes) {
    |rest| <= |all| && rest == all[|all| - |rest|..]
  }

  class Cursor {
    var rest: Bytes

    constructor (bytes: Bytes)
      ensures rest == bytes
    {
      rest := bytes;
    }

    /** A read that fails on length leaves the cursor where it was. */
    method TakeN(n: nat) returns (r: Result<Bytes, CodecError>)
      modifies this
      ensures |old(rest)| < n ==> r == Err(Truncated) && rest == old(rest)
      ensures |old(rest)| >= n ==> r == Ok(old(rest)[..n]) && rest == old(rest)[n..]
    {
      if |rest| < n {
        return Err(Truncated);
      }
      r := Ok(rest[..n]);
      rest := rest[n..];
    }

    method TakeU8() returns (r: Result<Byte, CodecError>)
      modifies this
      ensures Follows(Signal.TakeU8(old(rest)), r, rest)
      ensures r.Err? ==> rest == old(rest)
    {
      var one :- TakeN(1);
      r := Ok(one[0]);
    }

    method TakeU16() returns (r: Result<U16, CodecError>)
      modifies this
      ensures Follows(Signal.TakeU16(old(rest)), r, rest)
      ensures r.Err? ==> rest == old(rest)
    {
      var two :- TakeN(2);
      r := Ok(FromBigEndian(two));
    }

    /** The text is consumed before it is validated, so the cursor is past it even when it is not UTF-8. */
    method TakeText(n: nat) returns (r: Result<Str, CodecError>)
      modifies this
      ensures Follows(Signal.TakeText(old(rest), n), r, rest)
      ensures rest == if |old(rest)| < n then old(rest) else old(rest)[n..]
    {
      var text :- TakeN(n);
      match Utf8.Validate(text) {
        case None => r := Err(InvalidUtf8);
        case Some(s) => r := Ok(s);
      }
    }

    method TakeU16Str() returns (r: Result<Str, CodecError>)
      modifies this
      ensures Follows(Signal.TakeU16Str(old(rest)), r, rest)
      ensures IsSuffix(rest, old(rest))
    {
      var len :- TakeU16();
      r := TakeText(len);
    }

    method TakeU8Str() returns (r: Result<Str, CodecError>)
      modifies this
      ensures Follows(Signal.TakeU8Str(old(rest)), r, rest)
      ensures IsSuffix(rest, old(rest))
    {
      var len :- TakeU8();
      r := TakeText(len);
    }
  }

  method DecodeInner(bytes: Bytes) returns (r: Result<SignalMessage, CodecError>)
    ensures r == Decode(bytes)
  {
    var cur := new Cursor(bytes);
    var kind :- cur.TakeU8();
    if kind == SIGNAL_TYPE_OFFER {
      var sdp :- cur.TakeU16Str();
      r := Ok(Offer(sdp));
    } else if kind == SIGNAL_TYPE_ANSWER {
      var sdp :- cur.TakeU16Str();
      r := Ok(Answer(sdp));
    } else if kind == SIGNAL_TYPE_ICE {
      var candidate :- cur.TakeU16Str();
      var mid :- cur.TakeU8Str();
      var mline :- cur.TakeU16();
      r := Ok(IceCandidate(candidate, PresentText(mid), PresentIndex(mline)));
    } else if kind == SIGNAL_TYPE_BYE {
      r := Ok(Bye);
    } else {
      r := Err(UnknownType(kind));
    }
  }
}
