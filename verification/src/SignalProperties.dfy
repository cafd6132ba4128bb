/** What the wire format guarantees: its accepted language, its round trip, and what happens outside both. */
module SignalProperties {
  import opened Common
  import Utf8
  import opened Signal

  // ----- Fields: each reader accepts exactly what the matching writer prints -----

  lemma BigEndianExact(n: U16, b: Bytes)
    requires |b| == 2
    ensures FromBigEndian(b) == n <==> b == ToBigEndian(n)
  {
    assert b == [b[0], b[1]];
  }

  lemma TakeNExact(cur: Bytes, n: nat, head: Bytes, rest: Bytes)
    ensures TakeN(cur, n) == Ok(Read(head, rest)) <==> |head| == n && cur == head + rest
  {
    if |cur| >= n {
      assert cur == cur[..n] + cur[n..];
      if |head| == n && cur == head + rest {
        assert cur[..n] == head && cur[n..] == rest;
      }
    }
  }

  lemma TakeU16Exact(cur: Bytes, n: U16, rest: Bytes)
    ensures TakeU16(cur) == Ok(Read(n, rest)) <==> cur == ToBigEndian(n) + rest
  {
    TakeNExact(cur, 2, ToBigEndian(n), rest);
    if |cur| >= 2 {
      TakeNExact(cur, 2, cur[..2], rest);
      BigEndianExact(n, cur[..2]);
    }
  }

  lemma TakeU8Exact(cur: Bytes, n: Byte, rest: Bytes)
    ensures TakeU8(cur) == Ok(Read(n, rest)) <==> cur == [n] + rest
  {
    TakeNExact(cur, 1, [n], rest);
    if |cur| >= 1 {
      assert cur[..1] == [cur[0]];
    }
  }

  lemma TakeTextExact(cur: Bytes, n: nat, s: Str, rest: Bytes)
    ensures TakeText(cur, n) == Ok(Read(s, rest)) <==> Size(s) == n && cur == Utf8.Encode(s) + rest
  {
    TakeNExact(cur, n, Utf8.Encode(s), rest);
    Utf8.ValidateEncode(s);
    if |cur| >= n {
      TakeNExact(cur, n, cur[..n], rest);
      Utf8.ValidateExact(cur[..n], s);
    }
  }

  lemma Associate(a: Bytes, b: Bytes, c: Bytes)
    ensures a + b + c == a + (b + c)
  {
  }

  lemma TakeU16StrPrinted(s: Str, rest: Bytes)
    ensures TakeU16Str(U16Field(s) + rest) == TakeText(Utf8.Encode(s) + rest, AsU16(Size(s)))
  {
    var text := Utf8.Encode(s);
    Associate(ToBigEndian(AsU16(|text|)), text, rest);
    TakeU16Exact(U16Field(s) + rest, AsU16(|text|), text + rest);
  }

  lemma TakenU16Str(cur: Bytes)
    requires TakeU16Str(cur).Ok?
    ensures var read := TakeU16Str(cur).value; Size(read.value) <= 0xFFFF && cur == U16Field(read.value) + read.rest
  {
    hide Utf8.Encode, Utf8.Validate;
    var len := TakeU16(cur).value;
    var read := TakeU16Str(cur).value;
    TakeU16Exact(cur, len.value, len.rest);
    TakeTextExact(len.rest, len.value, read.value, read.rest);
    Associate(ToBigEndian(len.value), Utf8.Encode(read.value), read.rest);
  }

  lemma PrintedU16Str(s: Str, rest: Bytes)
    requires Size(s) <= 0xFFFF
    ensures TakeU16Str(U16Field(s) + rest) == Ok(Read(s, rest))
  {
    hide Utf8.Encode, Utf8.Validate;
    TakeU16StrPrinted(s, rest);
    TakeTextExact(Utf8.Encode(s) + rest, Size(s), s, rest);
  }

  lemma TakeU16StrExact(cur: Bytes, s: Str, rest: Bytes)
    ensures TakeU16Str(cur) == Ok(Read(s, rest)) <==> Size(s) <= 0xFFFF && cur == U16Field(s) + rest
  {
    if TakeU16Str(cur) == Ok(Read(s, rest)) {
      TakenU16Str(cur);
    }
    if Size(s) <= 0xFFFF {
      PrintedU16Str(s, rest);
    }
  }

  lemma TakeU8StrPrinted(s: Str, rest: Bytes)
    ensures TakeU8Str(U8Field(s) + rest) == TakeText(Utf8.Encode(s) + rest, AsU8(Size(s)))
  {
    var text := Utf8.Encode(s);
    Associate([AsU8(|text|)], text, rest);
    TakeU8Exact(U8Field(s) + rest, AsU8(|text|), text + rest);
  }

  lemma TakenU8Str(cur: Bytes)
    requires TakeU8Str(cur).Ok?
    ensures var read := TakeU8Str(cur).value; Size(read.value) <= 0xFF && cur == U8Field(read.value) + read.rest
  {
    hide Utf8.Encode, Utf8.Validate;
    var len := TakeU8(cur).value;
    var read := TakeU8Str(cur).value;
    TakeU8Exact(cur, len.value, len.rest);
    TakeTextExact(len.rest, len.value, read.value, read.rest);
    Associate([len.value], Utf8.Encode(read.value), read.rest);
  }

  lemma PrintedU8Str(s: Str, rest: Bytes)
    requires Size(s) <= 0xFF
    ensures TakeU8Str(U8Field(s) + rest) == Ok(Read(s, rest))
  {
    hide Utf8.Encode, Utf8.Validate;
    TakeU8StrPrinted(s, rest);
    TakeTextExact(Utf8.Encode(s) + rest, Size(s), s, rest);
  }

  lemma TakeU8StrExact(cur: Bytes, s: Str, rest: Bytes)
    ensures TakeU8Str(cur) == Ok(Read(s, rest)) <==> Size(s) <= 0xFF && cur == U8Field(s) + rest
  {
    if TakeU8Str(cur) == Ok(Read(s, rest)) {
      TakenU8Str(cur);
    }
    if Size(s) <= 0xFF {
      PrintedU8Str(s, rest);
    }
  }

  // ----- The accepted language -----

  lemma ParseSplit(kind: Byte, body: Bytes)
    ensures Parse([kind] + body) == ParseBody(kind, body)
  {
    TakeU8Exact([kind] + body, kind, body);
  }

  lemma ParsePrintedIce(m: SignalMessage, rest: Bytes)
    requires Canonical(m) && m.IceCandidate?
    ensures Parse(Encode(m) + rest) == Ok(Read(m, rest))
  {
    hide U16Field, U8Field, ToBigEndian, TakeIce;
    var mid, mline := MidText(m.sdpMid), MlineNumber(m.sdpMlineIndex);
    Regroup([SIGNAL_TYPE_ICE], U16Field(m.candidate), U8Field(mid), ToBigEndian(mline), rest);
    ParseSplit(SIGNAL_TYPE_ICE, U16Field(m.candidate) + (U8Field(mid) + (ToBigEndian(mline) + rest)));
    TakePrintedIce(m.candidate, mid, mline, rest);
  }

  lemma TakePrintedIce(candidate: Str, mid: Str, mline: U16, rest: Bytes)
    requires Size(candidate) <= 0xFFFF && Size(mid) <= 0xFF
    ensures TakeIce(U16Field(candidate) + (U8Field(mid) + (ToBigEndian(mline) + rest))) ==
            Ok(Read(IceCandidate(candidate, PresentText(mid), PresentIndex(mline)), rest))
  {
    hide U16Field, U8Field, ToBigEndian, TakeU16Str, TakeU8Str, TakeU16;
    var r2 := ToBigEndian(mline) + rest;
    PrintedU16Str(candidate, U8Field(mid) + r2);
    PrintedU8Str(mid, r2);
    TakeU16Exact(r2, mline, rest);
  }

  lemma ParsePrintedDescription(m: SignalMessage, rest: Bytes)
    requires Canonical(m) && (m.Offer? || m.Answer?)
    ensures Parse(Encode(m) + rest) == Ok(Read(m, rest))
  {
    var kind := if m.Offer? then SIGNAL_TYPE_OFFER else SIGNAL_TYPE_ANSWER;
    assert Encode(m) + rest == [kind] + (U16Field(m.sdp) + rest);
    ParseSplit(kind, U16Field(m.sdp) + rest);
    PrintedU16Str(m.sdp, rest);
  }

  /** A canonical message printed in front of any tail parses to that message and leaves exactly the tail. */
  lemma ParsePrinted(m: SignalMessage, rest: Bytes)
    requires Canonical(m)
    ensures Parse(Encode(m) + rest) == Ok(Read(m, rest))
  {
    match m {
      case IceCandidate(_, _, _) => ParsePrintedIce(m, rest);
      case Bye => ParseSplit(SIGNAL_TYPE_BYE, rest);
      case _ => ParsePrintedDescription(m, rest);
    }
  }

  /** Whatever parses is canonical, and what was consumed is its printed form. */
  lemma ParsedIsPrinted(b: Bytes)
    requires Parse(b).Ok?
    ensures var read := Parse(b).value; Canonical(read.value) && b == Encode(read.value) + read.rest
  {
    var read := Parse(b).value;
    var kind := TakeU8(b).value;
    TakeU8Exact(b, kind.value, kind.rest);
    if kind.value == SIGNAL_TYPE_ICE {
      TakenIceIsPrinted(kind.rest);
      assert b == Encode(read.value) + read.rest;
    } else if kind.value != SIGNAL_TYPE_BYE {
      var sdp := TakeU16Str(kind.rest).value;
      TakenU16Str(kind.rest);
      assert b == Encode(read.value) + read.rest;
    }
  }

  lemma TakenIceIsPrinted(cur: Bytes)
    requires TakeIce(cur).Ok?
    ensures var read := TakeIce(cur).value;
            Canonical(read.value) && [SIGNAL_TYPE_ICE] + cur == Encode(read.value) + read.rest
  {
    var read := TakeIce(cur).value;
    var candidate := TakeU16Str(cur).value;
    TakenU16Str(cur);
    var mid := TakeU8Str(candidate.rest).value;
    TakenU8Str(candidate.rest);
    var mline := TakeU16(mid.rest).value;
    TakeU16Exact(mid.rest, mline.value, mline.rest);
    assert MidText(read.value.sdpMid) == mid.value;
    assert MlineNumber(read.value.sdpMlineIndex) == mline.value;
    Regroup([SIGNAL_TYPE_ICE], U16Field(candidate.value), U8Field(mid.value), ToBigEndian(mline.value), mline.rest);
  }

  lemma Regroup(a: Bytes, b: Bytes, c: Bytes, d: Bytes, rest: Bytes)
    ensures a + (b + (c + (d + rest))) == a + b + c + d + rest
    ensures a + b + c + d + [] == a + b + c + d
  {
  }

  /** The parser accepts exactly the canonical encodings, each followed by any tail, and stops at that tail. */
  lemma ParseExact(b: Bytes, m: SignalMessage, rest: Bytes)
    ensures Parse(b) == Ok(Read(m, rest)) <==> Canonical(m) && b == Encode(m) + rest
  {
    if Parse(b) == Ok(Read(m, rest)) {
      ParsedIsPrinted(b);
    }
    if Canonical(m) && b == Encode(m) + rest {
      ParsePrinted(m, rest);
    }
  }

  lemma AcceptedLanguage(b: Bytes, m: SignalMessage)
    ensures Decode(b) == Ok(m) <==> Canonical(m) && Encode(m) <= b
  {
    hide Parse, Encode, Canonical;
    if Decode(b) == Ok(m) {
      ParsedIsPrinted(b);
    }
    if Canonical(m) && Encode(m) <= b {
      var rest := b[|Encode(m)|..];
      assert b == Encode(m) + rest;
      ParsePrinted(m, rest);
    }
  }

  // ----- Round trip -----

  /** Decoding gives a message back unchanged exactly when it is canonical. */
  lemma RoundTripIffCanonical(m: SignalMessage)
    ensures Decode(Encode(m)) == Ok(m) <==> Canonical(m)
  {
    AcceptedLanguage(Encode(m), m);
  }

  lemma NormalFormLaws(m: SignalMessage)
    ensures Encode(NormalForm(m)) == Encode(m)
    ensures NormalForm(NormalForm(m)) == NormalForm(m)
    ensures Canonical(NormalForm(m)) <==> WithinLimits(m)
    ensures Canonical(m) <==> WithinLimits(m) && NormalForm(m) == m
  {
  }

  /** The peer sees the normal form exactly when no length prefix wraps. */
  lemma RoundTripToNormalForm(m: SignalMessage)
    ensures Decode(Encode(m)) == Ok(NormalForm(m)) <==> WithinLimits(m)
  {
    NormalFormLaws(m);
    RoundTripIffCanonical(NormalForm(m));
  }

  /** A decoded candidate never carries an empty mid or the index 65535, and absent fields come back absent. */
  lemma AbsentFields(b: Bytes, candidate: Str)
    ensures Decode(b).Ok? && Decode(b).value.IceCandidate? ==>
              Decode(b).value.sdpMid != Some([]) && Decode(b).value.sdpMlineIndex != Some(65_535)
    ensures Size(candidate) <= 65_535 ==>
              var bare := IceCandidate(candidate, None, None);
              && Decode(Encode(bare)) == Ok(bare)
              && Decode(Encode(IceCandidate(candidate, Some([]), Some(65_535)))) == Ok(bare)
  {
    hide Encode, Parse;
    if Decode(b).Ok? {
      AcceptedLanguage(b, Decode(b).value);
    }
    RoundTripIffCanonical(IceCandidate(candidate, None, None));
    NormalFormLaws(IceCandidate(candidate, Some([]), Some(65_535)));
  }

  // ----- Self-delimiting -----

  function Extend<T>(r: Result<Read<T>, CodecError>, t: Bytes): Result<Read<T>, CodecError> {
    match r
    case Ok(read) => Ok(Read(read.value, read.rest + t))
    case Err(e) => Err(e)
  }

  lemma TakeNStable(cur: Bytes, n: nat, t: Bytes)
    requires TakeN(cur, n).Ok?
    ensures TakeN(cur + t, n) == Extend(TakeN(cur, n), t)
  {
    assert (cur + t)[..n] == cur[..n];
    assert (cur + t)[n..] == cur[n..] + t;
  }

  lemma TakeTextStable(cur: Bytes, n: nat, t: Bytes)
    requires TakeText(cur, n) != Err(Truncated)
    ensures TakeText(cur + t, n) == Extend(TakeText(cur, n), t)
  {
    TakeNStable(cur, n, t);
  }

  lemma TakeU16StrStable(cur: Bytes, t: Bytes)
    requires TakeU16Str(cur) != Err(Truncated)
    ensures TakeU16Str(cur + t) == Extend(TakeU16Str(cur), t)
  {
    TakeNStable(cur, 2, t);
    var len := TakeU16(cur).value;
    TakeTextStable(len.rest, len.value, t);
  }

  lemma TakeU8StrStable(cur: Bytes, t: Bytes)
    requires TakeU8Str(cur) != Err(Truncated)
    ensures TakeU8Str(cur + t) == Extend(TakeU8Str(cur), t)
  {
    TakeNStable(cur, 1, t);
    var len := TakeU8(cur).value;
    TakeTextStable(len.rest, len.value, t);
  }

  lemma TakeIceStable(cur: Bytes, t: Bytes)
    requires TakeIce(cur) != Err(Truncated)
    ensures TakeIce(cur + t) == Extend(TakeIce(cur), t)
  {
    TakeU16StrStable(cur, t);
    if TakeU16Str(cur).Ok? {
      var r1 := TakeU16Str(cur).value.rest;
      TakeU8StrStable(r1, t);
      if TakeU8Str(r1).Ok? {
        TakeNStable(TakeU8Str(r1).value.rest, 2, t);
      }
    }
  }

  /** Unless it ran out of bytes, the parser's verdict does not depend on what follows. */
  lemma ParseStable(b: Bytes, t: Bytes)
    requires Parse(b) != Err(Truncated)
    ensures Parse(b + t) == Extend(Parse(b), t)
  {
    TakeNStable(b, 1, t);
    var kind := TakeU8(b).value;
    if kind.value == SIGNAL_TYPE_OFFER || kind.value == SIGNAL_TYPE_ANSWER {
      TakeU16StrStable(kind.rest, t);
    } else if kind.value == SIGNAL_TYPE_ICE {
      TakeIceStable(kind.rest, t);
    }
  }

  lemma DecodeStable(b: Bytes, t: Bytes)
    requires Decode(b) != Err(Truncated)
    ensures Decode(b + t) == Decode(b)
  {
    ParseStable(b, t);
  }

  /** Type byte, two full-length texts with their prefixes, and the m-line number. */
  const LONGEST_FRAME: nat := 1 + (2 + 0xFFFF) + (1 + 0xFF) + 2

  lemma LongInputIsNeverTruncated(b: Bytes)
    requires |b| >= LONGEST_FRAME
    ensures Decode(b) != Err(Truncated)
  {
    var body := b[1..];
    LongEnoughForU16Str(body);
    if b[0] == SIGNAL_TYPE_ICE && TakeU16Str(body).Ok? {
      LongEnoughForU8Str(TakeU16Str(body).value.rest);
    }
  }

  lemma LongEnoughForU16Str(cur: Bytes)
    requires |cur| >= 2 + 0xFFFF
    ensures TakeU16Str(cur) != Err(Truncated)
    ensures TakeU16Str(cur).Ok? ==> |TakeU16Str(cur).value.rest| >= |cur| - 2 - 0xFFFF
  {
    var len := TakeU16(cur).value;
    assert |len.rest| == |cur| - 2;
  }

  lemma LongEnoughForU8Str(cur: Bytes)
    requires |cur| >= 1 + 0xFF
    ensures TakeU8Str(cur) != Err(Truncated)
    ensures TakeU8Str(cur).Ok? ==> |TakeU8Str(cur).value.rest| >= |cur| - 1 - 0xFF
  {
    var len := TakeU8(cur).value;
    assert |len.rest| == |cur| - 1;
  }

  /** "Truncated" is reported exactly when more bytes could change the verdict. */
  lemma TruncatedIffExtendable(b: Bytes)
    ensures Decode(b) == Err(Truncated) <==> exists t: Bytes :: Decode(b + t) != Decode(b)
  {
    if Decode(b) == Err(Truncated) {
      var t: Bytes := seq(LONGEST_FRAME, _ => 0);
      LongInputIsNeverTruncated(b + t);
    } else {
      forall t: Bytes ensures Decode(b + t) == Decode(b) {
        DecodeStable(b, t);
      }
    }
  }

  /** Every proper prefix of a canonical encoding, the empty one included, is rejected as truncated. */
  lemma ProperPrefixIsTruncated(m: SignalMessage, p: Bytes)
    requires Canonical(m) && p < Encode(m)
    ensures Decode(p) == Err(Truncated)
  {
    if Decode(p) != Err(Truncated) {
      var t := Encode(m)[|p|..];
      assert p + t == Encode(m);
      DecodeStable(p, t);
      RoundTripIffCanonical(m);
      AcceptedLanguage(p, m);
    }
  }

  lemma PrefixFree(m: SignalMessage, n: SignalMessage)
    requires Canonical(m) && Canonical(n) && Encode(m) <= Encode(n)
    ensures m == n
  {
    AcceptedLanguage(Encode(n), m);
    AcceptedLanguage(Encode(n), n);
  }

  lemma FirstOfStream(m: SignalMessage, t: Bytes, n: SignalMessage, t': Bytes)
    requires Canonical(m) && Canonical(n)
    ensures Encode(m) + t <= Encode(n) + t' <==> m == n && t <= t'
    ensures |Encode(m)| > 0
  {
    var b, b' := Encode(m) + t, Encode(n) + t';
    if b <= b' {
      assert Encode(m) <= b <= b';
      AcceptedLanguage(b', m);
      AcceptedLanguage(b', n);
    }
    hide Encode, Decode, Canonical;
    if m == n {
      assert t == b[|Encode(m)|..] && t' == b'[|Encode(m)|..];
      if b <= b' {
        assert b == b'[..|b|];
        assert t == t'[..|t|];
      }
    }
  }

  /** A concatenation of encodings has one parse: a stream extends another only message by message. */
  lemma {:induction false} StreamPrefix(ms: seq<SignalMessage>, ns: seq<SignalMessage>)
    requires forall m | m in ms :: Canonical(m)
    requires forall n | n in ns :: Canonical(n)
    ensures EncodeAll(ms) <= EncodeAll(ns) <==> ms <= ns
  {
    hide Encode, Canonical;
    if ms == [] {
    } else {
      if ns == [] {
        FirstOfStream(ms[0], [], ms[0], []);
      } else {
        FirstOfStream(ms[0], EncodeAll(ms[1..]), ns[0], EncodeAll(ns[1..]));
        StreamPrefix(ms[1..], ns[1..]);
        assert ms == [ms[0]] + ms[1..] && ns == [ns[0]] + ns[1..];
      }
    }
  }

  lemma StreamUnique(ms: seq<SignalMessage>, ns: seq<SignalMessage>)
    requires forall m | m in ms :: Canonical(m)
    requires forall n | n in ns :: Canonical(n)
    requires EncodeAll(ms) == EncodeAll(ns)
    ensures ms == ns
  {
    StreamPrefix(ms, ns);
    StreamPrefix(ns, ms);
  }

  // ----- The two other errors -----

  lemma UnknownTypeExact(b: Bytes, kind: Byte)
    ensures Decode(b) == Err(UnknownType(kind)) <==> b != [] && b[0] == kind && (kind < 1 || kind > 4)
  {
    if b != [] {
      assert b == [b[0]] + b[1..];
      ParseSplit(b[0], b[1..]);
      if 1 <= b[0] <= 4 {
        NoUnknownTypeInside(b[0], b[1..]);
      }
    }
  }

  lemma NoUnknownTypeInside(kind: Byte, cur: Bytes)
    requires 1 <= kind <= 4
    ensures ParseBody(kind, cur).Err? ==> !ParseBody(kind, cur).error.UnknownType?
  {
  }

  /** The text of `n` bytes behind a prefix of `width` bytes is there in full and is no string's encoding. */
  ghost predicate BadText(cur: Bytes, width: nat, n: nat) {
    && |cur| >= width + n
    && forall s: Str :: Utf8.Encode(s) != cur[width..width + n]
  }

  ghost predicate BadU16Text(cur: Bytes) {
    |cur| >= 2 && BadText(cur, 2, FromBigEndian(cur[..2]))
  }

  ghost predicate BadU8Text(cur: Bytes) {
    |cur| >= 1 && BadText(cur, 1, cur[0])
  }

  lemma TakeTextBad(cur: Bytes, width: nat, n: nat)
    requires width <= |cur|
    ensures TakeText(cur[width..], n) == Err(InvalidUtf8) <==> BadText(cur, width, n)
  {
    if |cur| >= width + n {
      var text := cur[width..width + n];
      assert cur[width..][..n] == text;
      forall s: Str ensures Utf8.Validate(text) == Some(s) <==> text == Utf8.Encode(s) {
        Utf8.ValidateExact(text, s);
      }
    }
  }

  lemma TakeU16StrBad(cur: Bytes)
    ensures TakeU16Str(cur) == Err(InvalidUtf8) <==> BadU16Text(cur)
  {
    if |cur| >= 2 {
      TakeTextBad(cur, 2, FromBigEndian(cur[..2]));
    }
  }

  lemma TakeU8StrBad(cur: Bytes)
    ensures TakeU8Str(cur) == Err(InvalidUtf8) <==> BadU8Text(cur)
  {
    if |cur| >= 1 {
      TakeTextBad(cur, 1, cur[0]);
    }
  }

  /** A candidate with a good candidate text, and what follows that text. */
  ghost predicate GoodU16Text(cur: Bytes, rest: Bytes) {
    exists s: Str :: Size(s) <= 0xFFFF && cur == U16Field(s) + rest
  }

  lemma TakeIceBad(cur: Bytes)
    ensures TakeIce(cur) == Err(InvalidUtf8) <==>
            BadU16Text(cur) || exists rest: Bytes :: GoodU16Text(cur, rest) && BadU8Text(rest)
  {
    hide BadU16Text, BadU8Text, TakeU16Str, TakeU8Str, U16Field;
    TakeU16StrBad(cur);
    forall s: Str, rest: Bytes
      ensures TakeU16Str(cur) == Ok(Read(s, rest)) <==> Size(s) <= 0xFFFF && cur == U16Field(s) + rest
    {
      TakeU16StrExact(cur, s, rest);
    }
    if TakeU16Str(cur).Ok? {
      var read := TakeU16Str(cur).value;
      TakeU8StrBad(read.rest);
      assert TakeU16Str(cur) == Ok(Read(read.value, read.rest));
      assert GoodU16Text(cur, read.rest);
    }
  }

  /**
   The UTF-8 error is reported exactly when a text that is there in full is not UTF-8: the first text of any message,
   or the mid behind a good candidate text.
   */
  lemma InvalidUtf8Exact(b: Bytes)
    ensures Decode(b) == Err(InvalidUtf8) <==>
            && b != []
            && 1 <= b[0] <= 3
            && (|| BadU16Text(b[1..])
                || (b[0] == SIGNAL_TYPE_ICE && exists rest: Bytes :: GoodU16Text(b[1..], rest) && BadU8Text(rest)))
  {
    if b != [] {
      assert b == [b[0]] + b[1..];
      ParseSplit(b[0], b[1..]);
      TakeU16StrBad(b[1..]);
      TakeIceBad(b[1..]);
    }
  }

  // ----- When a length wraps -----

  lemma TakeCutText(s: Str, k: nat, rest: Bytes)
    requires k <= Size(s)
    ensures TakeText(Utf8.Encode(s) + rest, k) ==
            match Utf8.Cut(s, k)
            case None => Err(InvalidUtf8)
            case Some(p) => Ok(Read(p, Utf8.Encode(s)[k..] + rest))
  {
    Splice(Utf8.Encode(s), k, rest);
  }

  lemma Splice(text: Bytes, k: nat, rest: Bytes)
    requires k <= |text|
    ensures (text + rest)[..k] == text[..k]
    ensures (text + rest)[k..] == text[k..] + rest
  {
  }

  /**
   An offer or answer of any size decodes to the leading characters that its wrapped length covers, or to the UTF-8
   error when the wrapped length ends inside a character.
   */
  lemma WrappedDescription(sdp: Str)
    ensures Decode(Encode(Offer(sdp))) ==
            match Utf8.Cut(sdp, Size(sdp) % 0x1_0000)
            case None => Err(InvalidUtf8)
            case Some(p) => Ok(Offer(p))
    ensures Decode(Encode(Answer(sdp))) ==
            match Utf8.Cut(sdp, Size(sdp) % 0x1_0000)
            case None => Err(InvalidUtf8)
            case Some(p) => Ok(Answer(p))
  {
    ParseSplit(SIGNAL_TYPE_OFFER, U16Field(sdp));
    ParseSplit(SIGNAL_TYPE_ANSWER, U16Field(sdp));
    TakeU16StrPrinted(sdp, []);
    TakeCutText(sdp, AsU16(Size(sdp)), []);
    assert U16Field(sdp) + [] == U16Field(sdp);
  }

  /**
   A candidate whose mid is too long for its prefix is read with a shortened mid, and the next two bytes of the mid's
   own text are taken for the m-line number.
   */
  lemma WrappedMid(candidate: Str, mid: Str, mline: Option<U16>)
    requires Size(candidate) <= 0xFFFF && Size(mid) > 0xFF
    ensures Decode(Encode(IceCandidate(candidate, Some(mid), mline))) ==
            match Utf8.Cut(mid, Size(mid) % 0x100)
            case None => Err(InvalidUtf8)
            case Some(p) => Ok(IceCandidate(candidate, PresentText(p), PresentIndex(NumberAt(mid, Size(mid) % 0x100))))
  {
    CandidateGrouping(candidate, Some(mid), mline);
    var last := ToBigEndian(MlineNumber(mline));
    DecodeFromMid(candidate, mid, last);
    ReadWrappedMid(candidate, mid, last);
  }

  lemma CandidateGrouping(candidate: Str, mid: Option<Str>, mline: Option<U16>)
    ensures Encode(IceCandidate(candidate, mid, mline)) ==
            [SIGNAL_TYPE_ICE] + (U16Field(candidate) + (U8Field(MidText(mid)) + ToBigEndian(MlineNumber(mline))))
  {
    Regroup([SIGNAL_TYPE_ICE], U16Field(candidate), U8Field(MidText(mid)), ToBigEndian(MlineNumber(mline)), []);
    assert ToBigEndian(MlineNumber(mline)) + [] == ToBigEndian(MlineNumber(mline));
  }

  /** What the decoder makes of a candidate once its candidate text and the length of its mid are read. */
  function AfterMidLength(candidate: Str, cur: Bytes, n: nat): Result<SignalMessage, CodecError> {
    var mid :- TakeText(cur, n);
    var mline :- TakeU16(mid.rest);
    Ok(IceCandidate(candidate, PresentText(mid.value), PresentIndex(mline.value)))
  }

  /** What the decoder makes of a candidate once its candidate text is read. */
  function AfterCandidateText(candidate: Str, cur: Bytes): Result<SignalMessage, CodecError> {
    var len :- TakeU8(cur);
    AfterMidLength(candidate, len.rest, len.value)
  }

  lemma DecodeFromCandidate(candidate: Str, rest: Bytes)
    ensures Decode([SIGNAL_TYPE_ICE] + (U16Field(candidate) + rest)) ==
            match TakeText(Utf8.Encode(candidate) + rest, AsU16(Size(candidate)))
            case Err(e) => Err(e)
            case Ok(read) => AfterCandidateText(read.value, read.rest)
  {
    hide Utf8.Encode, Utf8.Validate;
    ParseSplit(SIGNAL_TYPE_ICE, U16Field(candidate) + rest);
    TakeU16StrPrinted(candidate, rest);
  }

  lemma ReadCandidate(candidate: Str, mid: Option<Str>, mline: Option<U16>)
    ensures
      var cut := Size(candidate) % 0x1_0000;
      var fields := U8Field(MidText(mid)) + ToBigEndian(MlineNumber(mline));
      Decode(Encode(IceCandidate(candidate, mid, mline))) ==
      match Utf8.Cut(candidate, cut)
      case None => Err(InvalidUtf8)
      case Some(p) => AfterCandidateText(p, Utf8.Encode(candidate)[cut..] + fields)
  {
    hide Encode, Decode, Utf8.Encode, AfterCandidateText, U8Field;
    var fields := U8Field(MidText(mid)) + ToBigEndian(MlineNumber(mline));
    CandidateGrouping(candidate, mid, mline);
    DecodeFromCandidate(candidate, fields);
    TakeCutText(candidate, AsU16(Size(candidate)), fields);
  }

  /**
   A candidate text of any size is read as the leading characters its wrapped length covers, and what is left of it is
   taken for the fields that follow. If the length did wrap, what is left always suffices: the mid and the m-line index
   of the message make no difference.
   */
  lemma WrappedCandidate(candidate: Str, mid: Option<Str>, mline: Option<U16>)
    ensures
      var cut := Size(candidate) % 0x1_0000;
      var fields := U8Field(MidText(mid)) + ToBigEndian(MlineNumber(mline));
      var behind := if Size(candidate) > 0xFFFF then [] else fields;
      Decode(Encode(IceCandidate(candidate, mid, mline))) ==
      match Utf8.Cut(candidate, cut)
      case None => Err(InvalidUtf8)
      case Some(p) => AfterCandidateText(p, Utf8.Encode(candidate)[cut..] + behind)
    ensures Size(candidate) > 0xFFFF ==> Decode(Encode(IceCandidate(candidate, mid, mline))) != Err(Truncated)
  {
    hide Encode, Decode, Utf8.Encode, AfterCandidateText, U8Field;
    var cut := Size(candidate) % 0x1_0000;
    ReadCandidate(candidate, mid, mline);
    if Size(candidate) > 0xFFFF && Utf8.Cut(candidate, cut).Some? {
      var left := Utf8.Encode(candidate)[cut..];
      EnoughForTheRest(Utf8.Cut(candidate, cut).value, left, U8Field(MidText(mid)) + ToBigEndian(MlineNumber(mline)));
      assert left + [] == left;
    }
  }

  /** 258 bytes of left-over text are enough for a mid and an m-line index, so nothing behind them is read. */
  lemma EnoughForTheRest(p: Str, cur: Bytes, t: Bytes)
    requires |cur| >= 1 + 0xFF + 2
    ensures AfterCandidateText(p, cur) != Err(Truncated)
    ensures AfterCandidateText(p, cur + t) == AfterCandidateText(p, cur)
  {
    LongEnoughForU8Str(cur);
    TakeU8StrStable(cur, t);
    TakeMidThenIndex(p, cur);
    TakeMidThenIndex(p, cur + t);
    if TakeU8Str(cur).Ok? {
      TakeNStable(TakeU8Str(cur).value.rest, 2, t);
    }
  }

  lemma TakeMidThenIndex(p: Str, cur: Bytes)
    ensures AfterCandidateText(p, cur) ==
            match TakeU8Str(cur)
            case Err(e) => Err(e)
            case Ok(mid) =>
              match TakeU16(mid.rest)
              case Err(e) => Err(e)
              case Ok(mline) => Ok(IceCandidate(p, PresentText(mid.value), PresentIndex(mline.value)))
  {
    hide Utf8.Encode, Utf8.Validate;
  }

  lemma DecodeFromMid(candidate: Str, mid: Str, rest: Bytes)
    requires Size(candidate) <= 0xFFFF
    ensures Decode([SIGNAL_TYPE_ICE] + (U16Field(candidate) + (U8Field(mid) + rest))) ==
            AfterMidLength(candidate, Utf8.Encode(mid) + rest, AsU8(Size(mid)))
  {
    var r1 := U8Field(mid) + rest;
    ParseSplit(SIGNAL_TYPE_ICE, U16Field(candidate) + r1);
    PrintedU16Str(candidate, r1);
    TakeU8StrPrinted(mid, rest);
  }

  lemma ReadWrappedMid(candidate: Str, mid: Str, rest: Bytes)
    requires Size(mid) > 0xFF
    ensures AfterMidLength(candidate, Utf8.Encode(mid) + rest, AsU8(Size(mid))) ==
            match Utf8.Cut(mid, Size(mid) % 0x100)
            case None => Err(InvalidUtf8)
            case Some(p) => Ok(IceCandidate(candidate, PresentText(p), PresentIndex(NumberAt(mid, Size(mid) % 0x100))))
  {
    TakeCutText(mid, AsU8(Size(mid)), rest);
    TwoBytesOf(Utf8.Encode(mid), AsU8(Size(mid)), rest);
  }

  /** The two bytes of a text at offset `k`, as a number. */
  function NumberAt(s: Str, k: nat): U16
    requires k + 2 <= Size(s)
  {
    FromBigEndian(Utf8.Encode(s)[k..k + 2])
  }

  lemma TwoBytesOf(text: Bytes, cut: nat, rest: Bytes)
    requires cut + 2 <= |text|
    ensures TakeU16(text[cut..] + rest).Ok?
    ensures TakeU16(text[cut..] + rest).value.value == FromBigEndian(text[cut..cut + 2])
  {
    assert (text[cut..] + rest)[..2] == text[cut..cut + 2];
  }

  // ----- The layout, byte by byte -----

  lemma TypeByte(m: SignalMessage)
    ensures Encode(m) != []
    ensures Encode(m)[0] == if m.Offer? then 1 else if m.Answer? then 2 else if m.IceCandidate? then 3 else 4
    ensures Encode(m) == [4] <==> m == Bye
  {
  }

  /** Where each field of an offer or answer sits. */
  lemma DescriptionLayout(m: SignalMessage)
    requires m.Offer? || m.Answer?
    ensures
      var e := Encode(m);
      && |e| == 3 + Size(m.sdp)
      && e[0] == (if m.Offer? then 1 else 2)
      && e[1] == Size(m.sdp) % 0x1_0000 / 0x100 && e[2] == Size(m.sdp) % 0x1_0000 % 0x100
      && e[3..] == Utf8.Encode(m.sdp)
  {
    var text := Utf8.Encode(m.sdp);
    var n := AsU16(|text|);
    assert Encode(m) == [if m.Offer? then 1 else 2, n / 0x100, n % 0x100] + text;
  }

  /** Where each field of a candidate sits, with 65535 and the empty text standing for absent fields. */
  lemma CandidateLayout(candidate: Str, mid: Option<Str>, mline: Option<U16>, e: Bytes)
    requires e == Encode(IceCandidate(candidate, mid, mline))
    ensures
      var c, d := Size(candidate), Size(MidText(mid));
      && |e| == 6 + c + d
      && e[0] == 3
      && e[1] == c % 0x1_0000 / 0x100 && e[2] == c % 0x1_0000 % 0x100
      && e[3..3 + c] == Utf8.Encode(candidate)
      && e[3 + c] == d % 0x100
      && e[4 + c..4 + c + d] == Utf8.Encode(if mid.None? then [] else mid.value)
      && e[4 + c + d] == (if mline.None? then 0xFF else mline.value / 0x100)
      && e[5 + c + d] == (if mline.None? then 0xFF else mline.value % 0x100)
  {
    hide Encode, Utf8.Encode;
    var x, y := Utf8.Encode(candidate), Utf8.Encode(MidText(mid));
    var n, l := AsU16(|x|), MlineNumber(mline);
    CandidateParts(candidate, mid, mline);
    Slices([3, n / 0x100, n % 0x100], x, [AsU8(|y|)], y, [l / 0x100, l % 0x100]);
  }

  lemma CandidateParts(candidate: Str, mid: Option<Str>, mline: Option<U16>)
    ensures
      var x, y := Utf8.Encode(candidate), Utf8.Encode(MidText(mid));
      var n, l := AsU16(|x|), MlineNumber(mline);
      Encode(IceCandidate(candidate, mid, mline)) ==
      [3, n / 0x100, n % 0x100] + x + [AsU8(|y|)] + y + [l / 0x100, l % 0x100]
  {
    var x, y := Utf8.Encode(candidate), Utf8.Encode(MidText(mid));
    var n := AsU16(|x|);
    assert [SIGNAL_TYPE_ICE] + U16Field(candidate) == [3, n / 0x100, n % 0x100] + x;
    assert [SIGNAL_TYPE_ICE] + U16Field(candidate) + U8Field(MidText(mid)) ==
           [3, n / 0x100, n % 0x100] + x + [AsU8(|y|)] + y;
  }

  lemma Slices(a: Bytes, b: Bytes, c: Bytes, d: Bytes, e: Bytes)
    requires |c| == 1
    ensures
      var all := a + b + c + d + e;
      && all[..|a|] == a
      && all[|a|..|a| + |b|] == b
      && all[|a| + |b|] == c[0]
      && all[|a| + |b| + 1..|a| + |b| + 1 + |d|] == d
      && all[|a| + |b| + 1 + |d|..] == e
  {
  }

  // ----- Which messages print alike -----

  function MidSize(m: SignalMessage): nat {
    if m.IceCandidate? then Size(MidText(m.sdpMid)) else 0
  }

  lemma SameText(s: Str, t: Str)
    requires Utf8.Encode(s) == Utf8.Encode(t)
    ensures s == t
  {
    Utf8.ValidateEncode(s);
    Utf8.ValidateEncode(t);
  }

  lemma SameDescription(m: SignalMessage, n: SignalMessage)
    requires (m.Offer? && n.Offer?) || (m.Answer? && n.Answer?)
    requires Encode(m) == Encode(n)
    ensures m == n
  {
    DescriptionLayout(m);
    DescriptionLayout(n);
    SameText(m.sdp, n.sdp);
  }

  /** The sizes of the two texts are told from the length of the print and the wrapped size of the first. */
  lemma SameSizes(c: nat, d: nat, c': nat, d': nat)
    requires c + d == c' + d' && c % 0x1_0000 == c' % 0x1_0000
    requires -0x1_0000 < d - d' < 0x1_0000
    ensures c == c' && d == d'
  {
  }

  lemma SameCandidateSizes(m: SignalMessage, n: SignalMessage, e: Bytes)
    requires m.IceCandidate? && n.IceCandidate?
    requires e == Encode(m) == Encode(n)
    requires -0x1_0000 < MidSize(m) - MidSize(n) < 0x1_0000
    ensures Size(m.candidate) == Size(n.candidate) && MidSize(m) == MidSize(n)
    ensures MlineNumber(m.sdpMlineIndex) == MlineNumber(n.sdpMlineIndex)
  {
    hide Encode, Utf8.Encode;
    CandidateLayout(m.candidate, m.sdpMid, m.sdpMlineIndex, e);
    CandidateLayout(n.candidate, n.sdpMid, n.sdpMlineIndex, e);
    SameWord(Size(m.candidate) % 0x1_0000, Size(n.candidate) % 0x1_0000);
    SameSizes(Size(m.candidate), MidSize(m), Size(n.candidate), MidSize(n));
    SameIndex(m.sdpMlineIndex, n.sdpMlineIndex);
  }

  lemma SameCandidate(m: SignalMessage, n: SignalMessage, e: Bytes)
    requires m.IceCandidate? && n.IceCandidate?
    requires e == Encode(m) == Encode(n)
    requires -0x1_0000 < MidSize(m) - MidSize(n) < 0x1_0000
    ensures NormalForm(m) == NormalForm(n)
  {
    SameCandidateSizes(m, n, e);
    hide Encode, Utf8.Encode;
    CandidateLayout(m.candidate, m.sdpMid, m.sdpMlineIndex, e);
    CandidateLayout(n.candidate, n.sdpMid, n.sdpMlineIndex, e);
    SameText(m.candidate, n.candidate);
    SameText(MidText(m.sdpMid), MidText(n.sdpMid));
  }

  lemma SameWord(a: nat, b: nat)
    requires a / 0x100 == b / 0x100 && a % 0x100 == b % 0x100
    ensures a == b
  {
  }

  lemma SameIndex(a: Option<U16>, b: Option<U16>)
    requires MlineNumber(a) / 0x100 == MlineNumber(b) / 0x100 && MlineNumber(a) % 0x100 == MlineNumber(b) % 0x100
    ensures MlineNumber(a) == MlineNumber(b)
  {
  }

  /**
   Messages whose mids differ by less than 65536 bytes, so in particular any two with shorter mids than that, print
   alike exactly when their normal forms agree; their other texts may be of any size.
   */
  lemma EncodeEqualIffSameNormalForm(m: SignalMessage, n: SignalMessage)
    requires -0x1_0000 < MidSize(m) - MidSize(n) < 0x1_0000
    ensures Encode(m) == Encode(n) <==> NormalForm(m) == NormalForm(n)
  {
    hide Encode;
    NormalFormLaws(m);
    NormalFormLaws(n);
    if Encode(m) == Encode(n) {
      TypeByte(m);
      TypeByte(n);
      if m.IceCandidate? {
        SameCandidate(m, n, Encode(m));
      } else if !m.Bye? {
        SameDescription(m, n);
      }
    }
  }

  /** For all messages: the normal forms agree exactly when the prints agree and the mids have the same size. */
  lemma SameNormalFormExactly(m: SignalMessage, n: SignalMessage)
    ensures NormalForm(m) == NormalForm(n) <==> Encode(m) == Encode(n) && MidSize(m) == MidSize(n)
  {
    hide Encode;
    if MidSize(m) == MidSize(n) {
      EncodeEqualIffSameNormalForm(m, n);
    }
  }

  function Letters(n: nat): Str {
    seq(n, _ => 'a' as int)
  }

  lemma {:induction false} LettersEncoded(n: nat)
    ensures Utf8.Encode(Letters(n)) == Letters(n)
  {
    if n == 0 {
    } else {
      LettersEncoded(n - 1);
      Utf8.EncodeCons('a' as int, Letters(n - 1));
      assert Letters(n) == ['a' as int] + Letters(n - 1);
    }
  }

  lemma LettersSplit(c: nat, d: nat)
    ensures Letters(c) + ['a' as int] + Letters(d) == Letters(c + 1 + d)
  {
  }

  lemma PrintOfLetters(c: nat, d: nat)
    requires c % 0x1_0000 == 0 && d % 0x100 == 'a' as int
    ensures Encode(IceCandidate(Letters(c), Some(Letters(d)), None)) == [3, 0, 0] + Letters(c + 1 + d) + [0xFF, 0xFF]
  {
    hide Encode, Utf8.Encode, Letters;
    CandidateParts(Letters(c), Some(Letters(d)), None);
    LettersEncoded(c);
    LettersEncoded(d);
    LettersSize(c);
    LettersSize(d);
    LettersSplit(c, d);
    Bracket([3, 0, 0], Letters(c), ['a' as int], Letters(d), [0xFF, 0xFF]);
  }

  lemma LettersSize(n: nat)
    ensures |Letters(n)| == n
  {
  }

  lemma Bracket(a: Bytes, b: Bytes, c: Bytes, d: Bytes, e: Bytes)
    ensures a + b + c + d + e == a + (b + c + d) + e
  {
  }

  /** With mids 65536 bytes apart, two different messages can print alike: here both print as a run of one letter. */
  lemma LongMidsCanCollide()
    ensures
      var m := IceCandidate(Letters(0), Some(Letters(0x1_0000 + 97)), None);
      var n := IceCandidate(Letters(0x1_0000), Some(Letters(97)), None);
      Encode(m) == Encode(n) && NormalForm(m) != NormalForm(n)
  {
    hide Encode, Letters;
    PrintOfLetters(0, 0x1_0000 + 97);
    PrintOfLetters(0x1_0000, 97);
    LettersSize(0);
    LettersSize(0x1_0000);
  }
}
