/**
 The hex codec for keys and grants. `FromHex` slices its text two bytes at a time, so a text with characters of more
 than one byte can make a slice fall inside a character; the program panics there, and so the model says.
 */
module Hex {
  import opened Common
  import Utf8

  type Str = Utf8.Str
  type Scalar = Utf8.Scalar

  datatype HexError = OddLength | InvalidCharacter | WrongSize | SlicePanic

  const PLUS: Scalar := '+' as int

  function Digit(n: int): Scalar
    requires 0 <= n < 16
  {
    if n < 10 then '0' as int + n else 'a' as int + (n - 10)
  }

  function ToHex(b: Bytes): Str {
    if b == [] then [] else [Digit(b[0] / 16), Digit(b[0] % 16)] + ToHex(b[1..])
  }

  function DigitValue(c: int): (v: Option<int>)
    ensures v.Some? ==> 0 <= v.value < 16
  {
    if '0' as int <= c <= '9' as int then Some(c - '0' as int)
    else if 'a' as int <= c <= 'f' as int then Some(c - 'a' as int + 10)
    else if 'A' as int <= c <= 'F' as int then Some(c - 'A' as int + 10)
    else None
  }

  /** `u8::from_str_radix` in base 16 on a two-byte text: a leading plus sign is accepted and skipped. */
  function FromStrRadix16(b0: Byte, b1: Byte): Option<Byte> {
    var lo := DigitValue(b1);
    if b0 == PLUS then
      if lo.Some? then Some(lo.value) else None
    else
      var hi := DigitValue(b0);
      if hi.Some? && lo.Some? then Some(hi.value * 16 + lo.value) else None
  }

  /** The pairs from some even offset of a text on; the first slice or digit that fails ends the walk. */
  function FromPairs(b: Bytes): (r: Result<Bytes, HexError>)
    requires |b| % 2 == 0
    ensures r.Err? ==> r.error == InvalidCharacter || r.error == SlicePanic
  {
    if b == [] then
      Ok([])
    else if !Utf8.IsBoundary(b, 0) || !Utf8.IsBoundary(b, 2) then
      Err(SlicePanic)
    else
      match FromStrRadix16(b[0], b[1])
      case None => Err(InvalidCharacter)
      case Some(v) =>
        var rest :- FromPairs(b[2..]);
        Ok([v] + rest)
  }

  function FromHex(s: Str): Result<Bytes, HexError> {
    var b := Utf8.Encode(s);
    if |b| % 2 != 0 then Err(OddLength) else FromPairs(b)
  }

  function Hex32(s: Str): Result<Bytes, HexError> {
    var v :- FromHex(s);
    if |v| == 32 then Ok(v) else Err(WrongSize)
  }

  // ----- What the codec accepts -----

  predicate IsDigit(c: Scalar) {
    || '0' as int <= c <= '9' as int
    || 'a' as int <= c <= 'f' as int
    || 'A' as int <= c <= 'F' as int
  }

  /** Pairs of hex digits, the first of each pair possibly a plus sign. */
  ghost predicate IsHexText(s: Str) {
    && |s| % 2 == 0
    && forall i | 0 <= i < |s| :: IsDigit(s[i]) || (s[i] == '+' as int && i % 2 == 0)
  }

  ghost predicate IsLowerHex(s: Str) {
    forall i | 0 <= i < |s| :: '0' as int <= s[i] <= '9' as int || 'a' as int <= s[i] <= 'f' as int
  }

  function LowerDigit(c: Scalar): Scalar {
    if c == '+' as int then '0' as int
    else if 'A' as int <= c <= 'F' as int then 'a' as int + (c - 'A' as int)
    else c
  }

  /** Lower case, with every plus sign read as a zero. */
  function Lower(s: Str): Str {
    seq(|s|, i requires 0 <= i < |s| => LowerDigit(s[i]))
  }

  predicate IsAscii(s: Str) {
    forall i | 0 <= i < |s| :: s[i] < 0x80
  }

  /** The first two bytes of `s` end inside a character. */
  predicate SplitsCharacter(s: Str) {
    || (s != [] && s[0] >= 0x800)
    || (|s| >= 2 && s[0] < 0x80 && s[1] >= 0x80)
  }

  ghost predicate PanicsAfter(s: Str, pairs: nat) {
    2 * pairs <= |s| && IsHexText(s[..2 * pairs]) && SplitsCharacter(s[2 * pairs..])
  }

  lemma FirstCharacter(s: Str)
    requires s != []
    ensures var b := Utf8.Encode(s);
            && b == Utf8.EncodeScalar(s[0]) + Utf8.Encode(s[1..])
            && (s[0] < 0x80 ==> b == [s[0]] + Utf8.Encode(s[1..]))
  {
  }

  lemma AsciiPair(s: Str)
    requires |s| >= 2 && s[0] < 0x80 && s[1] < 0x80
    ensures Utf8.Encode(s) == [s[0], s[1]] + Utf8.Encode(s[2..])
  {
    hide Utf8.Encode, Utf8.EncodeScalar;
    FirstCharacter(s);
    FirstCharacter(s[1..]);
    assert s[1..][1..] == s[2..];
  }

  lemma StartsAtBoundary(s: Str)
    ensures Utf8.IsBoundary(Utf8.Encode(s), 0)
  {
    if s != [] {
      assert Utf8.Encode(s)[0] == Utf8.EncodeScalar(s[0])[0];
    }
  }

  /** A pair of one-byte characters is read as one pair. */
  lemma PairStep(s: Str)
    requires |s| >= 2 && s[0] < 0x80 && s[1] < 0x80
    requires |Utf8.Encode(s)| % 2 == 0
    ensures |Utf8.Encode(s[2..])| % 2 == 0
    ensures FromPairs(Utf8.Encode(s)) ==
            match FromStrRadix16(s[0], s[1])
            case None => Err(InvalidCharacter)
            case Some(v) =>
              match FromPairs(Utf8.Encode(s[2..]))
              case Err(e) => Err(e)
              case Ok(rest) => Ok([v] + rest)
  {
    hide Utf8.Encode;
    AsciiPair(s);
    StartsAtBoundary(s[2..]);
    var b, t := Utf8.Encode(s), Utf8.Encode(s[2..]);
    assert b[2..] == t;
    assert t != [] ==> b[2] == t[0];
  }

  lemma WideScalar(c: Scalar)
    requires c >= 0x80
    ensures var e := Utf8.EncodeScalar(c);
            && |e| >= 2 && e[0] >= 0xC2 && Utf8.IsTail(e[1])
            && (c < 0x800 <==> |e| == 2)
            && (c >= 0x800 ==> Utf8.IsTail(e[2]))
  {
  }

  /** The bytes of a text whose first two characters are not both of one byte. */
  lemma WideBytes(s: Str)
    requires s != [] && (s[0] >= 0x80 || (|s| >= 2 && s[1] >= 0x80))
    ensures var b := Utf8.Encode(s);
            && |b| >= 2
            && Utf8.IsBoundary(b, 0)
            && (Utf8.IsBoundary(b, 2) <==> !SplitsCharacter(s))
            && (!SplitsCharacter(s) ==> b[0] >= 0xC2)
  {
    hide Utf8.Encode, Utf8.EncodeScalar;
    FirstCharacter(s);
    StartsAtBoundary(s);
    var b, t := Utf8.Encode(s), Utf8.Encode(s[1..]);
    if s[0] >= 0x80 {
      WideScalar(s[0]);
      StartsAtBoundary(s[1..]);
      assert s[0] < 0x800 && t != [] ==> b[2] == t[0];
    } else {
      WideScalar(s[1]);
      FirstCharacter(s[1..]);
      assert b[2] == t[1];
    }
  }

  /** A wider character in the first pair is never a digit: the walk panics or reports it, by where it ends. */
  lemma WideStep(s: Str)
    requires s != [] && (s[0] >= 0x80 || (|s| >= 2 && s[1] >= 0x80))
    requires |Utf8.Encode(s)| % 2 == 0
    ensures FromPairs(Utf8.Encode(s)) == Err(if SplitsCharacter(s) then SlicePanic else InvalidCharacter)
  {
    hide Utf8.Encode;
    WideBytes(s);
  }

  lemma PairMeaning(c0: Scalar, c1: Scalar)
    requires c0 < 0x80 && c1 < 0x80
    ensures var v := FromStrRadix16(c0, c1);
            && (v.Some? <==> (IsDigit(c0) || c0 == '+' as int) && IsDigit(c1))
            && (v.Some? ==> [Digit(v.value / 16), Digit(v.value % 16)] == [LowerDigit(c0), LowerDigit(c1)])
  {
  }

  lemma HexTextStep(s: Str)
    requires |s| >= 2
    ensures IsHexText(s) <==> (IsDigit(s[0]) || s[0] == '+' as int) && IsDigit(s[1]) && IsHexText(s[2..])
  {
    var t := s[2..];
    assert forall i | 0 <= i < |t| :: t[i] == s[i + 2];
    assert forall i | 2 <= i < |s| :: s[i] == t[i - 2];
  }

  lemma LowerStep(s: Str)
    requires |s| >= 2
    ensures Lower(s) == [LowerDigit(s[0]), LowerDigit(s[1])] + Lower(s[2..])
  {
  }

  lemma PanicsStep(s: Str, pairs: nat)
    requires |s| >= 2 && (IsDigit(s[0]) || s[0] == '+' as int) && IsDigit(s[1])
    ensures PanicsAfter(s[2..], pairs) <==> PanicsAfter(s, pairs + 1)
  {
    if 2 * pairs + 2 <= |s| {
      var p := s[..2 * pairs + 2];
      HexTextStep(p);
      assert p[2..] == s[2..][..2 * pairs];
      assert s[2..][2 * pairs..] == s[2 * (pairs + 1)..];
    }
  }

  /** On every text of even size: accepted exactly when it is hex text, and panics exactly at a split character. */
  lemma {:induction false} FromPairsMeaning(s: Str)
    requires |Utf8.Encode(s)| % 2 == 0
    ensures FromPairs(Utf8.Encode(s)).Ok? <==> IsHexText(s)
    ensures FromPairs(Utf8.Encode(s)).Ok? ==> ToHex(FromPairs(Utf8.Encode(s)).value) == Lower(s)
    ensures FromPairs(Utf8.Encode(s)) == Err(SlicePanic) <==> exists k: nat :: PanicsAfter(s, k)
  {
    hide FromPairs, Utf8.Encode;
    if s == [] {
      EmptyText();
    } else if s[0] >= 0x80 || (|s| >= 2 && s[1] >= 0x80) {
      WideStep(s);
      NoPanicPastFirst(s);
    } else if |s| == 1 {
      SingleByte(s);
      assert false;
    } else {
      PairStep(s);
      PairMeaning(s[0], s[1]);
      HexTextStep(s);
      LowerStep(s);
      FromPairsMeaning(s[2..]);
      if FromStrRadix16(s[0], s[1]).Some? {
        PanicsLater(s);
      } else {
        NoPanicPastFirst(s);
      }
    }
  }

  lemma EmptyText()
    ensures FromPairs(Utf8.Encode([])) == Ok([])
  {
  }

  lemma SingleByte(s: Str)
    requires |s| == 1 && s[0] < 0x80
    ensures |Utf8.Encode(s)| == 1
  {
  }

  /** When the first pair is not a hex pair, only a split of that very pair can panic. */
  lemma NoPanicPastFirst(s: Str)
    requires s != []
    requires |s| >= 2 ==> !((IsDigit(s[0]) || s[0] == '+' as int) && IsDigit(s[1]))
    ensures (exists k: nat :: PanicsAfter(s, k)) <==> SplitsCharacter(s)
    ensures !IsHexText(s)
  {
    assert s[..0] == [] && s[0..] == s;
    if SplitsCharacter(s) {
      assert PanicsAfter(s, 0);
    }
    forall k: nat | PanicsAfter(s, k) ensures k == 0 {
      if k > 0 {
        HexTextStep(s[..2 * k]);
      }
    }
  }

  lemma PanicsLater(s: Str)
    requires |s| >= 2 && (IsDigit(s[0]) || s[0] == '+' as int) && IsDigit(s[1])
    ensures (exists k: nat :: PanicsAfter(s, k)) <==> (exists k: nat :: PanicsAfter(s[2..], k))
  {
    forall k: nat ensures PanicsAfter(s[2..], k) <==> PanicsAfter(s, k + 1) {
      PanicsStep(s, k);
    }
    assert s[0..] == s;
    forall k: nat | PanicsAfter(s, k) ensures k > 0 && PanicsAfter(s[2..], k - 1) {
      assert k > 0;
    }
  }

  // ----- Main results -----

  /** Decoding succeeds exactly on hex text, and then spells the text back in lower case. */
  lemma FromHexExact(s: Str)
    ensures FromHex(s).Ok? <==> IsHexText(s)
    ensures FromHex(s).Ok? ==> ToHex(FromHex(s).value) == Lower(s)
  {
    if |Utf8.Encode(s)| % 2 == 0 {
      FromPairsMeaning(s);
    } else if IsHexText(s) {
      AsciiSize(s);
    }
  }

  lemma {:induction false} AsciiSize(s: Str)
    requires IsAscii(s)
    ensures |Utf8.Encode(s)| == |s|
  {
    if s == [] {
    } else {
      AsciiSize(s[1..]);
    }
  }

  lemma {:induction false} ToHexIsLowerHex(b: Bytes)
    ensures |ToHex(b)| == 2 * |b| && IsLowerHex(ToHex(b)) && IsHexText(ToHex(b))
  {
    if b == [] {
    } else {
      ToHexIsLowerHex(b[1..]);
      HexTextStep(ToHex(b));
      assert ToHex(b)[2..] == ToHex(b[1..]);
    }
  }

  lemma DigitTable(n: int)
    requires 0 <= n < 16
    ensures Digit(n) == "0123456789abcdef"[n] as int
  {
  }

  /** The character stands for the digit, in lower or in upper case. */
  predicate Denotes(c: Scalar, n: int) {
    0 <= n < 16 && (c == "0123456789abcdef"[n] as int || c == "0123456789ABCDEF"[n] as int)
  }

  lemma DigitValueTable(c: Scalar, n: int)
    ensures DigitValue(c) == Some(n) <==> Denotes(c, n)
  {
  }

  /** Each byte is written as its high digit and then its low digit. */
  lemma {:induction false} ToHexDigits(b: Bytes, i: nat)
    requires i < |b|
    ensures 2 * i + 1 < |ToHex(b)|
    ensures ToHex(b)[2 * i] == "0123456789abcdef"[b[i] / 16] as int
    ensures ToHex(b)[2 * i + 1] == "0123456789abcdef"[b[i] % 16] as int
  {
    hide Digit;
    if i == 0 {
      DigitTable(b[0] / 16);
      DigitTable(b[0] % 16);
    } else {
      ToHexDigits(b[1..], i - 1);
      assert ToHex(b)[2..] == ToHex(b[1..]);
      assert ToHex(b)[2..][2 * (i - 1)] == ToHex(b)[2 * i];
      assert ToHex(b)[2..][2 * (i - 1) + 1] == ToHex(b)[2 * i + 1];
    }
  }

  lemma {:induction false} ToHexInjective(a: Bytes, b: Bytes)
    requires ToHex(a) == ToHex(b)
    ensures a == b
  {
    ToHexIsLowerHex(a);
    ToHexIsLowerHex(b);
    if a == [] {
    } else {
      var h := ToHex(a);
      assert h[0] == Digit(a[0] / 16) == Digit(b[0] / 16);
      assert h[1] == Digit(a[0] % 16) == Digit(b[0] % 16);
      assert h[2..] == ToHex(a[1..]) == ToHex(b[1..]);
      ToHexInjective(a[1..], b[1..]);
    }
  }

  lemma LowerHexIsLower(s: Str)
    requires IsLowerHex(s)
    ensures Lower(s) == s
  {
  }

  /** Every byte string survives the trip through hex. */
  lemma RoundTrip(b: Bytes)
    ensures FromHex(ToHex(b)) == Ok(b)
  {
    ToHexIsLowerHex(b);
    FromHexExact(ToHex(b));
    LowerHexIsLower(ToHex(b));
    ToHexInjective(FromHex(ToHex(b)).value, b);
  }

  /** `Hex32` maps the 64-character lower-case hex texts one to one onto the 32-byte strings. */
  lemma Hex32Bijection(s: Str, b: Bytes)
    requires |s| == 64 && IsLowerHex(s)
    requires |b| == 32
    ensures Hex32(s).Ok? && ToHex(Hex32(s).value) == s
    ensures |ToHex(b)| == 64 && IsLowerHex(ToHex(b)) && Hex32(ToHex(b)) == Ok(b)
    ensures Hex32(s) == Ok(b) <==> s == ToHex(b)
  {
    FromHexExact(s);
    LowerHexIsLower(s);
    ToHexIsLowerHex(FromHex(s).value);
    ToHexIsLowerHex(b);
    RoundTrip(b);
  }

  /** Two texts decode to the same bytes exactly when they agree up to case and plus signs. */
  lemma SameBytesIffSameLower(s: Str, t: Str)
    requires FromHex(s).Ok? && FromHex(t).Ok?
    ensures FromHex(s) == FromHex(t) <==> Lower(s) == Lower(t)
  {
    FromHexExact(s);
    FromHexExact(t);
    if Lower(s) == Lower(t) {
      ToHexInjective(FromHex(s).value, FromHex(t).value);
    }
  }

  /** A text names a key exactly when it is hex text of 64 characters; other hex text has the wrong size. */
  lemma Hex32Exact(s: Str)
    ensures Hex32(s).Ok? <==> IsHexText(s) && |s| == 64
    ensures Hex32(s) == Err(WrongSize) <==> IsHexText(s) && |s| != 64
    ensures Hex32(s).Ok? ==> |Hex32(s).value| == 32 && ToHex(Hex32(s).value) == Lower(s)
    ensures FromHex(s).Err? ==> Hex32(s) == FromHex(s)
  {
    FromHexExact(s);
    if FromHex(s).Ok? {
      ToHexIsLowerHex(FromHex(s).value);
    } else {
      assert FromHex(s).error != WrongSize;
    }
  }

  /** Two texts name the same key exactly when they agree up to case and plus signs. */
  lemma Hex32SameKey(s: Str, t: Str)
    requires Hex32(s).Ok? && Hex32(t).Ok?
    ensures Hex32(s) == Hex32(t) <==> Lower(s) == Lower(t)
  {
    SameBytesIffSameLower(s, t);
  }

  /** Malformed text is an error and not a panic exactly when no slice splits a character after good pairs. */
  lemma PanicsExactly(s: Str)
    ensures FromHex(s) == Err(SlicePanic) <==> |Utf8.Encode(s)| % 2 == 0 && exists k: nat :: PanicsAfter(s, k)
    ensures FromHex(s) == Err(OddLength) <==> |Utf8.Encode(s)| % 2 == 1
  {
    if |Utf8.Encode(s)| % 2 == 0 {
      FromPairsMeaning(s);
    }
  }

  lemma AsciiNeverPanics(s: Str)
    requires IsAscii(s)
    ensures FromHex(s) != Err(SlicePanic)
    ensures FromHex(s) == Err(OddLength) <==> |s| % 2 == 1
  {
    AsciiSize(s);
    PanicsExactly(s);
    forall k: nat ensures !PanicsAfter(s, k) {
      assert 2 * k <= |s| ==> IsAscii(s[2 * k..]);
    }
  }

  /** `a`, `e` with an acute accent, `1`: four bytes, and the first slice ends inside the accented letter. */
  lemma GarbledTextCanPanic()
    ensures FromHex(['a' as int, 0xE9, '1' as int]) == Err(SlicePanic)
  {
    var s: Str := ['a' as int, 0xE9, '1' as int];
    assert Utf8.Encode(s[2..]) == ['1' as int];
    assert Utf8.Encode(s[1..]) == [0xC3, 0xA9, '1' as int];
    assert Utf8.Encode(s) == ['a' as int, 0xC3, 0xA9, '1' as int];
  }

  // ----- What the digits mean -----

  /** A decoded byte is 16 times its first digit, zero for a plus sign, plus its second digit. */
  lemma {:induction false} FromHexDigits(s: Str, i: nat)
    requires FromHex(s).Ok? && i < |FromHex(s).value|
    ensures |s| == 2 * |FromHex(s).value|
    ensures var v := FromHex(s).value[i];
            && (Denotes(s[2 * i], v / 16) || (s[2 * i] == '+' as int && v / 16 == 0))
            && Denotes(s[2 * i + 1], v % 16)
  {
    hide Utf8.Encode, FromPairs, FromHex;
    FromHexExact(s);
    var v := FromHex(s).value;
    ToHexIsLowerHex(v);
    ToHexDigits(v, i);
    LowerDenotes(s[2 * i], v[i] / 16);
    LowerDenotes(s[2 * i + 1], v[i] % 16);
  }

  lemma LowerDenotes(c: Scalar, n: int)
    requires 0 <= n < 16 && LowerDigit(c) == "0123456789abcdef"[n] as int
    requires IsDigit(c) || c == '+' as int
    ensures Denotes(c, n) || (c == '+' as int && n == 0)
  {
  }

  lemma ToHexKeepsOrder(a: Bytes, b: Bytes)
    requires LexLess(a, b)
    ensures LexLess(ToHex(a), ToHex(b))
  {
    var k: nat :| FirstDifference(a, b, k) && (k < |a| ==> a[k] < b[k]);
    ToHexPrefix(a, k);
    ToHexPrefix(b, k);
    if k == |a| {
      LexIntro(ToHex(a), ToHex(b), 2 * k);
    } else {
      ToHexFirstDifference(a, b, k);
    }
  }

  lemma ToHexFirstDifference(a: Bytes, b: Bytes, k: nat)
    requires k < |a| && k < |b| && a[..k] == b[..k] && a[k] < b[k]
    ensures LexLess(ToHex(a), ToHex(b))
  {
    hide ToHex, LexLess, Digit;
    ToHexPrefix(a, k);
    ToHexPrefix(b, k);
    ToHexAt(a, k);
    ToHexAt(b, k);
    if a[k] / 16 < b[k] / 16 {
      DigitsGrow(a[k] / 16, b[k] / 16);
      LexIntro(ToHex(a), ToHex(b), 2 * k);
    } else {
      DigitsGrow(a[k] % 16, b[k] % 16);
      OneMore(ToHex(a), ToHex(b), 2 * k);
      LexIntro(ToHex(a), ToHex(b), 2 * k + 1);
    }
  }

  lemma ToHexAt(b: Bytes, i: nat)
    requires i < |b|
    ensures 2 * i + 1 < |ToHex(b)|
    ensures ToHex(b)[2 * i] == Digit(b[i] / 16) && ToHex(b)[2 * i + 1] == Digit(b[i] % 16)
  {
    hide ToHex, Digit;
    ToHexDigits(b, i);
    DigitTable(b[i] / 16);
    DigitTable(b[i] % 16);
  }

  lemma OneMore(x: Str, y: Str, n: nat)
    requires n < |x| && n < |y| && x[..n] == y[..n] && x[n] == y[n]
    ensures x[..n + 1] == y[..n + 1]
  {
    assert x[..n + 1] == x[..n] + [x[n]] && y[..n + 1] == y[..n] + [y[n]];
  }

  lemma {:induction false} ToHexPrefix(b: Bytes, k: nat)
    requires k <= |b|
    ensures |ToHex(b)| == 2 * |b| && ToHex(b)[..2 * k] == ToHex(b[..k])
  {
    ToHexIsLowerHex(b);
    if k == 0 {
    } else {
      ToHexPrefix(b[1..], k - 1);
      assert b[..k][1..] == b[1..][..k - 1];
      ToHexIsLowerHex(b[1..]);
    }
  }

  lemma DigitsGrow(m: int, n: int)
    requires 0 <= m < n < 16
    ensures Digit(m) < Digit(n)
  {
  }

  /** Hex keeps order: sorting hex texts is sorting the bytes they spell. */
  lemma ToHexOrder(a: Bytes, b: Bytes)
    ensures LexLess(a, b) <==> LexLess(ToHex(a), ToHex(b))
  {
    hide ToHex, LexLess;
    if LexLess(a, b) {
      ToHexKeepsOrder(a, b);
    }
    if LexLess(ToHex(a), ToHex(b)) {
      LexAsymmetric(ToHex(a), ToHex(b));
      LexTotal(a, b, 0);
      if LexLess(b, a) {
        ToHexKeepsOrder(b, a);
      }
    }
  }
}
