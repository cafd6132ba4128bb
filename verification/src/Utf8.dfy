/**
 UTF-8 as section 3 (encoding) and section 4 (grammar of valid byte sequences) of RFC 3629 define it.
 A Rust `String` is a sequence of Unicode scalar values; `s.len()` and `s.as_bytes()` speak of `Encode(s)`,
 `String::from_utf8` is `Validate`, and `is_char_boundary` is `IsBoundary`.
 */
module Utf8 {
  import opened Common

  type Scalar = c: int | 0 <= c < 0xD800 || 0xE000 <= c < 0x11_0000
  type Str = seq<Scalar>

  // ----- Section 3: scalar values to bytes -----

  function EncodeScalar(c: Scalar): (b: Bytes)
    ensures 1 <= |b| <= 4
  {
    if c < 0x80 then [c]
    else if c < 0x800 then [0xC0 + c / 64, 0x80 + c % 64]
    else if c < 0x1_0000 then [0xE0 + c / 4096, 0x80 + c / 64 % 64, 0x80 + c % 64]
    else [0xF0 + c / 262144, 0x80 + c / 4096 % 64, 0x80 + c / 64 % 64, 0x80 + c % 64]
  }

  function Encode(s: Str): Bytes {
    if s == [] then [] else EncodeScalar(s[0]) + Encode(s[1..])
  }

  // ----- Section 4: the grammar of valid byte sequences -----

  predicate IsTail(b: Byte) {
    0x80 <= b < 0xC0
  }

  predicate IsPair(b0: Byte, b1: Byte) {
    0xC2 <= b0 < 0xE0 && IsTail(b1)
  }

  predicate IsTriple(b0: Byte, b1: Byte, b2: Byte) {
    && IsTail(b2)
    && (|| (b0 == 0xE0 && 0xA0 <= b1 < 0xC0)
        || (0xE1 <= b0 < 0xED && IsTail(b1))
        || (b0 == 0xED && 0x80 <= b1 < 0xA0)
        || (0xEE <= b0 < 0xF0 && IsTail(b1)))
  }

  predicate IsQuad(b0: Byte, b1: Byte, b2: Byte, b3: Byte) {
    && IsTail(b2)
    && IsTail(b3)
    && (|| (b0 == 0xF0 && 0x90 <= b1 < 0xC0)
        || (0xF1 <= b0 < 0xF4 && IsTail(b1))
        || (b0 == 0xF4 && 0x80 <= b1 < 0x90))
  }

  /** Length of the one well-formed character `b` starts with, or 0 when it starts with none. */
  function Leading(b: Bytes): (n: nat)
    ensures n <= |b|
  {
    if |b| >= 1 && b[0] < 0x80 then 1
    else if |b| >= 2 && IsPair(b[0], b[1]) then 2
    else if |b| >= 3 && IsTriple(b[0], b[1], b[2]) then 3
    else if |b| >= 4 && IsQuad(b[0], b[1], b[2], b[3]) then 4
    else 0
  }

  function LeadingScalar(b: Bytes): Scalar
    requires Leading(b) > 0
  {
    match Leading(b)
    case 1 => b[0]
    case 2 => Payload(b[0], 0xC0) * 64 + Payload(b[1], 0x80)
    case 3 => Payload(b[0], 0xE0) * 4096 + Payload(b[1], 0x80) * 64 + Payload(b[2], 0x80)
    case _ =>
      Payload(b[0], 0xF0) * 262144 + Payload(b[1], 0x80) * 4096 + Payload(b[2], 0x80) * 64 + Payload(b[3], 0x80)
  }

  /** The payload bits of a byte once its marker bits are taken off. */
  function Payload(b: Byte, marker: int): int {
    b - marker
  }

  function Validate(b: Bytes): Option<Str> {
    if b == [] then Some([])
    else
      var n := Leading(b);
      if n == 0 then None
      else
        match Validate(b[n..])
        case None => None
        case Some(s) => Some([LeadingScalar(b)] + s)
  }

  /** Offset `k` does not fall inside a character. */
  predicate IsBoundary(b: Bytes, k: nat)
    requires k <= |b|
  {
    k == |b| || !IsTail(b[k])
  }

  // ----- The encoder and the grammar agree -----

  lemma EncodeScalarShape(c: Scalar, t: Bytes)
    ensures Leading(EncodeScalar(c) + t) == |EncodeScalar(c)|
    ensures LeadingScalar(EncodeScalar(c) + t) == c
  {
    var e := EncodeScalar(c);
    EncodeScalarLeads(c);
    assert e[0] == (e + t)[0];
    assert |e| > 1 ==> e[1] == (e + t)[1];
    assert |e| > 2 ==> e[2] == (e + t)[2];
    assert |e| > 3 ==> e[3] == (e + t)[3];
    LeadingIsLocal(e, e + t);
  }

  /** The grammar never looks past the character it recognises. */
  lemma LeadingIsLocal(e: Bytes, b: Bytes)
    requires Leading(e) == |e| > 0
    requires |e| <= |b| && b[..|e|] == e
    ensures Leading(b) == |e|
    ensures LeadingScalar(b) == LeadingScalar(e)
  {
    assert forall i | 0 <= i < |e| :: b[i] == b[..|e|][i];
  }

  lemma EncodeScalarLeads(c: Scalar)
    ensures Leading(EncodeScalar(c)) == |EncodeScalar(c)|
    ensures LeadingScalar(EncodeScalar(c)) == c
  {
    assert c / 4096 == c / 64 / 64 && c / 262144 == c / 64 / 64 / 64;
  }

  lemma LeadingEncodes(b: Bytes)
    requires Leading(b) > 0
    ensures EncodeScalar(LeadingScalar(b)) == b[..Leading(b)]
  {
    match Leading(b)
    case 1 =>
    case 2 => PairEncodes(b[0], b[1]);
    case 3 => TripleEncodes(b[0], b[1], b[2]);
    case _ => QuadEncodes(b[0], b[1], b[2], b[3]);
  }

  lemma PairEncodes(b0: Byte, b1: Byte)
    requires IsPair(b0, b1)
    ensures EncodeScalar(Payload(b0, 0xC0) * 64 + Payload(b1, 0x80)) == [b0, b1]
  {
  }

  lemma TripleEncodes(b0: Byte, b1: Byte, b2: Byte)
    requires IsTriple(b0, b1, b2)
    ensures EncodeScalar(Payload(b0, 0xE0) * 4096 + Payload(b1, 0x80) * 64 + Payload(b2, 0x80)) == [b0, b1, b2]
  {
    var c := Payload(b0, 0xE0) * 4096 + Payload(b1, 0x80) * 64 + Payload(b2, 0x80);
    if b0 == 0xE0 {
      assert 0x800 <= c < 0x1000;
    } else if b0 < 0xED {
      assert 0x1000 <= c < 0xD000;
    } else if b0 == 0xED {
      assert 0xD000 <= c < 0xD800;
    } else {
      assert 0xE000 <= c < 0x1_0000;
    }
    var high := Payload(b0, 0xE0) * 64 + Payload(b1, 0x80);
    assert c == high * 64 + Payload(b2, 0x80);
    assert c / 64 == high && c / 4096 == high / 64 == Payload(b0, 0xE0);
  }

  lemma QuadEncodes(b0: Byte, b1: Byte, b2: Byte, b3: Byte)
    requires IsQuad(b0, b1, b2, b3)
    ensures EncodeScalar(Payload(b0, 0xF0) * 262144 + Payload(b1, 0x80) * 4096 + Payload(b2, 0x80) * 64
                         + Payload(b3, 0x80)) == [b0, b1, b2, b3]
  {
    var c := Payload(b0, 0xF0) * 262144 + Payload(b1, 0x80) * 4096 + Payload(b2, 0x80) * 64 + Payload(b3, 0x80);
    var high := Payload(b0, 0xF0) * 64 + Payload(b1, 0x80);
    assert c / 64 == high * 64 + Payload(b2, 0x80) && c / 4096 == high;
    assert c / 262144 == high / 64 == Payload(b0, 0xF0);
  }

  /** Cutting a character short leaves no well-formed character, and every byte after its first is a tail byte. */
  lemma TruncatedScalar(c: Scalar, k: nat)
    requires k < |EncodeScalar(c)|
    ensures Leading(EncodeScalar(c)[..k]) == 0
    ensures IsTail(EncodeScalar(c)[k]) <==> k > 0
  {
  }

  /** Decoding inverts encoding on every string. */
  lemma {:induction false} ValidateEncode(s: Str)
    ensures Validate(Encode(s)) == Some(s)
  {
    if s == [] {
    } else {
      var e, t := EncodeScalar(s[0]), Encode(s[1..]);
      EncodeScalarShape(s[0], t);
      assert (e + t)[|e|..] == t;
      ValidateEncode(s[1..]);
      assert Encode(s) == e + t;
      assert [s[0]] + s[1..] == s;
    }
  }

  /** Only encodings are accepted, so `Validate` and `Encode` are inverse to each other. */
  lemma {:induction false} ValidateExact(b: Bytes, s: Str)
    ensures Validate(b) == Some(s) <==> b == Encode(s)
  {
    ValidateEncode(s);
    if Validate(b) == Some(s) {
      ValidOnlyIfEncoded(b);
    }
  }

  lemma EncodeCons(c: Scalar, s: Str)
    ensures Encode([c] + s) == EncodeScalar(c) + Encode(s)
  {
    assert ([c] + s)[1..] == s;
  }

  lemma ValidStep(b: Bytes) returns (c: Scalar, t: Bytes)
    requires b != [] && Validate(b).Some?
    ensures b == EncodeScalar(c) + t && |t| < |b|
    ensures Validate(t).Some? && Validate(b).value == [c] + Validate(t).value
  {
    c, t := LeadingScalar(b), b[Leading(b)..];
    LeadingEncodes(b);
    assert b == b[..Leading(b)] + t;
  }

  lemma {:induction false} ValidOnlyIfEncoded(b: Bytes)
    requires Validate(b).Some?
    ensures b == Encode(Validate(b).value)
    decreases |b|
  {
    hide EncodeScalar, Leading, LeadingScalar;
    if b == [] {
    } else {
      var c, t := ValidStep(b);
      ValidOnlyIfEncoded(t);
      EncodeCons(c, Validate(t).value);
    }
  }

  /** A prefix of valid UTF-8 is valid exactly when the cut is a character boundary. */
  lemma {:induction false} PrefixValidIffBoundary(s: Str, k: nat)
    requires k <= |Encode(s)|
    ensures Validate(Encode(s)[..k]).Some? <==> IsBoundary(Encode(s), k)
  {
    if s == [] {
    } else {
      var e, t := EncodeScalar(s[0]), Encode(s[1..]);
      var b := e + t;
      if k < |e| {
        TruncatedScalar(s[0], k);
        assert b[..k] == e[..k];
        assert b[k] == e[k];
      } else {
        var j := k - |e|;
        PrefixValidIffBoundary(s[1..], j);
        assert b[..k] == e + t[..j];
        EncodeScalarShape(s[0], t[..j]);
        assert b[..k][|e|..] == t[..j];
        assert k < |b| ==> b[k] == t[j];
      }
    }
  }

  /** The text that the first `k` bytes of a string spell: its leading characters, if the cut keeps them whole. */
  function Cut(s: Str, k: nat): (p: Option<Str>)
    requires k <= |Encode(s)|
    ensures p.Some? <==> IsBoundary(Encode(s), k)
    ensures p.Some? ==> p.value <= s && Encode(p.value) == Encode(s)[..k]
  {
    PrefixValidIffBoundary(s, k);
    if Validate(Encode(s)[..k]).Some? then
      ValidOnlyIfEncoded(Encode(s)[..k]);
      EncodedPrefix(Validate(Encode(s)[..k]).value, s);
      Validate(Encode(s)[..k])
    else
      None
  }

  lemma {:induction false} EncodedPrefix(p: Str, s: Str)
    requires Encode(p) <= Encode(s)
    ensures p <= s
  {
    if p == [] {
    } else {
      var e, t := EncodeScalar(p[0]), Encode(p[1..]);
      var rest := Encode(s)[|e|..];
      assert Encode(s) == e + rest by {
        assert Encode(s)[..|Encode(p)|] == e + t;
      }
      SameFirst(p[0], rest, s[0], Encode(s[1..]));
      assert t <= rest by {
        assert (e + t)[|e|..] == t;
      }
      EncodedPrefix(p[1..], s[1..]);
      assert p == [p[0]] + p[1..] && s == [s[0]] + s[1..];
    }
  }

  lemma SameFirst(c: Scalar, t: Bytes, c': Scalar, t': Bytes)
    requires EncodeScalar(c) + t == EncodeScalar(c') + t'
    ensures c == c' && t == t'
  {
    EncodeScalarShape(c, t);
    EncodeScalarShape(c', t');
    assert t == (EncodeScalar(c) + t)[|EncodeScalar(c)|..];
    assert t' == (EncodeScalar(c') + t')[|EncodeScalar(c')|..];
  }

  lemma {:induction false} EncodeAppend(s: Str, t: Str)
    ensures Encode(s + t) == Encode(s) + Encode(t)
  {
    if s == [] {
      assert s + t == t;
    } else {
      hide EncodeScalar;
      EncodeAppend(s[1..], t);
      assert (s + t)[1..] == s[1..] + t;
    }
  }

  // ----- Laws of RFC 3629 that name no decoder -----

  /** Section 3: how many bytes, and which byte values each place can hold. */
  lemma ScalarShape(c: Scalar)
    ensures var e := EncodeScalar(c);
            && |e| == (if c < 0x80 then 1 else if c < 0x800 then 2 else if c < 0x1_0000 then 3 else 4)
            && (|e| == 1 ==> e[0] == c)
            && (|e| == 2 ==> 0xC2 <= e[0] <= 0xDF)
            && (|e| == 3 ==> 0xE0 <= e[0] <= 0xEF)
            && (|e| == 4 ==> 0xF0 <= e[0] <= 0xF4)
            && forall i | 1 <= i < |e| :: 0x80 <= e[i] <= 0xBF
  {
  }

  /** Numbers in base 64 are ordered by their first differing digit. */
  lemma Base64Order(c: nat, d: nat)
    requires c < d
    ensures c / 64 < d / 64 || (c / 64 == d / 64 && c % 64 < d % 64)
  {
  }

  lemma Base64Digits(c: nat)
    ensures c / 4096 == c / 64 / 64 && c / 262144 == c / 64 / 64 / 64
    ensures c / 4096 % 64 == c / 64 / 64 % 64
  {
  }

  lemma PairOrder(c: Scalar, d: Scalar) returns (k: nat)
    requires 0x80 <= c < d < 0x800
    ensures var x, y := EncodeScalar(c), EncodeScalar(d);
            k < |x| && k < |y| && x[..k] == y[..k] && x[k] < y[k]
  {
    Base64Order(c, d);
    k := if c / 64 < d / 64 then 0 else 1;
  }

  lemma TripleOrder(c: Scalar, d: Scalar) returns (k: nat)
    requires 0x800 <= c < d < 0x1_0000
    ensures var x, y := EncodeScalar(c), EncodeScalar(d);
            k < |x| && k < |y| && x[..k] == y[..k] && x[k] < y[k]
  {
    Base64Digits(c);
    Base64Digits(d);
    Base64Order(c, d);
    if c / 64 < d / 64 {
      Base64Order(c / 64, d / 64);
    }
    k := if c / 4096 < d / 4096 then 0 else if c / 64 < d / 64 then 1 else 2;
  }

  lemma QuadOrder(c: Scalar, d: Scalar) returns (k: nat)
    requires 0x1_0000 <= c < d
    ensures var x, y := EncodeScalar(c), EncodeScalar(d);
            k < |x| && k < |y| && x[..k] == y[..k] && x[k] < y[k]
  {
    Base64Digits(c);
    Base64Digits(d);
    Base64Order(c, d);
    if c / 64 < d / 64 {
      Base64Order(c / 64, d / 64);
    }
    if c / 4096 < d / 4096 {
      Base64Order(c / 4096, d / 4096);
    }
    k := if c / 262144 < d / 262144 then 0 else if c / 4096 < d / 4096 then 1 else if c / 64 < d / 64 then 2 else 3;
  }

  /** Section 1: the bytewise order of encoded characters is the order of the characters. */
  lemma ScalarOrder(c: Scalar, d: Scalar) returns (k: nat)
    requires c < d
    ensures var x, y := EncodeScalar(c), EncodeScalar(d);
            k < |x| && k < |y| && x[..k] == y[..k] && x[k] < y[k]
  {
    hide EncodeScalar;
    ScalarShape(c);
    ScalarShape(d);
    if |EncodeScalar(c)| < |EncodeScalar(d)| || d < 0x80 {
      k := 0;
    } else if d < 0x800 {
      k := PairOrder(c, d);
    } else if d < 0x1_0000 {
      k := TripleOrder(c, d);
    } else {
      k := QuadOrder(c, d);
    }
  }

  lemma EncodeKeepsOrder(s: Str, t: Str)
    requires LexLess(s, t)
    ensures LexLess(Encode(s), Encode(t))
  {
    hide EncodeScalar;
    var k: nat :| FirstDifference(s, t, k) && (k < |s| ==> s[k] < t[k]);
    var p := s[..k];
    assert s == p + s[k..] && t == p + t[k..];
    EncodeAppend(p, s[k..]);
    EncodeAppend(p, t[k..]);
    var x, y := Encode(s), Encode(t);
    if k == |s| {
      assert x == Encode(p);
      assert x[..|x|] == y[..|x|];
      LexIntro(x, y, |x|);
    } else {
      var j := ScalarOrder(s[k], t[k]);
      var e, f := EncodeScalar(s[k]), EncodeScalar(t[k]);
      assert s[k..][0] == s[k] && t[k..][0] == t[k];
      DifferenceBehind(Encode(p), e, Encode(s[k..][1..]), f, Encode(t[k..][1..]), j);
    }
  }

  lemma DifferenceBehind(p: Bytes, e: Bytes, x: Bytes, f: Bytes, y: Bytes, j: nat)
    requires j < |e| && j < |f| && e[..j] == f[..j] && e[j] < f[j]
    ensures LexLess(p + (e + x), p + (f + y))
  {
    var a, b := p + (e + x), p + (f + y);
    var i := |p| + j;
    assert a[..i] == p + e[..j] && b[..i] == p + f[..j];
    assert a[i] == e[j] && b[i] == f[j];
    LexIntro(a, b, i);
  }

  /** And so for texts: sorting by encoded bytes is sorting by characters. */
  lemma EncodeOrder(s: Str, t: Str)
    ensures LexLess(s, t) <==> LexLess(Encode(s), Encode(t))
  {
    hide Encode, LexLess;
    if LexLess(s, t) {
      EncodeKeepsOrder(s, t);
    }
    if LexLess(Encode(s), Encode(t)) {
      LexAsymmetric(Encode(s), Encode(t));
      LexTotal(s, t, 0);
      if LexLess(t, s) {
        EncodeKeepsOrder(t, s);
      }
    }
  }

  /** Section 3: the byte values C0, C1 and F5 to FF never appear. */
  lemma {:induction false} NeverAppears(s: Str, i: nat)
    requires i < |Encode(s)|
    ensures Encode(s)[i] != 0xC0 && Encode(s)[i] != 0xC1 && Encode(s)[i] < 0xF5
  {
    if s == [] {
    } else {
      ScalarShape(s[0]);
      hide EncodeScalar;
      var e := EncodeScalar(s[0]);
      if i < |e| {
        assert Encode(s)[i] == e[i];
      } else {
        NeverAppears(s[1..], i - |e|);
      }
    }
  }

  lemma ExampleScalars()
    ensures EncodeScalar(0x41) == [0x41] && EncodeScalar(0x2E) == [0x2E]
    ensures EncodeScalar(0x391) == [0xCE, 0x91]
    ensures EncodeScalar(0x2262) == [0xE2, 0x89, 0xA2]
    ensures EncodeScalar(0xD55C) == [0xED, 0x95, 0x9C]
    ensures EncodeScalar(0xAD6D) == [0xEA, 0xB5, 0xAD]
    ensures EncodeScalar(0xC5B4) == [0xEC, 0x96, 0xB4]
    ensures EncodeScalar(0x65E5) == [0xE6, 0x97, 0xA5]
    ensures EncodeScalar(0x672C) == [0xE6, 0x9C, 0xAC]
    ensures EncodeScalar(0x8A9E) == [0xE8, 0xAA, 0x9E]
    ensures EncodeScalar(0xFEFF) == [0xEF, 0xBB, 0xBF]
    ensures EncodeScalar(0x2_33B4) == [0xF0, 0xA3, 0x8E, 0xB4]
  {
  }

  lemma Three(a: Scalar, b: Scalar, c: Scalar)
    ensures Encode([a, b, c]) == EncodeScalar(a) + EncodeScalar(b) + EncodeScalar(c)
    ensures Encode([b, c]) == EncodeScalar(b) + EncodeScalar(c)
  {
    hide EncodeScalar;
    EncodeCons(a, [b, c]);
    EncodeCons(b, [c]);
    EncodeCons(c, []);
    assert [a] + [b, c] == [a, b, c] && [b] + [c] == [b, c] && [c] + [] == [c];
  }

  lemma Four(a: Scalar, b: Scalar, c: Scalar, d: Scalar)
    ensures Encode([a, b, c, d]) == EncodeScalar(a) + EncodeScalar(b) + EncodeScalar(c) + EncodeScalar(d)
  {
    hide EncodeScalar;
    EncodeCons(a, [b, c, d]);
    Three(b, c, d);
    assert [a] + [b, c, d] == [a, b, c, d];
  }

  /** The examples of section 7. */
  lemma Rfc3629Examples()
    ensures Encode([0x41, 0x2262, 0x391, 0x2E]) == [0x41, 0xE2, 0x89, 0xA2, 0xCE, 0x91, 0x2E]
    ensures Encode([0xD55C, 0xAD6D, 0xC5B4]) == [0xED, 0x95, 0x9C, 0xEA, 0xB5, 0xAD, 0xEC, 0x96, 0xB4]
    ensures Encode([0x65E5, 0x672C, 0x8A9E]) == [0xE6, 0x97, 0xA5, 0xE6, 0x9C, 0xAC, 0xE8, 0xAA, 0x9E]
    ensures Encode([0xFEFF, 0x2_33B4]) == [0xEF, 0xBB, 0xBF, 0xF0, 0xA3, 0x8E, 0xB4]
  {
    hide Encode, EncodeScalar;
    ExampleScalars();
    Four(0x41, 0x2262, 0x391, 0x2E);
    Three(0xD55C, 0xAD6D, 0xC5B4);
    Three(0x65E5, 0x672C, 0x8A9E);
    Three(0, 0xFEFF, 0x2_33B4);
  }
}
