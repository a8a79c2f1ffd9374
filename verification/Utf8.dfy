/** UTF-8 (RFC 3629): which byte strings are text. */
module Utf8 {
  import opened ByteStrings

  // ---------- encoding, section 3 ----------

  /** A Unicode scalar value: a code point that is not a surrogate. */
  type Scalar = c: nat | c < 0xD800 || 0xE000 <= c < 0x11_0000

  function EncodeScalar(c: Scalar): (b: Bytes)
    ensures 1 <= |b| <= 4
  {
    if c < 0x80 then [c]
    else if c < 0x800 then [0xC0 + c / 0x40, 0x80 + c % 0x40]
    else if c < 0x1_0000 then [0xE0 + c / 0x1000, 0x80 + c / 0x40 % 0x40, 0x80 + c % 0x40]
    else [0xF0 + c / 0x4_0000, 0x80 + c / 0x1000 % 0x40, 0x80 + c / 0x40 % 0x40, 0x80 + c % 0x40]
  }

  function EncodeAll(s: seq<Scalar>): Bytes {
    if s == [] then [] else EncodeScalar(s[0]) + EncodeAll(s[1..])
  }

  /** The bytes encode some sequence of scalar values. */
  ghost predicate IsText(b: Bytes) {
    exists s: seq<Scalar> :: b == EncodeAll(s)
  }

  /** The examples of section 7: "A", not identical to, Alpha, full stop; the Japanese for "the Japanese
      language"; the Chinese character for "stump of tree". */
  lemma {:induction false} Examples()
    ensures EncodeAll([0x41, 0x2262, 0x391, 0x2E]) == [0x41, 0xE2, 0x89, 0xA2, 0xCE, 0x91, 0x2E]
    ensures EncodeAll([0x65E5, 0x672C, 0x8A9E]) == [0xE6, 0x97, 0xA5, 0xE6, 0x9C, 0xAC, 0xE8, 0xAA, 0x9E]
    ensures EncodeAll([0x2_33B4]) == [0xF0, 0xA3, 0x8E, 0xB4]
  {
    ExampleScalars();
    hide EncodeScalar;
    EncodeFour(0x41, 0x2262, 0x391, 0x2E);
    EncodeThree(0x65E5, 0x672C, 0x8A9E);
    EncodeOne(0x2_33B4);
  }

  lemma {:induction false} ExampleScalars()
    ensures EncodeScalar(0x41) == [0x41] && EncodeScalar(0x2E) == [0x2E] && EncodeScalar(0x391) == [0xCE, 0x91]
    ensures EncodeScalar(0x2262) == [0xE2, 0x89, 0xA2] && EncodeScalar(0x65E5) == [0xE6, 0x97, 0xA5]
    ensures EncodeScalar(0x672C) == [0xE6, 0x9C, 0xAC] && EncodeScalar(0x8A9E) == [0xE8, 0xAA, 0x9E]
    ensures EncodeScalar(0x2_33B4) == [0xF0, 0xA3, 0x8E, 0xB4]
  {
  }

  lemma {:induction false} EncodeOne(c: Scalar)
    ensures EncodeAll([c]) == EncodeScalar(c)
  {
    assert EncodeAll([c]) == EncodeScalar(c) + EncodeAll([]);
  }

  lemma {:induction false} EncodeThree(c: Scalar, d: Scalar, e: Scalar)
    ensures EncodeAll([c, d, e]) == EncodeScalar(c) + (EncodeScalar(d) + EncodeScalar(e))
  {
    assert [c, d, e][1..] == [d, e] && [d, e][1..] == [e];
    EncodeOne(e);
  }

  lemma {:induction false} EncodeFour(c: Scalar, d: Scalar, e: Scalar, f: Scalar)
    ensures EncodeAll([c, d, e, f]) == EncodeScalar(c) + (EncodeScalar(d) + (EncodeScalar(e) + EncodeScalar(f)))
  {
    assert [c, d, e, f][1..] == [d, e, f];
    EncodeThree(d, e, f);
  }

  // ---------- checking, section 4 ----------

  predicate Continuation(b: Byte) {
    0x80 <= b <= 0xBF
  }

  /** The length of the first byte sequence of the grammar of section 4, 0 if there is none. */
  function FirstUtf8(b: Bytes): nat {
    if b == [] then 0
    else if b[0] <= 0x7F then 1
    else if 0xC2 <= b[0] <= 0xDF then if |b| >= 2 && Continuation(b[1]) then 2 else 0
    else if 0xE0 <= b[0] <= 0xEF then
      if |b| >= 3 && Continuation(b[1]) && Continuation(b[2])
         && (b[0] == 0xE0 ==> b[1] >= 0xA0) && (b[0] == 0xED ==> b[1] <= 0x9F) then 3 else 0
    else if 0xF0 <= b[0] <= 0xF4 then
      if |b| >= 4 && Continuation(b[1]) && Continuation(b[2]) && Continuation(b[3])
         && (b[0] == 0xF0 ==> b[1] >= 0x90) && (b[0] == 0xF4 ==> b[1] <= 0x8F) then 4 else 0
    else 0
  }

  predicate ValidUtf8(b: Bytes) {
    b == [] || (0 < FirstUtf8(b) <= |b| && ValidUtf8(b[FirstUtf8(b)..]))
  }

  // ---------- the check accepts exactly the encodings ----------

  lemma {:induction false} EncodedIsFirst(c: Scalar, rest: Bytes)
    ensures FirstUtf8(EncodeScalar(c) + rest) == |EncodeScalar(c)|
  {
  }

  /** The number that a sequence stands for. */
  function Value(b: Bytes): int
    requires 1 <= |b| <= 4
  {
    var x: seq<int> := b;
    match |b|
    case 1 => x[0]
    case 2 => (x[0] - 0xC0) * 0x40 + (x[1] - 0x80)
    case 3 => (x[0] - 0xE0) * 0x1000 + (x[1] - 0x80) * 0x40 + (x[2] - 0x80)
    case _ => (x[0] - 0xF0) * 0x4_0000 + (x[1] - 0x80) * 0x1000 + (x[2] - 0x80) * 0x40 + (x[3] - 0x80)
  }

  lemma {:induction false} LastDigit(q: nat, r: nat)
    requires r < 0x40
    ensures (q * 0x40 + r) / 0x40 == q && (q * 0x40 + r) % 0x40 == r
  {
  }

  /** The lowest three digits of a number to the base 64. */
  lemma {:induction false} Digits(c: nat)
    ensures c / 0x1000 == c / 0x40 / 0x40 && c / 0x4_0000 == c / 0x1000 / 0x40
    ensures c == c / 0x40 * 0x40 + c % 0x40
    ensures c == c / 0x1000 * 0x1000 + c / 0x40 % 0x40 * 0x40 + c % 0x40
    ensures c == c / 0x4_0000 * 0x4_0000 + c / 0x1000 % 0x40 * 0x1000 + c / 0x40 % 0x40 * 0x40 + c % 0x40
  {
    var x, y := c / 0x40, c / 0x1000;
    assert x == x / 0x40 * 0x40 + x % 0x40;
    assert y == y / 0x40 * 0x40 + y % 0x40;
  }

  lemma {:induction false} ValueOfEncoded(c: Scalar)
    ensures Value(EncodeScalar(c)) == c
  {
    Digits(c);
  }

  lemma {:induction false} FirstIsEncoded(b: Bytes) returns (c: Scalar)
    requires FirstUtf8(b) > 0
    ensures FirstUtf8(b) <= |b| && EncodeScalar(c) == b[..FirstUtf8(b)]
  {
    match FirstUtf8(b)
    case 1 => c := b[0];
    case 2 => c := TwoBytes(b[0], b[1]);
    case 3 => c := ThreeBytes(b[0], b[1], b[2]);
    case _ => c := FourBytes(b[0], b[1], b[2], b[3]);
  }

  lemma {:induction false} TwoBytes(w: Byte, z: Byte) returns (c: Scalar)
    requires 0xC2 <= w <= 0xDF && Continuation(z)
    ensures EncodeScalar(c) == [w, z]
  {
    var h: nat, k: nat := w - 0xC0, z - 0x80;
    LastDigit(h, k);
    c := h * 0x40 + k;
  }

  lemma {:induction false} ThreeBytes(w: Byte, y: Byte, z: Byte) returns (c: Scalar)
    requires 0xE0 <= w <= 0xEF && Continuation(y) && Continuation(z)
    requires (w == 0xE0 ==> y >= 0xA0) && (w == 0xED ==> y <= 0x9F)
    ensures EncodeScalar(c) == [w, y, z]
  {
    var h: nat, j: nat, k: nat := w - 0xE0, y - 0x80, z - 0x80;
    var n := (h * 0x40 + j) * 0x40 + k;
    LastDigit(h * 0x40 + j, k);
    LastDigit(h, j);
    Digits(n);
    c := n;
  }

  lemma {:induction false} FourBytes(w: Byte, x: Byte, y: Byte, z: Byte) returns (c: Scalar)
    requires 0xF0 <= w <= 0xF4 && Continuation(x) && Continuation(y) && Continuation(z)
    requires (w == 0xF0 ==> x >= 0x90) && (w == 0xF4 ==> x <= 0x8F)
    ensures EncodeScalar(c) == [w, x, y, z]
  {
    var h: nat, i: nat, j: nat, k: nat := w - 0xF0, x - 0x80, y - 0x80, z - 0x80;
    var n := ((h * 0x40 + i) * 0x40 + j) * 0x40 + k;
    LastDigit((h * 0x40 + i) * 0x40 + j, k);
    LastDigit(h * 0x40 + i, j);
    LastDigit(h, i);
    Digits(n);
    c := n;
  }

  lemma {:induction false} EncodedIsValid(s: seq<Scalar>)
    ensures ValidUtf8(EncodeAll(s))
  {
    hide FirstUtf8, EncodeScalar;
    if s != [] {
      var first, rest := EncodeScalar(s[0]), EncodeAll(s[1..]);
      EncodedIsFirst(s[0], rest);
      assert (first + rest)[|first|..] == rest;
      EncodedIsValid(s[1..]);
    }
  }

  lemma {:induction false} ValidIsEncoded(b: Bytes) returns (s: seq<Scalar>)
    requires ValidUtf8(b)
    ensures b == EncodeAll(s)
  {
    hide FirstUtf8, EncodeScalar;
    if b == [] {
      return [];
    }
    var c := FirstIsEncoded(b);
    var rest := ValidIsEncoded(b[FirstUtf8(b)..]);
    s := [c] + rest;
    assert s[1..] == rest;
  }

  lemma {:induction false} ValidIffText(b: Bytes)
    ensures ValidUtf8(b) <==> IsText(b)
  {
    if ValidUtf8(b) {
      var s := ValidIsEncoded(b);
    }
    if s: seq<Scalar> :| b == EncodeAll(s) {
      EncodedIsValid(s);
    }
  }

  // ---------- text has one reading ----------

  lemma {:induction false} EncodeAllInjective(s: seq<Scalar>, t: seq<Scalar>)
    ensures EncodeAll(s) == EncodeAll(t) <==> s == t
  {
    hide FirstUtf8, EncodeScalar;
    if EncodeAll(s) == EncodeAll(t) && s != [] && t != [] {
      EncodedIsFirst(s[0], EncodeAll(s[1..]));
      EncodedIsFirst(t[0], EncodeAll(t[1..]));
      SplitEqual(EncodeScalar(s[0]), EncodeScalar(t[0]), EncodeAll(s[1..]), EncodeAll(t[1..]));
      ValueOfEncoded(s[0]);
      ValueOfEncoded(t[0]);
      EncodeAllInjective(s[1..], t[1..]);
      assert s == [s[0]] + s[1..] && t == [t[0]] + t[1..];
    }
  }
}
