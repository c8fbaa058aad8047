/** Well-formed UTF-8 as a decoder checks it, byte range by byte range (section 4
    of RFC 3629), and as the encodings of scalar values (section 3). */
module Utf8 {
  import opened ByteStrings

  predicate Continuation(b: byte) {
    0x80 <= b < 0xC0
  }

  /** The length of the character at the front; 0 when there is none. */
  function CharLength(s: Bytes): (n: nat)
    ensures n <= |s|
  {
    if |s| == 0 then 0
    else if s[0] < 0x80 then 1
    else if 0xC2 <= s[0] < 0xE0 then
      if |s| >= 2 && Continuation(s[1]) then 2 else 0
    else if 0xE0 <= s[0] < 0xF0 then
      if |s| >= 3 && Continuation(s[1]) && Continuation(s[2])
         && (s[0] == 0xE0 ==> s[1] >= 0xA0) && (s[0] == 0xED ==> s[1] < 0xA0)
      then 3 else 0
    else if 0xF0 <= s[0] < 0xF5 then
      if |s| >= 4 && Continuation(s[1]) && Continuation(s[2]) && Continuation(s[3])
         && (s[0] == 0xF0 ==> s[1] >= 0x90) && (s[0] == 0xF4 ==> s[1] < 0x90)
      then 4 else 0
    else 0
  }

  /** No overlong forms, no surrogates, nothing above U+10FFFF. */
  predicate ValidUtf8(s: Bytes) {
    s == [] || (CharLength(s) > 0 && ValidUtf8(s[CharLength(s)..]))
  }

  /** A Unicode scalar value: any code point but a surrogate. */
  type Scalar = c: int | 0 <= c < 0x11_0000 && !(0xD800 <= c < 0xE000)

  function EncodeScalar(c: Scalar): (s: Bytes)
    ensures |s| > 0
  {
    if c < 0x80 then [c]
    else if c < 0x800 then [0xC0 + c / 64, 0x80 + c % 64]
    else if c < 0x1_0000 then [0xE0 + c / 64 / 64, 0x80 + c / 64 % 64, 0x80 + c % 64]
    else [0xF0 + c / 64 / 64 / 64, 0x80 + c / 64 / 64 % 64, 0x80 + c / 64 % 64, 0x80 + c % 64]
  }

  function EncodeScalars(cs: seq<Scalar>): Bytes {
    if cs == [] then [] else EncodeScalar(cs[0]) + EncodeScalars(cs[1..])
  }

  /** The scalar value of the character at the front. */
  function ScalarAt(s: Bytes): (c: Scalar)
    requires CharLength(s) > 0
  {
    match CharLength(s)
    case 1 => s[0]
    case 2 => Append(Lead(s, 0xC0), s[1])
    case 3 => Append(Append(Lead(s, 0xE0), s[1]), s[2])
    case _ => Append(Append(Append(Lead(s, 0xF0), s[1]), s[2]), s[3])
  }

  function Lead(s: Bytes, marker: byte): int
    requires s != []
  {
    s[0] as int - marker as int
  }

  /** Six more bits, from a continuation byte. */
  function Append(high: int, next: byte): int {
    high * 64 + (next as int - 0x80)
  }

  lemma AppendedBits(high: nat, next: byte)
    requires Continuation(next)
    ensures Append(high, next) / 64 == high && Append(high, next) % 64 == next as int - 0x80
  {
  }

  lemma FrontIsItsScalar(s: Bytes)
    requires CharLength(s) > 0
    ensures EncodeScalar(ScalarAt(s)) == s[..CharLength(s)]
  {
    match CharLength(s) {
      case 1 =>
      case 2 =>
        AppendedBits(Lead(s, 0xC0), s[1]);
      case 3 =>
        var high := Append(Lead(s, 0xE0), s[1]);
        AppendedBits(Lead(s, 0xE0), s[1]);
        AppendedBits(high, s[2]);
      case _ =>
        var high := Append(Lead(s, 0xF0), s[1]);
        AppendedBits(Lead(s, 0xF0), s[1]);
        AppendedBits(high, s[2]);
        AppendedBits(Append(high, s[2]), s[3]);
    }
  }

  lemma ScalarIsAtTheFront(c: Scalar, rest: Bytes)
    ensures CharLength(EncodeScalar(c) + rest) == |EncodeScalar(c)|
  {
  }

  lemma {:induction false} ValidIsScalars(s: Bytes) returns (cs: seq<Scalar>)
    requires ValidUtf8(s)
    ensures EncodeScalars(cs) == s
  {
    if s == [] {
      cs := [];
    } else {
      FrontIsItsScalar(s);
      var rest := ValidIsScalars(s[CharLength(s)..]);
      cs := [ScalarAt(s)] + rest;
      assert cs[1..] == rest;
    }
  }

  lemma {:induction false} ScalarsAreValid(cs: seq<Scalar>)
    ensures ValidUtf8(EncodeScalars(cs))
  {
    if cs != [] {
      ScalarsAreValid(cs[1..]);
      ScalarIsAtTheFront(cs[0], EncodeScalars(cs[1..]));
    }
  }

  /** The byte ranges accept exactly the encodings of sequences of scalar values. */
  lemma ValidExactlyWhenScalars(s: Bytes)
    ensures ValidUtf8(s) <==> exists cs :: EncodeScalars(cs) == s
  {
    if ValidUtf8(s) {
      var cs := ValidIsScalars(s);
    }
    if cs :| EncodeScalars(cs) == s {
      ScalarsAreValid(cs);
    }
  }
}
