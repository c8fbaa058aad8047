/** Byte strings, their big-endian value, and their lexicographic order.

    `Value` is the bridge the other modules use: on strings of one length the
    lexicographic order that Rust derives for `[u8; N]` is the order of the
    big-endian values, so it is a strict total order.
 */
module ByteStrings {

  type byte = x: int | 0 <= x < 256
  type Bytes = seq<byte>

  const UINT32_MAX: int := 0xFFFF_FFFF
  const UINT64_MAX: int := 0xFFFF_FFFF_FFFF_FFFF

  type uint32 = x: int | 0 <= x <= UINT32_MAX
  type uint64 = x: int | 0 <= x <= UINT64_MAX

  const XOR_NAME_LEN := 32

  const ZERO_NAME: Bytes := seq(XOR_NAME_LEN, _ => 0)

  /** A 32-byte address. */
  type XorName = s: Bytes | |s| == XOR_NAME_LEN witness ZERO_NAME

  function Pow256(k: nat): (p: nat)
    ensures p > 0
  {
    if k == 0 then 1 else 256 * Pow256(k - 1)
  }

  /** The big-endian value of a byte string. */
  function Value(s: Bytes): nat {
    if s == [] then 0 else Value(s[..|s| - 1]) * 256 + s[|s| - 1]
  }

  /** The `len` low-order bytes of `n`, most significant first. */
  function ToBigEndian(n: nat, len: nat): (s: Bytes)
    ensures |s| == len
  {
    if len == 0 then [] else ToBigEndian(n / 256, len - 1) + [n % 256]
  }

  /** The `len` low-order bytes of `n`, least significant first. */
  function ToLittleEndian(n: nat, len: nat): (s: Bytes)
    ensures |s| == len
  {
    if len == 0 then [] else [n % 256] + ToLittleEndian(n / 256, len - 1)
  }

  lemma Pow256Of4And8()
    ensures Pow256(4) == UINT32_MAX + 1
    ensures Pow256(8) == UINT64_MAX + 1
  {
    assert Pow256(2) == 0x1_0000;
    assert Pow256(4) == 0x1_0000_0000;
    assert Pow256(6) == 0x1_0000_0000_0000;
  }

  lemma {:induction false} ValueOfToBigEndian(n: nat, len: nat)
    requires n < Pow256(len)
    ensures Value(ToBigEndian(n, len)) == n
  {
    if len > 0 {
      ValueOfToBigEndian(n / 256, len - 1);
      var s := ToBigEndian(n, len);
      assert s[..|s| - 1] == ToBigEndian(n / 256, len - 1);
    }
  }

  lemma LowByte(high: nat, low: byte)
    ensures (high * 256 + low) / 256 == high && (high * 256 + low) % 256 == low
  {
  }

  lemma {:induction false} ToBigEndianOfValue(s: Bytes)
    ensures Value(s) < Pow256(|s|)
    ensures ToBigEndian(Value(s), |s|) == s
  {
    if s != [] {
      var init, last := s[..|s| - 1], s[|s| - 1];
      ToBigEndianOfValue(init);
      LowByte(Value(init), last);
      assert s == init + [last];
    }
  }

  /** The eight big-endian bytes of a 64-bit counter read back as that counter. */
  lemma Uint64BigEndianRoundTrip(n: uint64)
    ensures Value(ToBigEndian(n, 8)) == n
  {
    Pow256Of4And8();
    ValueOfToBigEndian(n, 8);
  }

  /** ... and any eight bytes are the bytes of the 64-bit counter they encode. */
  lemma Uint64BigEndianOnto(s: Bytes)
    requires |s| == 8
    ensures Value(s) <= UINT64_MAX && ToBigEndian(Value(s), 8) == s
  {
    Pow256Of4And8();
    ToBigEndianOfValue(s);
  }

  /** The 64-bit number eight big-endian bytes spell. */
  function Uint64FromBigEndian(s: Bytes): (n: uint64)
    requires |s| == 8
    ensures n == Value(s)
  {
    Uint64BigEndianOnto(s);
    Value(s)
  }

  /** Least significant first is most significant first, read backwards. */
  lemma {:induction false} LittleEndianIsReversed(n: nat, len: nat, i: nat)
    requires i < len
    ensures ToLittleEndian(n, len)[i] == ToBigEndian(n, len)[len - 1 - i]
  {
    if i > 0 {
      LittleEndianIsReversed(n / 256, len - 1, i - 1);
    }
  }

  /** So a number is what its little-endian bytes are worth from the last one on. */
  lemma LittleEndianReadsBackwards(n: nat, len: nat, reversed: Bytes)
    requires n < Pow256(len) && |reversed| == len
    requires forall i :: 0 <= i < len ==> reversed[i] == ToLittleEndian(n, len)[len - 1 - i]
    ensures Value(reversed) == n
  {
    forall i | 0 <= i < len
      ensures reversed[i] == ToBigEndian(n, len)[i]
    {
      LittleEndianIsReversed(n, len, len - 1 - i);
    }
    assert reversed == ToBigEndian(n, len);
    ValueOfToBigEndian(n, len);
  }

  lemma {:induction false} LittleEndianInjective(m: nat, n: nat, len: nat)
    requires m < Pow256(len) && n < Pow256(len)
    requires ToLittleEndian(m, len) == ToLittleEndian(n, len)
    ensures m == n
  {
    if len > 0 {
      var s, t := ToLittleEndian(m, len), ToLittleEndian(n, len);
      assert s[0] == m % 256 && t[0] == n % 256;
      assert s[1..] == ToLittleEndian(m / 256, len - 1);
      assert t[1..] == ToLittleEndian(n / 256, len - 1);
      LittleEndianInjective(m / 256, n / 256, len - 1);
    }
  }

  // ---------------------------------------------------------------------------
  // Lexicographic order
  // ---------------------------------------------------------------------------

  /** The order Rust derives for byte arrays: the first difference decides. */
  predicate LexLess(a: Bytes, b: Bytes) {
    b != [] &&
    (a == [] || a[0] < b[0] || (a[0] == b[0] && LexLess(a[1..], b[1..])))
  }

  lemma ShiftTheFront(head: nat, power: nat, middle: nat, last: nat)
    ensures (head * power + middle) * 256 + last == head * (256 * power) + (middle * 256 + last)
  {
  }

  lemma {:induction false} ValueFromTheFront(s: Bytes)
    requires s != []
    ensures Value(s) == s[0] * Pow256(|s| - 1) + Value(s[1..])
  {
    if |s| > 1 {
      var init, last := s[..|s| - 1], s[|s| - 1];
      ValueFromTheFront(init);
      assert s[1..][..|s| - 2] == init[1..];
      assert Value(s[1..]) == Value(init[1..]) * 256 + last;
      ShiftTheFront(s[0], Pow256(|s| - 2), Value(init[1..]), last);
    }
  }

  lemma ValueOrderFromTheFront(a: Bytes, b: Bytes)
    requires |a| == |b| && a != []
    ensures Value(a) < Value(b) <==> a[0] < b[0] || (a[0] == b[0] && Value(a[1..]) < Value(b[1..]))
    ensures Value(a) == Value(b) <==> a[0] == b[0] && Value(a[1..]) == Value(b[1..])
  {
    ValueFromTheFront(a);
    ValueFromTheFront(b);
    ToBigEndianOfValue(a[1..]);
    ToBigEndianOfValue(b[1..]);
    LeadingByteDecides(a[0], b[0], Pow256(|a| - 1), Value(a[1..]), Value(b[1..]));
  }

  /** On strings of one length, lexicographic order is the order of the values. */
  lemma {:induction false} LexIsValueOrder(a: Bytes, b: Bytes)
    requires |a| == |b|
    ensures LexLess(a, b) <==> Value(a) < Value(b)
    ensures a == b <==> Value(a) == Value(b)
  {
    if a != [] {
      ValueOrderFromTheFront(a, b);
      LexIsValueOrder(a[1..], b[1..]);
      assert a == [a[0]] + a[1..] && b == [b[0]] + b[1..];
    }
  }

  lemma LeadingByteDecides(x: nat, y: nat, p: nat, restX: nat, restY: nat)
    requires restX < p && restY < p
    ensures x * p + restX < y * p + restY <==> x < y || (x == y && restX < restY)
    ensures x * p + restX == y * p + restY <==> x == y && restX == restY
  {
    if x < y {
      assert (x + 1) * p <= y * p;
    } else if y < x {
      assert (y + 1) * p <= x * p;
    }
  }
}
