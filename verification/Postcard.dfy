/** The primitives of the Postcard wire format the messages are built from:
    the "Varint Encoded Integers", "Option" and "Tagged Unions" sections of the
    Postcard Wire Format Specification. Decoders return what they read and the
    bytes that follow. */
module Postcard {
  import opened Wrappers
  import opened ByteStrings
  import opened Utf8

  datatype DecodeError =
    | UnexpectedEnd
    | BadVarint
    | BadBool
    | BadOption
    | BadUtf8
    | UnknownVariant

  /** What a decoder makes of its input: a value and the bytes behind it. */
  datatype Decoded<+T> = Ok(value: T, rest: Bytes) | Bad(error: DecodeError)

  /** A byte vector whose length fits the platform's 64-bit `usize`. */
  type Blob = s: Bytes | |s| <= UINT64_MAX

  // ---------------------------------------------------------------------------
  // Varints
  // ---------------------------------------------------------------------------

  // The most bytes a varint may take, and the largest value its last byte may
  // have when all of them are used.
  const U64_BYTES := 10
  const U64_LAST := 1
  const U32_BYTES := 5
  const U32_LAST := 15

  /** Seven bits a byte, least significant group first; the top bit says that
      more follow. */
  function Varint(n: nat): (wire: Bytes)
    ensures |wire| > 0
  {
    if n < 128 then [n] else [128 + n % 128] + Varint(n / 128)
  }

  function TakeVarint(b: Bytes, left: nat, last: nat): (r: Decoded<nat>)
    ensures r.Ok? ==> |r.rest| < |b|
    decreases left
  {
    if left == 0 then Bad(BadVarint)
    else if b == [] then Bad(UnexpectedEnd)
    else if b[0] < 128 then
      if left == 1 && b[0] > last then Bad(BadVarint) else Ok(b[0], b[1..])
    else
      match TakeVarint(b[1..], left - 1, last)
      case Ok(high, rest) => Ok(b[0] - 128 + 128 * high, rest)
      case Bad(e) => Bad(e)
  }

  /** What `left` bytes can carry. */
  function VarintLimit(left: nat, last: nat): nat {
    if left == 0 then 0
    else if left == 1 then last + 1
    else 128 * VarintLimit(left - 1, last)
  }

  lemma LimitsAreTheIntegerWidths()
    ensures VarintLimit(U64_BYTES, U64_LAST) == UINT64_MAX + 1
    ensures VarintLimit(U32_BYTES, U32_LAST) == UINT32_MAX + 1
  {
    assert VarintLimit(2, 1) == 256 && VarintLimit(4, 1) == 0x40_0000;
    assert VarintLimit(6, 1) == 0x10_0000_0000;
    assert VarintLimit(8, 1) == 0x4_0000_0000_0000;
    assert VarintLimit(3, 15) == 0x4_0000;
  }

  lemma {:induction false} VarintRoundTrip(n: nat, left: nat, last: nat, rest: Bytes)
    requires last < 128 && n < VarintLimit(left, last)
    ensures TakeVarint(Varint(n) + rest, left, last) == Ok(n, rest)
  {
    var b := Varint(n) + rest;
    if n < 128 {
      assert b[1..] == rest;
    } else {
      VarintRoundTrip(n / 128, left - 1, last, rest);
      assert b[1..] == Varint(n / 128) + rest;
    }
  }

  lemma {:induction false} VarintInRange(b: Bytes, left: nat, last: nat)
    requires last < 128
    ensures TakeVarint(b, left, last).Ok? ==> TakeVarint(b, left, last).value < VarintLimit(left, last)
  {
    if left > 1 && b != [] {
      VarintInRange(b[1..], left - 1, last);
      LimitGrows(left - 1, last);
    }
  }

  lemma {:induction false} LimitGrows(left: nat, last: nat)
    requires left >= 1
    ensures VarintLimit(left, last) >= 1
  {
    if left > 1 {
      LimitGrows(left - 1, last);
    }
  }

  /** The decoder is more liberal than the encoder: it accepts padded varints.
      What it read is the encoder's own form exactly when the last byte read is
      not a padding zero. */
  lemma {:induction false} CanonicalExactlyWhenUnpadded(b: Bytes, left: nat, last: nat)
    requires TakeVarint(b, left, last).Ok?
    ensures var Ok(n, rest) := TakeVarint(b, left, last);
            var used := |b| - |rest|;
            b[..used] == Varint(n) <==> used == 1 || b[used - 1] != 0
  {
    if b[0] >= 128 {
      var tail := b[1..];
      CanonicalExactlyWhenUnpadded(tail, left - 1, last);
      var Ok(high, rest) := TakeVarint(tail, left - 1, last);
      var used := |tail| - |rest|;
      assert b[..used + 1] == [b[0]] + tail[..used] && b[used] == tail[used - 1];
      assert used == 1 ==> tail[0] == high;
      VarintOfGroups(b[0] - 128, high);
      if high != 0 {
        SameHead(b[0], tail[..used], Varint(high));
      }
    }
  }

  lemma VarintOfGroups(low: nat, high: nat)
    requires low < 128
    ensures Varint(low + 128 * high) == if high == 0 then [low] else [128 + low] + Varint(high)
  {
  }

  lemma SameHead(x: byte, s: Bytes, t: Bytes)
    ensures [x] + s == [x] + t <==> s == t
  {
    assert ([x] + s)[1..] == s && ([x] + t)[1..] == t;
  }

  /** What groups of seven bits are worth, least significant first. */
  function GroupSum(groups: Bytes): nat {
    if groups == [] then 0 else groups[0] % 128 + 128 * GroupSum(groups[1..])
  }

  /** How many bytes at the front say that more follow. */
  function Continued(b: Bytes): (k: nat)
    ensures k <= |b| && (k < |b| ==> b[k] < 128)
    ensures forall i :: 0 <= i < k ==> b[i] >= 128
  {
    if b == [] || b[0] < 128 then 0 else 1 + Continued(b[1..])
  }

  /** The shortest spelling of a number: every byte but the last says that more
      follow, the groups are worth the number, and the last one is not a padding
      zero. */
  ghost predicate IsLeb128(wire: Bytes, n: nat) {
    && wire != [] && (forall i :: 0 <= i < |wire| - 1 ==> wire[i] >= 128) && wire[|wire| - 1] < 128
    && GroupSum(wire) == n
    && (|wire| == 1 || wire[|wire| - 1] != 0)
  }

  lemma {:induction false} VarintSpells(n: nat)
    ensures IsLeb128(Varint(n), n)
  {
    if n < 128 {
      assert GroupSum([n]) == n + 128 * GroupSum([]);
    } else {
      VarintSpells(n / 128);
      assert Varint(n)[1..] == Varint(n / 128);
    }
  }

  lemma {:induction false} UnpaddedIsPositive(groups: Bytes)
    requires groups != [] && groups[|groups| - 1] % 128 != 0
    ensures GroupSum(groups) > 0
  {
    if |groups| > 1 {
      UnpaddedIsPositive(groups[1..]);
    }
  }

  lemma {:induction false} Leb128IsUnique(wire: Bytes, n: nat)
    requires IsLeb128(wire, n)
    ensures wire == Varint(n)
  {
    var tail := wire[1..];
    assert wire == [wire[0]] + tail && GroupSum(wire) == wire[0] % 128 + 128 * GroupSum(tail);
    if tail != [] {
      UnpaddedIsPositive(tail);
      Leb128IsUnique(tail, n / 128);
    }
  }

  /** The encoder writes the shortest spelling, which is unique. */
  lemma VarintIsLeb128(n: nat, wire: Bytes)
    ensures wire == Varint(n) <==> IsLeb128(wire, n)
  {
    VarintSpells(n);
    if IsLeb128(wire, n) {
      Leb128IsUnique(wire, n);
    }
  }

  lemma OneGroupMore(b: Bytes, k: nat)
    requires b != []
    ensures k < |b| ==> GroupSum(b[..k + 1]) == b[0] % 128 + 128 * GroupSum(b[1..][..k])
  {
    if k < |b| {
      assert b[..k + 1][1..] == b[1..][..k];
    }
  }

  /** What the decoder makes of any bytes: the groups up to the first byte that
      ends a number are read, whatever padding they hold, unless they are more
      than fit or the input ends first. */
  lemma {:induction false} VarintReading(b: Bytes, left: nat, last: nat)
    ensures var k := Continued(b);
            TakeVarint(b, left, last) ==
            if k >= left then Bad(BadVarint)
            else if k == |b| then Bad(UnexpectedEnd)
            else if k + 1 == left && b[k] > last then Bad(BadVarint)
            else Ok(GroupSum(b[..k + 1]), b[k + 1..])
    decreases left
  {
    if left > 0 && b != [] {
      if b[0] < 128 {
        assert b[..1] == [b[0]] && GroupSum([b[0]]) == b[0] % 128 + 128 * GroupSum([]);
      } else {
        VarintReading(b[1..], left - 1, last);
        OneGroupMore(b, Continued(b));
      }
    }
  }

  /** Two bytes for the number zero are accepted, and re-encode as one. */
  lemma PaddedZeroIsAccepted(rest: Bytes)
    ensures TakeVarint([128, 0] + rest, U64_BYTES, U64_LAST) == Ok(0, rest)
    ensures Varint(0) != [128, 0]
  {
    var b := [128, 0] + rest;
    assert b[1..] == [0] + rest && b[1..][1..] == rest;
    assert TakeVarint(b[1..], U64_BYTES - 1, U64_LAST) == Ok(0, rest);
  }

  /** The encoder as a loop that pushes seven bits at a time. */
  method PushVarint(out: Bytes, n: nat) returns (r: Bytes)
    ensures r == out + Varint(n)
  {
    r := out;
    var left := n;
    while left >= 128
      invariant r + Varint(left) == out + Varint(n)
    {
      assert r + Varint(left) == (r + [128 + left % 128]) + Varint(left / 128);
      r := r + [128 + left % 128];
      left := left / 128;
    }
    r := r + [left];
  }

  /** A group of bits moved to its place. */
  function Shifted(group: nat, scale: nat): nat {
    group * scale
  }

  /** What a loop that has read `low`, worth up to `scale`, ends in. */
  ghost function Resume(low: nat, scale: nat, r: Decoded<nat>): Decoded<nat> {
    match r
    case Ok(high, rest) => Ok(low + Shifted(high, scale), rest)
    case Bad(e) => Bad(e)
  }

  lemma ShiftOnce(low: nat, scale: nat, group: nat, high: nat)
    ensures low + Shifted(group + 128 * high, scale) == (low + Shifted(group, scale)) + Shifted(high, 128 * scale)
  {
    assert (group + 128 * high) * scale == group * scale + (128 * high) * scale;
    assert (128 * high) * scale == high * (128 * scale);
  }

  lemma ResumeStep(low: nat, scale: nat, tail: Bytes, left: nat, last: nat)
    requires left > 0 && tail != [] && tail[0] >= 128
    ensures Resume(low, scale, TakeVarint(tail, left, last)) ==
            Resume(low + Shifted(tail[0] - 128, scale), 128 * scale, TakeVarint(tail[1..], left - 1, last))
  {
    var next := TakeVarint(tail[1..], left - 1, last);
    if next.Ok? {
      ShiftOnce(low, scale, tail[0] - 128, next.value);
    }
  }

  lemma ResumeEnd(low: nat, scale: nat, tail: Bytes, left: nat, last: nat)
    ensures Resume(low, scale, Bad(BadVarint)) == Bad(BadVarint)
    ensures Resume(low, scale, Bad(UnexpectedEnd)) == Bad(UnexpectedEnd)
    ensures left > 0 && tail != [] && tail[0] < 128 ==>
              Resume(low, scale, TakeVarint(tail, left, last)) ==
              if left == 1 && tail[0] > last then Bad(BadVarint)
              else Ok(low + Shifted(tail[0], scale), tail[1..])
  {
  }

  lemma ResumeStart(r: Decoded<nat>)
    ensures Resume(0, 1, r) == r
  {
  }

  /** The decoder as a loop: pops bytes and adds each group at its place. */
  method PopVarint(b: Bytes, max: nat, last: nat) returns (r: Decoded<nat>)
    ensures r == TakeVarint(b, max, last)
  {
    var out: nat, scale: nat := 0, 1;
    var tail := b;
    ResumeStart(TakeVarint(b, max, last));
    for i := 0 to max
      invariant Resume(out, scale, TakeVarint(tail, max - i, last)) == TakeVarint(b, max, last)
    {
      ResumeEnd(out, scale, tail, max - i, last);
      if tail == [] {
        return Bad(UnexpectedEnd);
      }
      var val := tail[0];
      if val < 128 {
        if i == max - 1 && val > last {
          return Bad(BadVarint);
        }
        return Ok(out + Shifted(val, scale), tail[1..]);
      }
      ResumeStep(out, scale, tail, max - i, last);
      out, scale, tail := out + Shifted(val - 128, scale), 128 * scale, tail[1..];
    }
    r := Bad(BadVarint);
  }

  // ---------------------------------------------------------------------------
  // Fixed-width integers, byte vectors, text, options
  // ---------------------------------------------------------------------------

  function TakeU64(b: Bytes): Decoded<uint64> {
    VarintInRange(b, U64_BYTES, U64_LAST);
    LimitsAreTheIntegerWidths();
    match TakeVarint(b, U64_BYTES, U64_LAST)
    case Ok(n, rest) => Ok(n, rest)
    case Bad(e) => Bad(e)
  }

  function TakeU32(b: Bytes): Decoded<uint32> {
    VarintInRange(b, U32_BYTES, U32_LAST);
    LimitsAreTheIntegerWidths();
    match TakeVarint(b, U32_BYTES, U32_LAST)
    case Ok(n, rest) => Ok(n, rest)
    case Bad(e) => Bad(e)
  }

  /** The index of an enum variant, for a reader that knows the first `known`. */
  function TakeVariant(b: Bytes, known: nat): (r: Decoded<nat>)
    ensures r.Ok? ==> r.value < known
  {
    match TakeU32(b)
    case Ok(index, rest) => if index < known then Ok(index, rest) else Bad(UnknownVariant)
    case Bad(e) => Bad(e)
  }

  function TakeName(b: Bytes): Decoded<XorName> {
    if |b| < XOR_NAME_LEN then Bad(UnexpectedEnd) else Ok(b[..XOR_NAME_LEN], b[XOR_NAME_LEN..])
  }

  function EncodeBlob(v: Blob): Bytes {
    Varint(|v|) + v
  }

  function TakeBlob(b: Bytes): Decoded<Blob> {
    match TakeU64(b)
    case Ok(len, rest) => if |rest| < len then Bad(UnexpectedEnd) else Ok(rest[..len], rest[len..])
    case Bad(e) => Bad(e)
  }

  function EncodeOption(v: Option<Blob>): Bytes {
    match v
    case None => [0]
    case Some(blob) => [1] + EncodeBlob(blob)
  }

  function TakeOption(b: Bytes): Decoded<Option<Blob>> {
    if b == [] then Bad(UnexpectedEnd)
    else if b[0] == 0 then Ok(None, b[1..])
    else if b[0] == 1 then
      match TakeBlob(b[1..])
      case Ok(v, rest) => Ok(Some(v), rest)
      case Bad(e) => Bad(e)
    else Bad(BadOption)
  }

  function EncodeBool(v: bool): Bytes {
    if v then [1] else [0]
  }

  function TakeBool(b: Bytes): Decoded<bool> {
    if b == [] then Bad(UnexpectedEnd)
    else if b[0] == 0 then Ok(false, b[1..])
    else if b[0] == 1 then Ok(true, b[1..])
    else Bad(BadBool)
  }

  type Text = s: Blob | ValidUtf8(s)

  function TakeText(b: Bytes): Decoded<Text> {
    match TakeBlob(b)
    case Ok(v, rest) => if ValidUtf8(v) then Ok(v, rest) else Bad(BadUtf8)
    case Bad(e) => Bad(e)
  }

  lemma U64RoundTrip(n: uint64, rest: Bytes)
    ensures TakeU64(Varint(n) + rest) == Ok(n, rest)
  {
    LimitsAreTheIntegerWidths();
    VarintRoundTrip(n, U64_BYTES, U64_LAST, rest);
  }

  lemma U32RoundTrip(n: uint32, rest: Bytes)
    ensures TakeU32(Varint(n) + rest) == Ok(n, rest)
  {
    LimitsAreTheIntegerWidths();
    VarintRoundTrip(n, U32_BYTES, U32_LAST, rest);
  }

  lemma VariantRoundTrip(index: uint32, known: nat, rest: Bytes)
    ensures TakeVariant(Varint(index) + rest, known) ==
            if index < known then Ok(index, rest) else Bad(UnknownVariant)
  {
    U32RoundTrip(index, rest);
  }

  lemma NameRoundTrip(v: XorName, rest: Bytes)
    ensures TakeName(v + rest) == Ok(v, rest)
  {
    assert (v + rest)[..XOR_NAME_LEN] == v && (v + rest)[XOR_NAME_LEN..] == rest;
  }

  lemma BlobRoundTrip(v: Blob, rest: Bytes)
    ensures TakeBlob(EncodeBlob(v) + rest) == Ok(v, rest)
  {
    assert EncodeBlob(v) + rest == Varint(|v|) + (v + rest);
    U64RoundTrip(|v|, v + rest);
    assert (v + rest)[..|v|] == v && (v + rest)[|v|..] == rest;
  }

  lemma OptionRoundTrip(v: Option<Blob>, rest: Bytes)
    ensures TakeOption(EncodeOption(v) + rest) == Ok(v, rest)
  {
    var b := EncodeOption(v) + rest;
    match v {
      case None =>
        assert b[1..] == rest;
      case Some(blob) =>
        assert b[1..] == EncodeBlob(blob) + rest;
        BlobRoundTrip(blob, rest);
    }
  }

  lemma BoolRoundTrip(v: bool, rest: Bytes)
    ensures TakeBool(EncodeBool(v) + rest) == Ok(v, rest)
  {
    assert (EncodeBool(v) + rest)[1..] == rest;
  }

  lemma TextRoundTrip(v: Text, rest: Bytes)
    ensures TakeText(EncodeBlob(v) + rest) == Ok(v, rest)
  {
    BlobRoundTrip(v, rest);
  }

  /** The number of bytes a varint takes: one for every started seven bits. */
  lemma {:induction false} VarintLength(n: nat, k: nat)
    requires k > 0
    ensures |Varint(n)| <= k <==> n < Pow128(k)
  {
    if n >= 128 && k > 1 {
      VarintLength(n / 128, k - 1);
    } else if n < 128 {
      Pow128IsLarge(k);
    }
  }

  function Pow128(k: nat): nat {
    if k == 0 then 1 else 128 * Pow128(k - 1)
  }

  lemma {:induction false} Pow128IsLarge(k: nat)
    requires k > 0
    ensures Pow128(k) >= 128
  {
    if k > 1 {
      Pow128IsLarge(k - 1);
    }
  }
}
