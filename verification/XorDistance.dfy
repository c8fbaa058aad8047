/** The XOR metric on 32-byte addresses (section 2.1 of the Kademlia paper by
    Maymounkov and Mazieres), and hex-encoded peer ids. */
module XorDistance {
  import opened Wrappers
  import opened ByteStrings

  function Pow2(k: nat): (p: nat)
    ensures p > 0
  {
    if k == 0 then 1 else 2 * Pow2(k - 1)
  }

  /** Bitwise exclusive or of the `bits` low-order bits: a bit of the result is
      set exactly when the two bits differ. */
  function Xor(a: nat, b: nat, bits: nat): (x: nat)
    ensures x < Pow2(bits)
  {
    if bits == 0 then 0
    else 2 * Xor(a / 2, b / 2, bits - 1) + (if a % 2 != b % 2 then 1 else 0)
  }

  function XorByte(a: byte, b: byte): byte {
    assert Pow2(2) == 4 && Pow2(5) == 32 && Pow2(8) == 256;
    Xor(a, b, 8)
  }

  function XorBytes(a: Bytes, b: Bytes): (d: Bytes)
    requires |a| == |b|
    ensures |d| == |a|
  {
    seq(|a|, i requires 0 <= i < |a| => XorByte(a[i], b[i]))
  }

  function Distance(a: XorName, b: XorName): XorName {
    XorBytes(a, b)
  }

  // ---------------------------------------------------------------------------
  // From bytes to 256-bit integers
  // ---------------------------------------------------------------------------

  function Bit(n: nat, k: nat): bool {
    if k == 0 then n % 2 == 1 else Bit(n / 2, k - 1)
  }

  lemma HalveThenDivide(n: nat, p: nat)
    requires p > 0
    ensures n / (2 * p) == n / 2 / p
  {
    var q, r := n / 2 / p, n / 2 % p;
    assert n / 2 == p * q + r;
    assert 2 * (p * q) == q * (2 * p);
    QuotientIs(n, 2 * p, q, 2 * r + n % 2);
  }

  lemma NextMultiple(p: nat, q: nat, d: nat)
    ensures p < q ==> p * d + d <= q * d
  {
    if p < q {
      assert (p + 1) * d <= q * d;
    }
  }

  lemma QuotientIs(n: nat, d: nat, q: nat, r: nat)
    requires n == q * d + r && r < d
    ensures n / d == q
  {
    assert n == (n / d) * d + n % d;
    NextMultiple(n / d, q, d);
    NextMultiple(q, n / d, d);
  }

  /** Bit `k` is the binary digit worth two to the `k`. */
  lemma {:induction false} BitIsBinaryDigit(n: nat, k: nat)
    ensures Bit(n, k) <==> n / Pow2(k) % 2 == 1
  {
    if k > 0 {
      BitIsBinaryDigit(n / 2, k - 1);
      HalveThenDivide(n, Pow2(k - 1));
    }
  }

  /** `Xor` is exclusive or, bit by bit. */
  lemma {:induction false} XorBitByBit(a: nat, b: nat, bits: nat, k: nat)
    ensures Bit(Xor(a, b, bits), k) <==> k < bits && Bit(a, k) != Bit(b, k)
  {
    if bits == 0 {
      ZeroHasNoBits(k);
    } else if k > 0 {
      XorBitByBit(a / 2, b / 2, bits - 1, k - 1);
      assert Xor(a, b, bits) / 2 == Xor(a / 2, b / 2, bits - 1);
    }
  }

  lemma {:induction false} ZeroHasNoBits(k: nat)
    ensures !Bit(0, k)
  {
    if k > 0 {
      ZeroHasNoBits(k - 1);
    }
  }

  function Shift(n: nat, k: nat): nat {
    if k == 0 then n else 2 * Shift(n, k - 1)
  }

  /** Splitting off low-order bits commutes with exclusive or. */
  lemma {:induction false} XorSplits(h1: nat, h2: nat, l1: nat, l2: nat, high: nat, low: nat)
    requires l1 < Pow2(low) && l2 < Pow2(low)
    ensures Xor(Shift(h1, low) + l1, Shift(h2, low) + l2, high + low) ==
            Shift(Xor(h1, h2, high), low) + Xor(l1, l2, low)
  {
    if low > 0 {
      XorSplits(h1, h2, l1 / 2, l2 / 2, high, low - 1);
      assert (Shift(h1, low) + l1) / 2 == Shift(h1, low - 1) + l1 / 2;
      assert (Shift(h2, low) + l2) / 2 == Shift(h2, low - 1) + l2 / 2;
    }
  }

  lemma {:induction false} ShiftMultiplies(n: nat, k: nat)
    ensures Shift(n, k) == Pow2(k) * n
  {
    if k > 0 {
      ShiftMultiplies(n, k - 1);
      assert 2 * Pow2(k - 1) * n == 2 * (Pow2(k - 1) * n);
    }
  }

  lemma XorAppendsByte(h1: nat, h2: nat, l1: byte, l2: byte, high: nat)
    ensures Xor(256 * h1 + l1, 256 * h2 + l2, high + 8) == 256 * Xor(h1, h2, high) + XorByte(l1, l2)
  {
    assert Pow2(2) == 4 && Pow2(5) == 32 && Pow2(8) == 256;
    XorSplits(h1, h2, l1, l2, high, 8);
    ShiftMultiplies(h1, 8);
    ShiftMultiplies(h2, 8);
    ShiftMultiplies(Xor(h1, h2, high), 8);
  }

  /** Byte by byte or all at once: the value of the distance is the exclusive
      or of the values. */
  lemma {:induction false} ValueOfXorBytes(a: Bytes, b: Bytes)
    requires |a| == |b|
    ensures Value(XorBytes(a, b)) == Xor(Value(a), Value(b), 8 * |a|)
  {
    if a != [] {
      var n := |a| - 1;
      ValueOfXorBytes(a[..n], b[..n]);
      assert XorBytes(a, b)[..n] == XorBytes(a[..n], b[..n]);
      XorAppendsByte(Value(a[..n]), Value(b[..n]), a[n], b[n], 8 * n);
    }
  }

  lemma ValueOfDistance(a: XorName, b: XorName)
    ensures Value(Distance(a, b)) == Xor(Value(a), Value(b), 256)
  {
    ValueOfXorBytes(a, b);
  }

  lemma {:induction false} XorMetric(a: nat, b: nat, c: nat, bits: nat)
    ensures Xor(a, b, bits) == Xor(b, a, bits)
    ensures Xor(a, c, bits) <= Xor(a, b, bits) + Xor(b, c, bits)
    ensures Xor(Xor(a, b, bits), Xor(a, c, bits), bits) == Xor(b, c, bits)
    ensures a < Pow2(bits) && b < Pow2(bits) ==> (Xor(a, b, bits) == 0 <==> a == b)
  {
    if bits > 0 {
      XorMetric(a / 2, b / 2, c / 2, bits - 1);
      assert Xor(a, b, bits) / 2 == Xor(a / 2, b / 2, bits - 1);
      assert Xor(a, c, bits) / 2 == Xor(a / 2, c / 2, bits - 1);
    }
  }

  // ---------------------------------------------------------------------------
  // The metric
  // ---------------------------------------------------------------------------

  predicate Closer(target: XorName, p: XorName, q: XorName) {
    LexLess(Distance(target, p), Distance(target, q))
  }

  lemma Pow2Of256()
    ensures Pow2(256) == Pow256(32)
  {
    PowersAgree(32);
  }

  lemma {:induction false} PowersAgree(k: nat)
    ensures Pow2(8 * k) == Pow256(k)
  {
    if k > 0 {
      PowersAgree(k - 1);
      assert Pow2(8 * k - 4) == 16 * Pow2(8 * k - 8) by {
        assert Pow2(8 * k - 6) == 4 * Pow2(8 * k - 8);
      }
      assert Pow2(8 * k - 2) == 4 * Pow2(8 * k - 4);
    }
  }

  lemma ValuesSeparateNames(a: XorName, b: XorName)
    ensures Value(a) < Pow2(256) && Value(b) < Pow2(256)
    ensures Value(a) == Value(b) <==> a == b
  {
    Pow2Of256();
    ToBigEndianOfValue(a);
    ToBigEndianOfValue(b);
    LexIsValueOrder(a, b);
  }

  /** A metric on addresses, as 256-bit integers. */
  lemma DistanceIsAMetric(a: XorName, b: XorName, c: XorName)
    ensures Distance(a, b) == ZERO_NAME <==> a == b
    ensures Distance(a, b) == Distance(b, a)
    ensures Value(Distance(a, c)) <= Value(Distance(a, b)) + Value(Distance(b, c))
  {
    XorMetric(Value(a), Value(b), Value(c), 256);
    ValuesSeparateNames(a, b);
    ValueOfDistance(a, b);
    ValueOfDistance(b, a);
    ValueOfDistance(a, c);
    ValueOfDistance(b, c);
    ValuesSeparateNames(Distance(a, b), Distance(b, a));
    ValuesSeparateNames(Distance(a, b), ZERO_NAME);
    ValueOfZeros(32);
  }

  lemma {:induction false} ValueOfZeros(len: nat)
    ensures Value(seq(len, _ => 0)) == 0
  {
    if len > 0 {
      ValueOfZeros(len - 1);
      var zeros: Bytes := seq(len, _ => 0);
      var shorter: Bytes := seq(len - 1, _ => 0);
      assert zeros[..len - 1] == shorter;
    }
  }

  /** Comparing distances byte by byte is comparing them as integers. */
  lemma CloserIsSmallerDistance(target: XorName, p: XorName, q: XorName)
    ensures Closer(target, p, q) <==> Xor(Value(target), Value(p), 256) < Xor(Value(target), Value(q), 256)
  {
    LexIsValueOrder(Distance(target, p), Distance(target, q));
    ValueOfDistance(target, p);
    ValueOfDistance(target, q);
  }

  /** Seen from any target no two peers are equally far, so `Closer` is a strict
      total order on peers. */
  lemma CloserIsAStrictTotalOrder(target: XorName, p: XorName, q: XorName, r: XorName)
    ensures Distance(target, p) == Distance(target, q) <==> p == q
    ensures !(Closer(target, p, q) && Closer(target, q, p))
    ensures Closer(target, p, q) || Closer(target, q, p) || p == q
    ensures Closer(target, p, q) && Closer(target, q, r) ==> Closer(target, p, r)
  {
    CloserIsSmallerDistance(target, p, q);
    CloserIsSmallerDistance(target, q, p);
    CloserIsSmallerDistance(target, q, r);
    CloserIsSmallerDistance(target, p, r);
    var (t, x, y) := (Value(target), Value(p), Value(q));
    XorMetric(t, x, y, 256);
    ValuesSeparateNames(p, q);
    XorMetric(Xor(t, x, 256), Xor(t, y, 256), 0, 256);
    XorMetric(x, y, 0, 256);
    ValueOfDistance(target, p);
    ValueOfDistance(target, q);
  }

  /** `group` holds the `|group|` peers closest to the target. */
  ghost predicate IsClosest(target: XorName, peers: set<XorName>, group: set<XorName>) {
    && group <= peers
    && forall p, q :: p in group && q in peers - group ==> Closer(target, p, q)
  }

  /** There is exactly one close group of each size. */
  lemma ClosestGroupIsUnique(target: XorName, peers: set<XorName>, g: set<XorName>, h: set<XorName>)
    requires IsClosest(target, peers, g) && IsClosest(target, peers, h) && |g| == |h|
    ensures g == h
  {
    if g != h {
      if g <= h || h <= g {
        SubsetOfSameSize(g, h);
        SubsetOfSameSize(h, g);
      } else {
        var p :| p in g && p !in h;
        var q :| q in h && q !in g;
        CloserIsAStrictTotalOrder(target, p, q, p);
      }
    }
  }

  lemma SubsetOfSameSize<T>(a: set<T>, b: set<T>)
    requires |a| == |b|
    ensures a <= b ==> a == b
  {
    if a <= b {
      assert b == a + (b - a);
    }
  }

  lemma {:induction false} ClosestGroupExists(target: XorName, peers: set<XorName>, k: nat) returns (group: set<XorName>)
    requires k <= |peers|
    ensures IsClosest(target, peers, group) && |group| == k
  {
    if k == |peers| {
      group := peers;
    } else {
      var far := Furthest(target, peers);
      var rest := ClosestGroupExists(target, peers - {far}, k);
      group := rest;
    }
  }

  lemma {:induction false} Furthest(target: XorName, peers: set<XorName>) returns (far: XorName)
    requires peers != {}
    ensures far in peers && forall p :: p in peers && p != far ==> Closer(target, p, far)
    decreases |peers|
  {
    var p :| p in peers;
    if peers == {p} {
      far := p;
    } else {
      var other := Furthest(target, peers - {p});
      CloserIsAStrictTotalOrder(target, p, other, p);
      far := if Closer(target, p, other) then other else p;
      forall q | q in peers && q != far
        ensures Closer(target, q, far)
      {
        CloserIsAStrictTotalOrder(target, q, other, p);
      }
    }
  }

  // ---------------------------------------------------------------------------
  // Peer ids
  // ---------------------------------------------------------------------------

  function HexDigit(ch: char): Option<int> {
    if '0' <= ch <= '9' then Some(ch as int - '0' as int)
    else if 'a' <= ch <= 'f' then Some(ch as int - 'a' as int + 10)
    else if 'A' <= ch <= 'F' then Some(ch as int - 'A' as int + 10)
    else None
  }

  /** `hex::decode`: an even number of hex digits, in either case. */
  function HexDecode(s: string): (r: Option<Bytes>)
    ensures r.Some? ==> |s| == 2 * |r.value|
  {
    if s == [] then Some([])
    else if |s| == 1 then None
    else
      var high, low, rest := HexDigit(s[0]), HexDigit(s[1]), HexDecode(s[2..]);
      if high.None? || low.None? || rest.None? then None
      else Some([16 * high.value + low.value] + rest.value)
  }

  function HexChar(digit: int): char
    requires 0 <= digit < 16
  {
    (if digit < 10 then '0' as int + digit else 'a' as int + digit - 10) as char
  }

  /** The lower-case hex form a peer id is printed in. */
  function HexEncode(b: Bytes): (s: string)
    ensures |s| == 2 * |b|
  {
    if b == [] then [] else [HexChar(b[0] / 16), HexChar(b[0] % 16)] + HexEncode(b[1..])
  }

  const LOWER := "0123456789abcdef"
  const UPPER := "0123456789ABCDEF"

  /** A digit is worth its place among the sixteen, in either case. */
  lemma HexDigitValue(ch: char, digit: int)
    ensures HexDigit(ch) == Some(digit) <==>
              0 <= digit < 16 && (ch == "0123456789abcdef"[digit] || ch == "0123456789ABCDEF"[digit])
  {
    assert forall i :: 0 <= i < 10 ==> LOWER[i] == UPPER[i] == (i + '0' as int) as char;
    assert forall i :: 10 <= i < 16 ==> LOWER[i] == (i - 10 + 'a' as int) as char;
    assert forall i :: 10 <= i < 16 ==> UPPER[i] == (i - 10 + 'A' as int) as char;
  }

  /** What decoding gives: each byte is worth its two digits, the first one most. */
  lemma {:induction false} HexDecodeValue(s: string, i: nat)
    requires HexDecode(s).Some? && i < |HexDecode(s).value|
    ensures HexDigit(s[2 * i]).Some? && HexDigit(s[2 * i + 1]).Some?
    ensures HexDecode(s).value[i] == 16 * HexDigit(s[2 * i]).value + HexDigit(s[2 * i + 1]).value
  {
    if i > 0 {
      HexDecodeValue(s[2..], i - 1);
    }
  }

  /** One character, or one hex digit in its two cases. */
  ghost predicate SameDigit(x: char, y: char) {
    x == y || exists digit :: 0 <= digit < 16 && x in {LOWER[digit], UPPER[digit]} && y in {LOWER[digit], UPPER[digit]}
  }

  lemma SameDigitSameValue(x: char, y: char)
    requires SameDigit(x, y)
    ensures HexDigit(x) == HexDigit(y)
  {
    if digit :| 0 <= digit < 16 && x in {LOWER[digit], UPPER[digit]} && y in {LOWER[digit], UPPER[digit]} {
      HexDigitValue(x, digit);
      HexDigitValue(y, digit);
    }
  }

  lemma {:induction false} DecodingSeesDigits(s: string, t: string)
    requires |s| == |t| && forall i :: 0 <= i < |s| ==> HexDigit(s[i]) == HexDigit(t[i])
    ensures HexDecode(s) == HexDecode(t)
  {
    if |s| > 1 {
      DecodingSeesDigits(s[2..], t[2..]);
    }
  }

  /** So the case of the digits does not matter. */
  lemma HexDecodeIgnoresCase(s: string, t: string)
    requires |s| == |t| && forall i :: 0 <= i < |s| ==> SameDigit(s[i], t[i])
    ensures HexDecode(s) == HexDecode(t)
  {
    forall i | 0 <= i < |s|
      ensures HexDigit(s[i]) == HexDigit(t[i])
    {
      SameDigitSameValue(s[i], t[i]);
    }
    DecodingSeesDigits(s, t);
  }

  /** What printing gives: two lower-case digits a byte. */
  lemma {:induction false} HexEncodeDigits(b: Bytes, i: nat)
    requires i < |b|
    ensures HexEncode(b)[2 * i] == "0123456789abcdef"[b[i] / 16]
    ensures HexEncode(b)[2 * i + 1] == "0123456789abcdef"[b[i] % 16]
  {
    if i == 0 {
      HexCharIsLower(b[0] / 16);
      HexCharIsLower(b[0] % 16);
    } else {
      HexEncodeDigits(b[1..], i - 1);
    }
  }

  lemma HexCharIsLower(digit: int)
    requires 0 <= digit < 16
    ensures HexChar(digit) == "0123456789abcdef"[digit]
  {
    HexDigitRoundTrip(digit);
    HexDigitValue(HexChar(digit), digit);
  }

  lemma HexDigitRoundTrip(digit: int)
    requires 0 <= digit < 16
    ensures HexDigit(HexChar(digit)) == Some(digit)
  {
  }

  lemma {:induction false} HexRoundTrip(b: Bytes)
    ensures HexDecode(HexEncode(b)) == Some(b)
  {
    if b != [] {
      HexRoundTrip(b[1..]);
      var high, low := HexChar(b[0] / 16), HexChar(b[0] % 16);
      HexDigitRoundTrip(b[0] / 16);
      HexDigitRoundTrip(b[0] % 16);
      var s := HexEncode(b);
      assert s[0] == high && s[1] == low && s[2..] == HexEncode(b[1..]);
      assert b == [16 * (b[0] / 16) + b[0] % 16] + b[1..];
    }
  }

  lemma {:induction false} HexDecodesExactlyHex(s: string)
    ensures HexDecode(s).Some? <==> |s| % 2 == 0 && forall i :: 0 <= i < |s| ==> HexDigit(s[i]).Some?
  {
    if |s| > 1 {
      HexDecodesExactlyHex(s[2..]);
      var rest := s[2..];
      if HexDecode(s).Some? {
        forall i | 0 <= i < |s|
          ensures HexDigit(s[i]).Some?
        {
          if i >= 2 {
            assert rest[i - 2] == s[i];
          }
        }
      }
    }
  }

  /** A peer id names exactly one address: 64 hex digits and nothing else. The
      decoded bytes are copied into a zeroed buffer. */
  method PeerIdToXorName(peerId: string) returns (name: Option<XorName>)
    ensures name.Some? <==> |peerId| == 64 && forall i :: 0 <= i < 64 ==> HexDigit(peerId[i]).Some?
    ensures name.Some? ==> forall i :: 0 <= i < 32 ==>
              name.value[i] == 16 * HexDigit(peerId[2 * i]).value + HexDigit(peerId[2 * i + 1]).value
    ensures name.Some? ==> HexDecode(peerId) == Some(name.value)
  {
    HexDecodesExactlyHex(peerId);
    forall i | HexDecode(peerId).Some? && 0 <= i < |HexDecode(peerId).value|
      ensures HexDigit(peerId[2 * i]).Some? && HexDigit(peerId[2 * i + 1]).Some?
      ensures HexDecode(peerId).value[i] == 16 * HexDigit(peerId[2 * i]).value + HexDigit(peerId[2 * i + 1]).value
    {
      HexDecodeValue(peerId, i);
    }
    var bytes := HexDecode(peerId);
    if bytes.None? || |bytes.value| != XOR_NAME_LEN {
      return None;
    }
    var decoded := bytes.value;
    var out := new byte[XOR_NAME_LEN](_ => 0);
    for i := 0 to |decoded|
      invariant forall k :: 0 <= k < i ==> out[k] == decoded[k]
    {
      out[i] := decoded[i];
    }
    assert out[..] == decoded;
    name := Some(out[..]);
  }
}
