/** Postcard structs as lists of numbers and raw bytes: what writing the list gives,
    and what follows a spelling of it, padded or not. The encoders and decoders of
    `Postcard` are measured against these. */
module PostcardPieces {
  import opened Wrappers
  import opened ByteStrings
  import opened Postcard

  /** A number of at most 32 or 64 bits, or bytes as they are. */
  datatype Piece = Narrow(short: uint32) | Wide(long: uint64) | Raw(bytes: Bytes)

  function Counted(s: Blob): seq<Piece> {
    [Wide(|s|), Raw(s)]
  }

  function Optional(v: Option<Blob>): seq<Piece> {
    match v
    case None => [Raw([0])]
    case Some(s) => [Raw([1])] + Counted(s)
  }

  function Flag(v: bool): seq<Piece> {
    [Raw(if v then [1] else [0])]
  }

  // ---------------------------------------------------------------------------
  // Writing
  // ---------------------------------------------------------------------------

  /** The shortest spelling of a number, by what it is worth. */
  ghost function Leb128(n: nat): (wire: Bytes)
    ensures IsLeb128(wire, n)
  {
    VarintSpells(n);
    var wire :| IsLeb128(wire, n);
    wire
  }

  ghost function WritePiece(p: Piece): Bytes {
    match p
    case Raw(s) => s
    case Narrow(n) => Leb128(n)
    case Wide(n) => Leb128(n)
  }

  /** The pieces, one after another. */
  ghost function Write(ps: seq<Piece>): Bytes {
    if ps == [] then [] else WritePiece(ps[0]) + Write(ps[1..])
  }

  lemma NumbersAreVarints(n: nat)
    ensures Leb128(n) == Varint(n)
  {
    Leb128IsUnique(Leb128(n), n);
  }

  lemma WriteOne(p: Piece)
    ensures Write([p]) == WritePiece(p)
  {
    assert Write([p]) == WritePiece(p) + Write([]);
  }

  lemma Joined(x: Bytes, y: Bytes, z: Bytes)
    ensures x + (y + z) == x + y + z
  {
  }

  lemma {:induction false} WriteBoth(ps: seq<Piece>, qs: seq<Piece>)
    ensures Write(ps + qs) == Write(ps) + Write(qs)
  {
    if ps == [] {
      assert ps + qs == qs;
    } else {
      WriteBoth(ps[1..], qs);
      assert (ps + qs)[0] == ps[0] && (ps + qs)[1..] == ps[1..] + qs;
      Joined(WritePiece(ps[0]), Write(ps[1..]), Write(qs));
    }
  }

  // ---------------------------------------------------------------------------
  // Reading
  // ---------------------------------------------------------------------------

  /** What follows a spelling of a number at the front, padded or not, in at most
      `max` bytes of which the last is at most `last`. */
  function AfterNumber(n: nat, max: nat, last: nat, b: Bytes): Option<Bytes> {
    var k := Continued(b);
    if k < |b| && k < max && (k + 1 == max ==> b[k] <= last) && GroupSum(b[..k + 1]) == n then Some(b[k + 1..])
    else None
  }

  function AfterPiece(p: Piece, b: Bytes): Option<Bytes> {
    match p
    case Raw(s) => if s <= b then Some(b[|s|..]) else None
    case Narrow(n) => AfterNumber(n, 5, 15, b)
    case Wide(n) => AfterNumber(n, 10, 1, b)
  }

  /** What follows a spelling of the pieces at the front of `b`, if there is one. */
  function After(ps: seq<Piece>, b: Bytes): Option<Bytes> {
    if ps == [] then Some(b) else
      match AfterPiece(ps[0], b)
      case None => None
      case Some(rest) => After(ps[1..], rest)
  }

  lemma AfterOne(p: Piece, b: Bytes)
    ensures After([p], b) == AfterPiece(p, b)
  {
    var rest := AfterPiece(p, b);
    assert rest.Some? ==> After([p][1..], rest.value) == rest;
  }

  lemma {:induction false} AfterBoth(ps: seq<Piece>, qs: seq<Piece>, b: Bytes)
    ensures After(ps + qs, b) == match After(ps, b)
                                 case None => None
                                 case Some(rest) => After(qs, rest)
  {
    if ps == [] {
      assert ps + qs == qs;
    } else {
      assert (ps + qs)[1..] == ps[1..] + qs;
      var rest := AfterPiece(ps[0], b);
      if rest.Some? {
        AfterBoth(ps[1..], qs, rest.value);
      }
    }
  }

  /** What follows, if a decoder reads `v`. */
  function Reading<T(==)>(d: Decoded<T>, v: T): Option<Bytes> {
    if d.Ok? && d.value == v then Some(d.rest) else None
  }

  // The fields every struct is made of.

  lemma StartsWith(s: Bytes, b: Bytes)
    ensures s <= b <==> |s| <= |b| && b[..|s|] == s
  {
  }

  lemma NameReading(a: XorName, b: Bytes)
    ensures After([Raw(a)], b) == Reading(TakeName(b), a)
  {
    StartsWith(a, b);
    AfterOne(Raw(a), b);
  }

  lemma WideReading(n: uint64, b: Bytes)
    ensures After([Wide(n)], b) == Reading(TakeU64(b), n)
  {
    AfterOne(Wide(n), b);
    VarintReading(b, U64_BYTES, U64_LAST);
  }

  lemma NarrowReading(n: uint32, b: Bytes)
    ensures After([Narrow(n)], b) == Reading(TakeU32(b), n)
  {
    AfterOne(Narrow(n), b);
    VarintReading(b, U32_BYTES, U32_LAST);
  }

  lemma CountedReading(s: Blob, b: Bytes)
    ensures After(Counted(s), b) == Reading(TakeBlob(b), s)
  {
    AfterBoth([Wide(|s|)], [Raw(s)], b);
    WideReading(|s|, b);
    var len := TakeU64(b);
    if len.Ok? {
      StartsWith(s, len.rest);
      AfterOne(Raw(s), len.rest);
    }
  }

  lemma TextReading(s: Text, b: Bytes)
    ensures After(Counted(s), b) == Reading(TakeText(b), s)
  {
    CountedReading(s, b);
  }

  lemma OptionalReading(v: Option<Blob>, b: Bytes)
    ensures After(Optional(v), b) == Reading(TakeOption(b), v)
  {
    match v {
      case None =>
        AfterOne(Raw([0]), b);
      case Some(s) =>
        AfterBoth([Raw([1])], Counted(s), b);
        AfterOne(Raw([1]), b);
        if b != [] {
          CountedReading(s, b[1..]);
        }
    }
  }

  lemma FlagReading(v: bool, b: Bytes)
    ensures After(Flag(v), b) == Reading(TakeBool(b), v)
  {
    AfterOne(Raw(if v then [1] else [0]), b);
  }

  /** What is written is read back, and nothing more. */
  lemma {:induction false} AfterWritten(ps: seq<Piece>, rest: Bytes)
    ensures After(ps, Write(ps) + rest) == Some(rest)
  {
    if ps == [] {
      assert Write(ps) + rest == rest;
    } else {
      AfterWritten(ps[1..], rest);
      var tail := Write(ps[1..]) + rest;
      assert Write(ps) + rest == WritePiece(ps[0]) + tail;
      AfterWrittenPiece(ps[0], tail);
    }
  }

  lemma AfterWrittenPiece(p: Piece, rest: Bytes)
    ensures AfterPiece(p, WritePiece(p) + rest) == Some(rest)
  {
    AfterOne(p, WritePiece(p) + rest);
    match p {
      case Raw(s) =>
        assert (s + rest)[|s|..] == rest;
      case Narrow(n) =>
        NumbersAreVarints(n);
        U32RoundTrip(n, rest);
        NarrowReading(n, Varint(n) + rest);
      case Wide(n) =>
        NumbersAreVarints(n);
        U64RoundTrip(n, rest);
        WideReading(n, Varint(n) + rest);
    }
  }

  lemma WriteTwo(p: Piece, q: Piece)
    ensures Write([p, q]) == WritePiece(p) + WritePiece(q)
  {
    WriteOne(q);
    assert [p, q][1..] == [q];
  }

  lemma CountedWriting(s: Blob)
    ensures EncodeBlob(s) == Write(Counted(s))
  {
    WriteTwo(Wide(|s|), Raw(s));
    NumbersAreVarints(|s|);
  }

  lemma OptionalWriting(v: Option<Blob>)
    ensures EncodeOption(v) == Write(Optional(v))
  {
    match v {
      case None => WriteOne(Raw([0]));
      case Some(s) => WriteOne(Raw([1])); CountedWriting(s); WriteBoth([Raw([1])], Counted(s));
    }
  }

  lemma FlagWriting(v: bool)
    ensures EncodeBool(v) == Write(Flag(v))
  {
    WriteOne(Raw(if v then [1] else [0]));
  }

  lemma NumbersWriting(x: uint64, y: uint64)
    ensures Varint(x) + Varint(y) == Write([Wide(x), Wide(y)])
    ensures x <= UINT32_MAX && y <= UINT32_MAX ==> Varint(x) + Varint(y) == Write([Narrow(x), Narrow(y)])
  {
    NumbersAreVarints(x);
    NumbersAreVarints(y);
    WriteTwo(Wide(x), Wide(y));
    if x <= UINT32_MAX && y <= UINT32_MAX {
      WriteTwo(Narrow(x), Narrow(y));
    }
  }

  lemma NameCountedWriting(a: XorName, s: Blob)
    ensures a + EncodeBlob(s) == Write([Raw(a)] + Counted(s))
  {
    WriteBoth([Raw(a)], Counted(s));
    WriteOne(Raw(a));
    CountedWriting(s);
  }

  lemma CountedOptionalWriting(s: Blob, v: Option<Blob>)
    ensures EncodeBlob(s) + EncodeOption(v) == Write(Counted(s) + Optional(v))
  {
    WriteBoth(Counted(s), Optional(v));
    CountedWriting(s);
    OptionalWriting(v);
  }
}
