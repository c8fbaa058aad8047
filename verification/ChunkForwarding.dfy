/** Reading never loses room. What a decoder reads would be written again in no
    more bytes than it took, however the sender spelled it, and in as many only if
    the sender spelled it as the encoder does. */
module ChunkForwarding {
  import opened Wrappers
  import opened ByteStrings
  import opened Postcard
  import opened PostcardPieces
  import opened ChunkMessages
  import ChunkMessageProofs
  import opened ChunkWire
  import opened ChunkReading

  /** `b` spells what the encoder writes as `wire`, with `rest` behind it. */
  ghost predicate Spells(b: Bytes, wire: Bytes, rest: Bytes) {
    && |wire| + |rest| <= |b|
    && (|wire| + |rest| == |b| ==> b == wire + rest)
  }

  /** One field, then another. */
  lemma Then(b: Bytes, wire: Bytes, b1: Bytes, wire1: Bytes, rest: Bytes)
    requires Spells(b, wire, b1) && Spells(b1, wire1, rest)
    ensures Spells(b, wire + wire1, rest)
  {
    if |wire + wire1| + |rest| == |b| {
      assert wire + (wire1 + rest) == wire + wire1 + rest;
    }
  }

  lemma Behind(tag: Bytes, b: Bytes, wire: Bytes, rest: Bytes)
    requires Spells(b, wire, rest)
    ensures Spells(tag + b, tag + wire, rest)
  {
    if |tag + wire| + |rest| == |tag + b| {
      assert tag + (wire + rest) == tag + wire + rest;
    }
  }

  // ---------------------------------------------------------------------------
  // Fields
  // ---------------------------------------------------------------------------

  lemma {:induction false} VarintIsShortest(b: Bytes, left: nat, last: nat)
    ensures var r := TakeVarint(b, left, last);
            r.Ok? ==> Spells(b, Varint(r.value), r.rest)
    decreases left
  {
    if left > 0 && b != [] {
      assert b == [b[0]] + b[1..];
      if b[0] >= 128 {
        VarintIsShortest(b[1..], left - 1, last);
        var tail := TakeVarint(b[1..], left - 1, last);
        if tail.Ok? && tail.value > 0 {
          VarintOfGroups(b[0] - 128, tail.value);
          Behind([b[0]], b[1..], Varint(tail.value), tail.rest);
        }
      }
    }
  }

  lemma U64Spells(b: Bytes)
    ensures TakeU64(b).Ok? ==> Spells(b, Varint(TakeU64(b).value), TakeU64(b).rest)
  {
    VarintIsShortest(b, U64_BYTES, U64_LAST);
  }

  lemma U32Spells(b: Bytes)
    ensures TakeU32(b).Ok? ==> Spells(b, Varint(TakeU32(b).value), TakeU32(b).rest)
  {
    VarintIsShortest(b, U32_BYTES, U32_LAST);
  }

  lemma PieceSpells(p: Piece, b: Bytes)
    ensures AfterPiece(p, b).Some? ==> Spells(b, WritePiece(p), AfterPiece(p, b).value)
  {
    AfterOne(p, b);
    match p {
      case Raw(s) =>
        StartsWith(s, b);
      case Narrow(n) =>
        NarrowReading(n, b);
        NumbersAreVarints(n);
        U32Spells(b);
      case Wide(n) =>
        WideReading(n, b);
        NumbersAreVarints(n);
        U64Spells(b);
    }
  }

  /** No spelling of any pieces is shorter than the one that is written. */
  lemma {:induction false} PiecesSpell(ps: seq<Piece>, b: Bytes)
    ensures After(ps, b).Some? ==> Spells(b, Write(ps), After(ps, b).value)
  {
    if ps != [] && After(ps, b).Some? {
      var rest := AfterPiece(ps[0], b).value;
      PieceSpells(ps[0], b);
      PiecesSpell(ps[1..], rest);
      Then(b, WritePiece(ps[0]), rest, Write(ps[1..]), After(ps, b).value);
    }
  }

  // ---------------------------------------------------------------------------
  // Messages
  // ---------------------------------------------------------------------------

  lemma MessageSpells(b: Bytes)
    requires TakeMessage(CURRENT, b).Ok?
    ensures Spells(b, Encode(TakeMessage(CURRENT, b).value), TakeMessage(CURRENT, b).rest)
  {
    var m := TakeMessage(CURRENT, b).value;
    MessageReading(m, b);
    MessageWriting(m);
    PiecesSpell(MessagePieces(m), b);
  }

  /** Every message the decoder accepts, whatever its spelling, encodes in at
      most as many bytes and decodes from them: it can be sent on. */
  lemma AcceptedMessagesCanBeForwarded(b: Bytes, m: ChunkMessage)
    requires Decode(b) == Success(m)
    ensures |Encode(m)| <= |b| && Decode(Encode(m)) == Success(m)
  {
    MessageSpells(b);
    assert Encode(m) + [] == Encode(m);
    ChunkMessageProofs.DecodeOfEncode(m, []);
  }

  /** What was read is the message's own encoding exactly when it is as short. */
  lemma CanonicalExactlyWhenShortest(b: Bytes)
    requires TakeMessage(CURRENT, b).Ok?
    ensures var (m, rest) := (TakeMessage(CURRENT, b).value, TakeMessage(CURRENT, b).rest);
            && |Encode(m)| <= |b| - |rest|
            && (b[..|b| - |rest|] == Encode(m) <==> |Encode(m)| == |b| - |rest|)
  {
    var (m, rest) := (TakeMessage(CURRENT, b).value, TakeMessage(CURRENT, b).rest);
    MessageSpells(b);
    if |Encode(m)| == |b| - |rest| {
      assert b == Encode(m) + rest;
    }
  }

  /** A request id of zero padded to two bytes: the decoder accepts a spelling
      the encoder never writes, for every message that leaves room for it. */
  lemma PaddedMessageIsAccepted(m: ChunkMessage)
    requires m.requestId == 0 && |Encode(m)| < MAX_WIRE_MESSAGE_SIZE
    ensures var b := [128, 0] + Encode(m)[1..];
            Decode(b) == Success(m) && b != Encode(m)
  {
    var fields := Encode(m)[1..];
    assert Encode(m) == Varint(0) + fields;
    assert Encode(m) + [] == Encode(m);
    ChunkMessageProofs.MessageRoundTrip(m, []);
    U64RoundTrip(0, fields);
    PaddedZeroIsAccepted(fields);
    assert TakeU64([128, 0] + fields) == Ok(0, fields);
  }
}
