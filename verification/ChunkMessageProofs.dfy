/** Round trips of the chunk messages: a decoder reads back what the encoder
    wrote and leaves exactly what followed it. */
module ChunkMessageProofs {
  import opened Wrappers
  import opened ByteStrings
  import opened Postcard
  import opened PostcardPieces
  import opened ChunkMessages
  import opened ChunkWire
  import opened ChunkReading

  /** Every error's fields read back, and leave what followed. */
  lemma ErrorFieldsRoundTrip(e: ProtocolError, rest: Bytes)
    ensures TakeErrorFields(e.Index(), EncodeErrorFields(e) + rest) == Ok(e, rest)
  {
    ErrorFieldsWriting(e);
    AfterWritten(ErrorTable(e).fields, rest);
    ErrorFieldsReading(e, EncodeErrorFields(e) + rest);
  }

  /** Errors read back in every build, from the place the build gives them. */
  lemma ErrorRoundTrip(v: Build, place: uint32, e: ProtocolError, rest: Bytes)
    requires place < |v.errors| && v.errors[place] == e.Index()
    ensures TakeError(v, Varint(place) + EncodeErrorFields(e) + rest) == Ok(e, rest)
  {
    var placed := Variant(place, ErrorTable(e).fields);
    ErrorFieldsWriting(e);
    VariantWriting(placed);
    AfterWritten(placed.Pieces(), rest);
    ErrorAtPlaceReading(v, place, e, Varint(place) + EncodeErrorFields(e) + rest);
  }

  /** ... and so does a response that carries one. */
  lemma ErrorResponseRoundTrip(v: Build, index: nat, place: uint32, e: ProtocolError, rest: Bytes)
    requires ErrorVariant(index) > 0 && place < |v.errors| && v.errors[place] == e.Index()
    ensures TakeFields(v, index, Varint(ErrorVariant(index)) + (Varint(place) + EncodeErrorFields(e)) + rest) ==
            Ok(ErrorResponse(index, e), rest)
  {
    var placed := Variant(place, ErrorTable(e).fields);
    var response := Variant(ErrorVariant(index), placed.Pieces());
    ErrorFieldsWriting(e);
    VariantWriting(placed);
    VariantWriting(response);
    AfterWritten(response.Pieces(), rest);
    ErrorResponseAtPlaceReading(v, index, place, e, Write(response.Pieces()) + rest);
  }

  lemma ErrorResponseLayout(body: ChunkMessageBody, e: ProtocolError)
    requires body.Error() == Some(e)
    ensures IsResponse(body) && body == ErrorResponse(body.Index(), e)
    ensures EncodeFields(body) == Varint(ErrorVariant(body.Index())) + EncodeError(e)
  {
  }

  /** A body without an error reads back in every build. */
  lemma PlainFieldsRoundTrip(v: Build, body: ChunkMessageBody, rest: Bytes)
    requires body.Error() == None
    ensures TakeFields(v, body.Index(), EncodeFields(body) + rest) == Ok(body, rest)
  {
    FieldsWriting(body);
    AfterWritten(BodyTable(body).fields, rest);
    PlainFieldsReading(v, body, EncodeFields(body) + rest);
  }

  lemma FieldsRoundTrip(body: ChunkMessageBody, rest: Bytes)
    ensures TakeFields(CURRENT, body.Index(), EncodeFields(body) + rest) == Ok(body, rest)
  {
    FieldsWriting(body);
    AfterWritten(BodyTable(body).fields, rest);
    FieldsReading(body, EncodeFields(body) + rest);
  }

  /** Whatever follows a message is left untouched. */
  lemma MessageRoundTrip(m: ChunkMessage, rest: Bytes)
    ensures TakeMessage(CURRENT, Encode(m) + rest) == Ok(m, rest)
  {
    MessageWriting(m);
    AfterWritten(MessagePieces(m), rest);
    MessageReading(m, Encode(m) + rest);
  }

  /** A message decodes from its encoding, with anything behind it, exactly when
      the whole fits the cap; the encoder does not check. */
  lemma DecodeOfEncode(m: ChunkMessage, rest: Bytes)
    ensures var b := Encode(m) + rest;
            Decode(b) == if |b| <= 5_242_880 then Success(m) else Failure(TooLarge(|b|, 5_242_880))
  {
    MessageRoundTrip(m, rest);
  }

  /** No message's encoding is a proper prefix of another's, so the encoding is
      injective even inside a stream. */
  lemma EncodingIsPrefixFree(m: ChunkMessage, n: ChunkMessage, afterM: Bytes, afterN: Bytes)
    requires Encode(m) + afterM == Encode(n) + afterN
    ensures m == n && afterM == afterN
  {
    MessageRoundTrip(m, afterM);
    MessageRoundTrip(n, afterN);
  }

  // ---------------------------------------------------------------------------
  // Sizes
  // ---------------------------------------------------------------------------

  lemma PutLength(m: ChunkMessage)
    requires m.body.PutRequest?
    ensures var r := m.body.put;
            |Encode(m)| == |Varint(m.requestId)| + 33 + |Varint(|r.content|)| + |r.content| + 1 +
                           (if r.paymentProof.None? then 0
                            else |Varint(|r.paymentProof.value|)| + |r.paymentProof.value|)
  {
  }

  lemma Powers()
    ensures Pow128(2) == 0x4000 && Pow128(3) == 0x20_0000 && Pow128(4) == 0x1000_0000
    ensures Pow128(9) == 0x8000_0000_0000_0000 && Pow128(10) > UINT64_MAX
  {
    assert Pow128(6) == 0x400_0000_0000;
    assert Pow128(8) == 0x100_0000_0000_0000;
  }

  /** Every PUT within the chunk limit and with a proof of at most 1 MiB less
      64 bytes fits the cap, so it decodes. */
  lemma PutFitsTheCap(m: ChunkMessage)
    requires m.body.PutRequest? && |m.body.put.content| <= 4_194_304
    requires m.body.put.paymentProof.Some? ==> |m.body.put.paymentProof.value| <= 1_048_576 - 64
    ensures Decode(Encode(m)) == Success(m)
  {
    var r := m.body.put;
    PutLength(m);
    Powers();
    VarintLength(m.requestId, 10);
    VarintLength(|r.content|, 4);
    if r.paymentProof.Some? {
      VarintLength(|r.paymentProof.value|, 3);
    }
    assert Encode(m) + [] == Encode(m);
    DecodeOfEncode(m, []);
  }

  /** For a full-size chunk the exact limit is 51 bytes below 1 MiB: proofs up
      to it fit whatever the request id, longer ones fail for some id. */
  lemma ExactProofLimit(address: XorName, content: Blob, proof: Blob)
    requires |content| == 4_194_304
    ensures (forall id: uint64 ::
               Decode(Encode(ChunkMessage(id, PutRequest(ChunkPutRequest(address, content, Some(proof)))))).Success?)
            <==> |proof| <= 1_048_576 - 51
  {
    Powers();
    VarintLength(|content|, 4);
    VarintLength(|content|, 3);
    VarintLength(|proof|, 3);
    VarintLength(|proof|, 2);
    forall id: uint64
      ensures var m := ChunkMessage(id, PutRequest(ChunkPutRequest(address, content, Some(proof))));
              Decode(Encode(m)).Success? <==>
                |Varint(id)| + 38 + |content| + |Varint(|proof|)| + |proof| <= MAX_WIRE_MESSAGE_SIZE
    {
      var m := ChunkMessage(id, PutRequest(ChunkPutRequest(address, content, Some(proof))));
      PutLength(m);
      assert Encode(m) + [] == Encode(m);
      DecodeOfEncode(m, []);
    }
    if |proof| <= 1_048_576 - 51 {
      forall id: uint64
        ensures |Varint(id)| <= 10
      {
        VarintLength(id, 10);
      }
    } else {
      VarintLength(UINT64_MAX, 9);
      var m := ChunkMessage(UINT64_MAX, PutRequest(ChunkPutRequest(address, content, Some(proof))));
      assert !Decode(Encode(m)).Success?;
    }
  }
}
