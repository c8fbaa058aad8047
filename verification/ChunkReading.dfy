/** The decoder against the table: on every input it accepts exactly the spellings
    of the pieces, and leaves what follows them. */
module ChunkReading {
  import opened Wrappers
  import opened ByteStrings
  import opened Postcard
  import opened PostcardPieces
  import opened ChunkMessages
  import opened ChunkWire

  // Two fields in a row.

  lemma NamesReading(x: XorName, y: XorName, b: Bytes)
    ensures After([Raw(x), Raw(y)], b) ==
            match TakeName(b)
            case Bad(_) => None
            case Ok(v, rest) => if v == x then Reading(TakeName(rest), y) else None
  {
    AfterBoth([Raw(x)], [Raw(y)], b);
    NameReading(x, b);
    if TakeName(b).Ok? {
      NameReading(y, TakeName(b).rest);
    }
  }

  lemma WidesReading(x: uint64, y: uint64, b: Bytes)
    ensures After([Wide(x), Wide(y)], b) ==
            match TakeU64(b)
            case Bad(_) => None
            case Ok(v, rest) => if v == x then Reading(TakeU64(rest), y) else None
  {
    AfterBoth([Wide(x)], [Wide(y)], b);
    WideReading(x, b);
    if TakeU64(b).Ok? {
      WideReading(y, TakeU64(b).rest);
    }
  }

  lemma NarrowsReading(x: uint32, y: uint32, b: Bytes)
    ensures After([Narrow(x), Narrow(y)], b) ==
            match TakeU32(b)
            case Bad(_) => None
            case Ok(v, rest) => if v == x then Reading(TakeU32(rest), y) else None
  {
    AfterBoth([Narrow(x)], [Narrow(y)], b);
    NarrowReading(x, b);
    if TakeU32(b).Ok? {
      NarrowReading(y, TakeU32(b).rest);
    }
  }

  lemma NameCountedReading(a: XorName, s: Blob, b: Bytes)
    ensures After([Raw(a)] + Counted(s), b) ==
            match TakeName(b)
            case Bad(_) => None
            case Ok(v, rest) => if v == a then Reading(TakeBlob(rest), s) else None
  {
    AfterBoth([Raw(a)], Counted(s), b);
    NameReading(a, b);
    if TakeName(b).Ok? {
      CountedReading(s, TakeName(b).rest);
    }
  }

  lemma CountedOptionalReading(s: Blob, v: Option<Blob>, b: Bytes)
    ensures After(Counted(s) + Optional(v), b) ==
            match TakeBlob(b)
            case Bad(_) => None
            case Ok(blob, rest) => if blob == s then Reading(TakeOption(rest), v) else None
  {
    AfterBoth(Counted(s), Optional(v), b);
    CountedReading(s, b);
    if TakeBlob(b).Ok? {
      OptionalReading(v, TakeBlob(b).rest);
    }
  }

  // ---------------------------------------------------------------------------
  // Errors
  // ---------------------------------------------------------------------------

  lemma TextErrorReading(e: ProtocolError, b: Bytes)
    requires e.Index() in {0, 1, 5, 6, 7, 8}
    ensures ErrorTable(e).fields == Counted(e.reason)
    ensures After(Counted(e.reason), b) == Reading(TakeTextError(e.Index(), b), e)
  {
    TextReading(e.reason, b);
  }

  lemma VersionErrorReading(e: ProtocolError, b: Bytes)
    requires e.ClientUpdateRequired? || e.StorerUpdateRequired?
    ensures After(ErrorTable(e).fields, b) == Reading(TakeVersionError(e.Index(), b), e)
  {
    match e {
      case ClientUpdateRequired(x, y) => NarrowsReading(x, y, b);
      case StorerUpdateRequired(x, y) => NarrowsReading(x, y, b);
    }
  }

  lemma SizeErrorReading(e: ProtocolError, b: Bytes)
    requires e.MessageTooLarge? || e.ChunkTooLarge?
    ensures After(ErrorTable(e).fields, b) == Reading(TakeSizeError(e.Index(), b), e)
  {
    WidesReading(e.size, e.maxSize, b);
  }

  lemma ErrorFieldsReading(e: ProtocolError, b: Bytes)
    ensures After(ErrorTable(e).fields, b) == Reading(TakeErrorFields(e.Index(), b), e)
  {
    if e.MessageTooLarge? || e.ChunkTooLarge? {
      SizeErrorReading(e, b);
    } else if e.AddressMismatch? {
      NamesReading(e.expected, e.actual, b);
    } else if e.ClientUpdateRequired? || e.StorerUpdateRequired? {
      VersionErrorReading(e, b);
    } else {
      TextErrorReading(e, b);
    }
  }

  /** A build that has the error at `place` reads every spelling of it there. */
  lemma ErrorAtPlaceReading(v: Build, place: uint32, e: ProtocolError, b: Bytes)
    requires place < |v.errors| && v.errors[place] == e.Index()
    ensures var after := After([Narrow(place)] + ErrorTable(e).fields, b);
            after.Some? ==> TakeError(v, b) == Ok(e, after.value)
  {
    AfterBoth([Narrow(place)], ErrorTable(e).fields, b);
    NarrowReading(place, b);
    if TakeU32(b).Ok? {
      ErrorFieldsReading(e, TakeU32(b).rest);
    }
  }

  lemma ErrorReading(e: ProtocolError, b: Bytes)
    ensures After(ErrorPieces(e), b) == Reading(TakeError(CURRENT, b), e)
  {
    AfterBoth([Narrow(e.Index())], ErrorTable(e).fields, b);
    ErrorPlace(e);
    NarrowReading(e.Index(), b);
    if TakeU32(b).Ok? {
      ErrorFieldsReading(e, TakeU32(b).rest);
    }
  }

  // ---------------------------------------------------------------------------
  // Requests
  // ---------------------------------------------------------------------------

  lemma PutRequestReading(r: ChunkPutRequest, b: Bytes)
    ensures After([Raw(r.address)] + (Counted(r.content) + Optional(r.paymentProof)), b) ==
            Reading(TakePutRequest(b), r)
  {
    AfterBoth([Raw(r.address)], Counted(r.content) + Optional(r.paymentProof), b);
    NameReading(r.address, b);
    if TakeName(b).Ok? {
      CountedOptionalReading(r.content, r.paymentProof, TakeName(b).rest);
    }
  }

  lemma QuoteRequestReading(r: ChunkQuoteRequest, b: Bytes)
    ensures After(QuotePieces(r), b) == Reading(TakeQuoteRequest(b), r)
  {
    AfterBoth([Raw(r.address)], [Wide(r.dataSize), Narrow(r.dataType)], b);
    NameReading(r.address, b);
    if TakeName(b).Ok? {
      var b1 := TakeName(b).rest;
      AfterBoth([Wide(r.dataSize)], [Narrow(r.dataType)], b1);
      WideReading(r.dataSize, b1);
      if TakeU64(b1).Ok? {
        NarrowReading(r.dataType, TakeU64(b1).rest);
      }
    }
  }

  lemma MerkleRequestReading(r: MerkleCandidateQuoteRequest, b: Bytes)
    ensures After(MerklePieces(r), b) == Reading(TakeMerkleRequest(b), r)
  {
    AfterBoth([Raw(r.address)], [Narrow(r.dataType), Wide(r.dataSize), Wide(r.timestamp)], b);
    NameReading(r.address, b);
    if TakeName(b).Ok? {
      var b1 := TakeName(b).rest;
      AfterBoth([Narrow(r.dataType)], [Wide(r.dataSize), Wide(r.timestamp)], b1);
      NarrowReading(r.dataType, b1);
      if TakeU32(b1).Ok? {
        WidesReading(r.dataSize, r.timestamp, TakeU32(b1).rest);
      }
    }
  }

  lemma QuoteV2Reading(r: ChunkQuoteRequest, version: uint32, b: Bytes)
    ensures After(QuotePieces(r) + [Narrow(version)], b) ==
            Reading(QuoteRequestAndVersion(TakeQuoteRequest(b)), QuoteRequestV2(r, version))
  {
    AfterBoth(QuotePieces(r), [Narrow(version)], b);
    QuoteRequestReading(r, b);
    if TakeQuoteRequest(b).Ok? {
      NarrowReading(version, TakeQuoteRequest(b).rest);
    }
  }

  lemma MerkleV2Reading(r: MerkleCandidateQuoteRequest, version: uint32, b: Bytes)
    ensures After(MerklePieces(r) + [Narrow(version)], b) ==
            Reading(MerkleRequestAndVersion(TakeMerkleRequest(b)), MerkleRequestV2(r, version))
  {
    AfterBoth(MerklePieces(r), [Narrow(version)], b);
    MerkleRequestReading(r, b);
    if TakeMerkleRequest(b).Ok? {
      NarrowReading(version, TakeMerkleRequest(b).rest);
    }
  }

  lemma OriginalRequestReading(body: ChunkMessageBody, b: Bytes)
    requires !IsResponse(body) && body.Index() < 8
    ensures After(BodyTable(body).fields, b) == Reading(TakeRequest(body.Index(), b), body)
  {
    match body {
      case PutRequest(r) => PutRequestReading(r, b);
      case GetRequest(a) => NameReading(a, b);
      case QuoteRequest(r) => QuoteRequestReading(r, b);
      case MerkleRequest(r) => MerkleRequestReading(r, b);
    }
  }

  lemma AppendedRequestReading(body: ChunkMessageBody, b: Bytes)
    requires !IsResponse(body) && body.Index() >= 8
    ensures After(BodyTable(body).fields, b) == Reading(TakeRequest(body.Index(), b), body)
  {
    match body {
      case QuoteRequestV2(r, version) => QuoteV2Reading(r, version, b);
      case MerkleRequestV2(r, version) => MerkleV2Reading(r, version, b);
      case PointerPut(r) => CountedOptionalReading(r.record, r.paymentProof, b);
      case PointerGet(a) => NameReading(a, b);
      case GetOrCloserRequest(a) => NameReading(a, b);
    }
  }

  // ---------------------------------------------------------------------------
  // Responses
  // ---------------------------------------------------------------------------

  /** The response's own fields, after its variant, are read by the table. */
  ghost predicate ReadByTable(body: ChunkMessageBody, b: Bytes)
    requires IsResponse(body)
  {
    var t := ResponseTable(body);
    && t.place < ErrorVariant(body.Index())
    && After(t.fields, b) == Reading(TakeResponse(body.Index(), t.place, b), body)
  }

  lemma StorageResponseReading(body: ChunkMessageBody, b: Bytes)
    requires (body.PutResponse? || body.GetResponse?) && body.Error() == None
    ensures ReadByTable(body, b)
  {
    match body {
      case PutResponse(PutSuccess(a)) => NameReading(a, b);
      case PutResponse(PutAlreadyExists(a)) => NameReading(a, b);
      case PutResponse(PutPaymentRequired(message)) => TextReading(message, b);
      case GetResponse(GetSuccess(a, content)) => NameCountedReading(a, content, b);
      case GetResponse(GetNotFound(a)) => NameReading(a, b);
    }
  }

  lemma QuoteResponseReading(body: ChunkMessageBody, b: Bytes)
    requires (body.QuoteResponse? || body.MerkleResponse?) && body.Error() == None
    ensures ReadByTable(body, b)
  {
    match body {
      case QuoteResponse(QuoteSuccess(quote, stored, commitment)) =>
        AfterBoth(Counted(quote), Flag(stored) + Optional(commitment), b);
        CountedReading(quote, b);
        if TakeBlob(b).Ok? {
          var b1 := TakeBlob(b).rest;
          AfterBoth(Flag(stored), Optional(commitment), b1);
          FlagReading(stored, b1);
          if TakeBool(b1).Ok? {
            OptionalReading(commitment, TakeBool(b1).rest);
          }
        }
      case MerkleResponse(CandidateSuccess(node, commitment)) =>
        CountedOptionalReading(node, commitment, b);
    }
  }

  lemma PointerPutReplyReading(body: ChunkMessageBody, b: Bytes)
    requires body.PointerPutReply? && body.Error() == None
    ensures ReadByTable(body, b)
  {
    match body {
      case PointerPutReply(PointerPutPaymentRequired(message)) => TextReading(message, b);
      case PointerPutReply(PointerPutSuccess(a, id)) => NamesReading(a, id, b);
      case PointerPutReply(PointerPutUnchanged(a, id)) => NamesReading(a, id, b);
      case PointerPutReply(PointerPutStale(a, id)) => NamesReading(a, id, b);
    }
  }

  lemma PointerGetReplyReading(body: ChunkMessageBody, b: Bytes)
    requires body.PointerGetReply? && body.Error() == None
    ensures ReadByTable(body, b)
  {
    match body {
      case PointerGetReply(PointerGetSuccess(record)) => CountedReading(record, b);
      case PointerGetReply(PointerGetNotFound(a)) => NameReading(a, b);
    }
  }

  lemma GetOrCloserReplyReading(body: ChunkMessageBody, b: Bytes)
    requires body.GetOrCloserReply? && body.Error() == None
    ensures ReadByTable(body, b)
  {
    match body {
      case GetOrCloserReply(Found(a, content)) => NameCountedReading(a, content, b);
      case GetOrCloserReply(CloserPeers(a, peers)) => NameCountedReading(a, peers, b);
    }
  }

  lemma ResponseReading(body: ChunkMessageBody, b: Bytes)
    requires IsResponse(body) && body.Error() == None
    ensures ReadByTable(body, b)
  {
    if body.PutResponse? || body.GetResponse? {
      StorageResponseReading(body, b);
    } else if body.QuoteResponse? || body.MerkleResponse? {
      QuoteResponseReading(body, b);
    } else if body.PointerPutReply? {
      PointerPutReplyReading(body, b);
    } else if body.PointerGetReply? {
      PointerGetReplyReading(body, b);
    } else {
      GetOrCloserReplyReading(body, b);
    }
  }

  /** What is read after a variant is that variant. */
  lemma TagIsThePlace(index: nat, tag: nat, b: Bytes)
    requires tag < ErrorVariant(index) && TakeResponse(index, tag, b).Ok?
    ensures var body := TakeResponse(index, tag, b).value;
            IsResponse(body) && ResponseTable(body).place == tag
  {
  }

  /** A response is read by its variant: the error is the last of its enum. */
  lemma FieldsByTag(v: Build, index: nat, b: Bytes)
    requires ErrorVariant(index) > 0
    ensures match TakeU32(b)
            case Bad(_) => TakeFields(v, index, b).Bad?
            case Ok(tag, rest) =>
              if tag < ErrorVariant(index) then TakeFields(v, index, b) == TakeResponse(index, tag, rest)
              else if tag > ErrorVariant(index) || TakeError(v, rest).Bad? then TakeFields(v, index, b).Bad?
              else var e := TakeError(v, rest); TakeFields(v, index, b) == Ok(ErrorResponse(index, e.value), e.rest)
  {
  }

  lemma PlainResponseReading(v: Build, body: ChunkMessageBody, index: nat, b: Bytes)
    requires IsResponse(body) && body.Error() == None && index == body.Index()
    ensures After(BodyTable(body).fields, b) == Reading(TakeFields(v, index, b), body)
  {
    var t := ResponseTable(body);
    ResponsePieces(body);
    AfterBoth([Narrow(t.place)], t.fields, b);
    NarrowReading(t.place, b);
    FieldsByTag(v, index, b);
    ResponseReading(body, b);
    if TakeU32(b).Ok? {
      var Ok(tag, rest) := TakeU32(b);
      ResponseReading(body, rest);
      if tag < ErrorVariant(index) && TakeResponse(index, tag, rest).Ok? {
        TagIsThePlace(index, tag, rest);
      }
    }
  }

  /** A body without an error is read alike in every build. */
  lemma PlainFieldsReading(v: Build, body: ChunkMessageBody, b: Bytes)
    requires body.Error() == None
    ensures After(BodyTable(body).fields, b) == Reading(TakeFields(v, body.Index(), b), body)
  {
    if IsResponse(body) {
      PlainResponseReading(v, body, body.Index(), b);
    } else if body.Index() < 8 {
      OriginalRequestReading(body, b);
    } else {
      AppendedRequestReading(body, b);
    }
  }

  lemma ErrorResponseReading(index: nat, e: ProtocolError, b: Bytes)
    requires ErrorVariant(index) > 0
    ensures var body := ErrorResponse(index, e);
            After(BodyTable(body).fields, b) == Reading(TakeFields(CURRENT, index, b), body)
  {
    ErrorResponsePieces(index, e);
    AfterBoth([Narrow(ErrorVariant(index))], ErrorPieces(e), b);
    NarrowReading(ErrorVariant(index), b);
    FieldsByTag(CURRENT, index, b);
    if TakeU32(b).Ok? {
      ErrorReading(e, TakeU32(b).rest);
    }
  }

  /** ... and in a build that has the error at `place`, from there. */
  lemma ErrorResponseAtPlaceReading(v: Build, index: nat, place: uint32, e: ProtocolError, b: Bytes)
    requires ErrorVariant(index) > 0 && place < |v.errors| && v.errors[place] == e.Index()
    ensures var after := After([Narrow(ErrorVariant(index))] + ([Narrow(place)] + ErrorTable(e).fields), b);
            after.Some? ==> TakeFields(v, index, b) == Ok(ErrorResponse(index, e), after.value)
  {
    AfterBoth([Narrow(ErrorVariant(index))], [Narrow(place)] + ErrorTable(e).fields, b);
    NarrowReading(ErrorVariant(index), b);
    FieldsByTag(v, index, b);
    if TakeU32(b).Ok? {
      ErrorAtPlaceReading(v, place, e, TakeU32(b).rest);
    }
  }

  // ---------------------------------------------------------------------------
  // Messages
  // ---------------------------------------------------------------------------

  lemma FieldsReading(body: ChunkMessageBody, b: Bytes)
    ensures After(BodyTable(body).fields, b) == Reading(TakeFields(CURRENT, body.Index(), b), body)
  {
    if body.Error() == None {
      PlainFieldsReading(CURRENT, body, b);
    } else {
      ErrorBodies(body);
      ErrorResponseReading(body.Index(), body.Error().value, b);
    }
  }

  lemma TakenFieldsAreTheVariant(v: Build, index: nat, b: Bytes)
    ensures TakeFields(v, index, b).Ok? ==> TakeFields(v, index, b).value.Index() == index
  {
  }

  lemma BodyReading(body: ChunkMessageBody, b: Bytes)
    ensures After(BodyTable(body).Pieces(), b) ==
            match TakeVariant(b, BODY_VARIANTS)
            case Bad(_) => None
            case Ok(index, rest) => Reading(TakeFields(CURRENT, index, rest), body)
  {
    var t := BodyTable(body);
    BodyPlace(body);
    AfterBoth([Narrow(t.place)], t.fields, b);
    NarrowReading(t.place, b);
    if TakeU32(b).Ok? {
      var Ok(index, rest) := TakeU32(b);
      FieldsReading(body, rest);
      TakenFieldsAreTheVariant(CURRENT, index, rest);
    }
  }

  /** The decoder, on every input: it reads a message exactly from the spellings of
      its table, and leaves what follows. */
  lemma MessageReading(m: ChunkMessage, b: Bytes)
    ensures After(MessagePieces(m), b) == Reading(TakeMessage(CURRENT, b), m)
  {
    AfterBoth([Wide(m.requestId)], BodyTable(m.body).Pieces(), b);
    WideReading(m.requestId, b);
    if TakeU64(b).Ok? {
      BodyReading(m.body, TakeU64(b).rest);
    }
  }

  /** So a byte string decodes to a message exactly when it is at most 5 MiB and
      begins with a spelling of it; longer ones are refused by their size. */
  lemma DecodesExactlySpellings(b: Bytes, m: ChunkMessage)
    ensures Decode(b) == Success(m) <==> |b| <= 5_242_880 && After(MessagePieces(m), b).Some?
    ensures |b| > 5_242_880 <==> Decode(b) == Failure(TooLarge(|b|, 5_242_880))
  {
    MessageReading(m, b);
  }
}
