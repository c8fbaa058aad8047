/** What the chunk messages are on the wire, as one table of numbers and raw bytes:
    the encoder writes the table and the decoder accepts exactly its spellings. */
module ChunkWire {
  import opened Wrappers
  import opened ByteStrings
  import opened Postcard
  import opened PostcardPieces
  import opened ChunkMessages

  // ---------------------------------------------------------------------------
  // The table
  // ---------------------------------------------------------------------------

  /** A variant's place in its enum and its fields, in the order declared. */
  datatype Variant = Variant(place: uint32, fields: seq<Piece>) {
    function Pieces(): seq<Piece> {
      [Narrow(place)] + fields
    }
  }

  function ErrorTable(e: ProtocolError): Variant {
    match e
    case SerializationFailed(reason) => Variant(0, Counted(reason))
    case DeserializationFailed(reason) => Variant(1, Counted(reason))
    case MessageTooLarge(size, maxSize) => Variant(2, [Wide(size), Wide(maxSize)])
    case ChunkTooLarge(size, maxSize) => Variant(3, [Wide(size), Wide(maxSize)])
    case AddressMismatch(expected, actual) => Variant(4, [Raw(expected), Raw(actual)])
    case StorageFailed(reason) => Variant(5, Counted(reason))
    case PaymentFailed(reason) => Variant(6, Counted(reason))
    case QuoteFailed(reason) => Variant(7, Counted(reason))
    case Internal(reason) => Variant(8, Counted(reason))
    case ClientUpdateRequired(client, min) => Variant(9, [Narrow(client), Narrow(min)])
    case StorerUpdateRequired(client, node) => Variant(10, [Narrow(client), Narrow(node)])
  }

  function ErrorPieces(e: ProtocolError): seq<Piece> {
    ErrorTable(e).Pieces()
  }

  function PutTable(r: ChunkPutResponse): Variant {
    match r
    case PutSuccess(address) => Variant(0, [Raw(address)])
    case PutAlreadyExists(address) => Variant(1, [Raw(address)])
    case PutPaymentRequired(message) => Variant(2, Counted(message))
    case PutError(e) => Variant(3, ErrorPieces(e))
  }

  function GetTable(r: ChunkGetResponse): Variant {
    match r
    case GetSuccess(address, content) => Variant(0, [Raw(address)] + Counted(content))
    case GetNotFound(address) => Variant(1, [Raw(address)])
    case GetError(e) => Variant(2, ErrorPieces(e))
  }

  function QuoteTable(r: ChunkQuoteResponse): Variant {
    match r
    case QuoteSuccess(quote, stored, commitment) => Variant(0, Counted(quote) + (Flag(stored) + Optional(commitment)))
    case QuoteError(e) => Variant(1, ErrorPieces(e))
  }

  function MerkleTable(r: MerkleCandidateQuoteResponse): Variant {
    match r
    case CandidateSuccess(node, commitment) => Variant(0, Counted(node) + Optional(commitment))
    case CandidateError(e) => Variant(1, ErrorPieces(e))
  }

  function PointerPutTable(r: PointerPutResponse): Variant {
    match r
    case PointerPutSuccess(address, id) => Variant(0, [Raw(address), Raw(id)])
    case PointerPutUnchanged(address, id) => Variant(1, [Raw(address), Raw(id)])
    case PointerPutStale(address, id) => Variant(2, [Raw(address), Raw(id)])
    case PointerPutPaymentRequired(message) => Variant(3, Counted(message))
    case PointerPutError(e) => Variant(4, ErrorPieces(e))
  }

  function PointerGetTable(r: PointerGetResponse): Variant {
    match r
    case PointerGetSuccess(record) => Variant(0, Counted(record))
    case PointerGetNotFound(address) => Variant(1, [Raw(address)])
    case PointerGetError(e) => Variant(2, ErrorPieces(e))
  }

  function GetOrCloserTable(r: ChunkGetOrCloserResponse): Variant {
    match r
    case Found(address, content) => Variant(0, [Raw(address)] + Counted(content))
    case CloserPeers(address, peers) => Variant(1, [Raw(address)] + Counted(peers))
    case GetOrCloserError(e) => Variant(2, ErrorPieces(e))
  }

  /** A response, by its variant in its own enum. */
  function ResponseTable(body: ChunkMessageBody): Variant
    requires IsResponse(body)
  {
    match body
    case PutResponse(r) => PutTable(r)
    case GetResponse(r) => GetTable(r)
    case QuoteResponse(r) => QuoteTable(r)
    case MerkleResponse(r) => MerkleTable(r)
    case PointerPutReply(r) => PointerPutTable(r)
    case PointerGetReply(r) => PointerGetTable(r)
    case GetOrCloserReply(r) => GetOrCloserTable(r)
  }

  function QuotePieces(r: ChunkQuoteRequest): seq<Piece> {
    [Raw(r.address), Wide(r.dataSize), Narrow(r.dataType)]
  }

  function MerklePieces(r: MerkleCandidateQuoteRequest): seq<Piece> {
    [Raw(r.address), Narrow(r.dataType), Wide(r.dataSize), Wide(r.timestamp)]
  }

  function BodyTable(body: ChunkMessageBody): Variant {
    match body
    case PutRequest(r) => Variant(0, [Raw(r.address)] + (Counted(r.content) + Optional(r.paymentProof)))
    case PutResponse(r) => Variant(1, PutTable(r).Pieces())
    case GetRequest(address) => Variant(2, [Raw(address)])
    case GetResponse(r) => Variant(3, GetTable(r).Pieces())
    case QuoteRequest(r) => Variant(4, QuotePieces(r))
    case QuoteResponse(r) => Variant(5, QuoteTable(r).Pieces())
    case MerkleRequest(r) => Variant(6, MerklePieces(r))
    case MerkleResponse(r) => Variant(7, MerkleTable(r).Pieces())
    case QuoteRequestV2(r, version) => Variant(8, QuotePieces(r) + [Narrow(version)])
    case MerkleRequestV2(r, version) => Variant(9, MerklePieces(r) + [Narrow(version)])
    case PointerPut(r) => Variant(10, Counted(r.record) + Optional(r.paymentProof))
    case PointerPutReply(r) => Variant(11, PointerPutTable(r).Pieces())
    case PointerGet(address) => Variant(12, [Raw(address)])
    case PointerGetReply(r) => Variant(13, PointerGetTable(r).Pieces())
    case GetOrCloserRequest(address) => Variant(14, [Raw(address)])
    case GetOrCloserReply(r) => Variant(15, GetOrCloserTable(r).Pieces())
  }

  function MessagePieces(m: ChunkMessage): seq<Piece> {
    [Wide(m.requestId)] + BodyTable(m.body).Pieces()
  }

  // ---------------------------------------------------------------------------
  // The encoder
  // ---------------------------------------------------------------------------

  lemma ErrorFieldsWriting(e: ProtocolError)
    ensures EncodeErrorFields(e) == Write(ErrorTable(e).fields)
  {
    match e {
      case MessageTooLarge(size, max) => NumbersWriting(size, max);
      case ChunkTooLarge(size, max) => NumbersWriting(size, max);
      case AddressMismatch(x, y) => WriteTwo(Raw(x), Raw(y));
      case ClientUpdateRequired(x, y) => NumbersWriting(x, y);
      case StorerUpdateRequired(x, y) => NumbersWriting(x, y);
      case _ => CountedWriting(e.reason);
    }
  }

  /** A variant is its index, then its fields. */
  lemma VariantWriting(t: Variant)
    ensures Write(t.Pieces()) == Varint(t.place) + Write(t.fields)
  {
    WriteBoth([Narrow(t.place)], t.fields);
    WriteOne(Narrow(t.place));
    NumbersAreVarints(t.place);
  }

  lemma ErrorPlace(e: ProtocolError)
    ensures ErrorTable(e).place == e.Index()
  {
  }

  lemma ErrorWriting(e: ProtocolError)
    ensures EncodeError(e) == Write(ErrorPieces(e))
  {
    ErrorPlace(e);
    ErrorFieldsWriting(e);
    VariantWriting(ErrorTable(e));
  }

  lemma QuoteRequestWriting(r: ChunkQuoteRequest)
    ensures EncodeQuoteRequest(r) == Write(QuotePieces(r))
  {
    WriteBoth([Raw(r.address)], [Wide(r.dataSize), Narrow(r.dataType)]);
    WriteOne(Raw(r.address));
    WriteTwo(Wide(r.dataSize), Narrow(r.dataType));
    NumbersAreVarints(r.dataSize);
    NumbersAreVarints(r.dataType);
  }

  lemma MerkleRequestWriting(r: MerkleCandidateQuoteRequest)
    ensures EncodeMerkleRequest(r) == Write(MerklePieces(r))
  {
    WriteBoth([Raw(r.address), Narrow(r.dataType)], [Wide(r.dataSize), Wide(r.timestamp)]);
    WriteTwo(Raw(r.address), Narrow(r.dataType));
    NumbersAreVarints(r.dataType);
    NumbersWriting(r.dataSize, r.timestamp);
  }

  lemma RequestWriting(body: ChunkMessageBody)
    requires !IsResponse(body)
    ensures EncodeFields(body) == Write(BodyTable(body).fields)
  {
    match body {
      case PutRequest(r) =>
        CountedOptionalWriting(r.content, r.paymentProof);
        WriteBoth([Raw(r.address)], Counted(r.content) + Optional(r.paymentProof));
        WriteOne(Raw(r.address));
      case GetRequest(a) => WriteOne(Raw(a));
      case QuoteRequest(r) => QuoteRequestWriting(r);
      case MerkleRequest(r) => MerkleRequestWriting(r);
      case QuoteRequestV2(r, version) =>
        QuoteRequestWriting(r);
        VersionWriting(QuotePieces(r), version);
      case MerkleRequestV2(r, version) =>
        MerkleRequestWriting(r);
        VersionWriting(MerklePieces(r), version);
      case PointerPut(r) => CountedOptionalWriting(r.record, r.paymentProof);
      case PointerGet(a) => WriteOne(Raw(a));
      case GetOrCloserRequest(a) => WriteOne(Raw(a));
    }
  }

  lemma VersionWriting(original: seq<Piece>, version: uint32)
    ensures Write(original + [Narrow(version)]) == Write(original) + Varint(version)
  {
    WriteBoth(original, [Narrow(version)]);
    WriteOne(Narrow(version));
    NumbersAreVarints(version);
  }

  ghost predicate WrittenByTable(body: ChunkMessageBody)
    requires IsResponse(body)
  {
    EncodeFields(body) == Varint(ResponseTable(body).place) + Write(ResponseTable(body).fields)
  }

  lemma ChunkResponseWriting(body: ChunkMessageBody)
    requires (body.PutResponse? || body.GetResponse? || body.GetOrCloserReply?) && body.Error() == None
    ensures WrittenByTable(body)
  {
    match body {
      case PutResponse(PutSuccess(a)) => WriteOne(Raw(a));
      case PutResponse(PutAlreadyExists(a)) => WriteOne(Raw(a));
      case PutResponse(PutPaymentRequired(message)) => CountedWriting(message);
      case GetResponse(GetSuccess(a, content)) => NameCountedWriting(a, content);
      case GetResponse(GetNotFound(a)) => WriteOne(Raw(a));
      case GetOrCloserReply(Found(a, content)) => NameCountedWriting(a, content);
      case GetOrCloserReply(CloserPeers(a, peers)) => NameCountedWriting(a, peers);
    }
  }

  lemma QuoteResponseWriting(body: ChunkMessageBody)
    requires (body.QuoteResponse? || body.MerkleResponse?) && body.Error() == None
    ensures WrittenByTable(body)
  {
    match body {
      case QuoteResponse(QuoteSuccess(quote, stored, commitment)) =>
        CountedWriting(quote);
        FlagWriting(stored);
        OptionalWriting(commitment);
        WriteBoth(Flag(stored), Optional(commitment));
        WriteBoth(Counted(quote), Flag(stored) + Optional(commitment));
      case MerkleResponse(CandidateSuccess(node, commitment)) =>
        CountedOptionalWriting(node, commitment);
    }
  }

  lemma PointerReplyWriting(body: ChunkMessageBody)
    requires (body.PointerPutReply? || body.PointerGetReply?) && body.Error() == None
    ensures WrittenByTable(body)
  {
    match body {
      case PointerPutReply(PointerPutSuccess(a, id)) => WriteTwo(Raw(a), Raw(id));
      case PointerPutReply(PointerPutUnchanged(a, id)) => WriteTwo(Raw(a), Raw(id));
      case PointerPutReply(PointerPutStale(a, id)) => WriteTwo(Raw(a), Raw(id));
      case PointerPutReply(PointerPutPaymentRequired(message)) => CountedWriting(message);
      case PointerGetReply(PointerGetSuccess(record)) => CountedWriting(record);
      case PointerGetReply(PointerGetNotFound(a)) => WriteOne(Raw(a));
    }
  }

  lemma PlainResponseWriting(body: ChunkMessageBody)
    requires IsResponse(body) && body.Error() == None
    ensures WrittenByTable(body)
  {
    if body.QuoteResponse? || body.MerkleResponse? {
      QuoteResponseWriting(body);
    } else if body.PointerPutReply? || body.PointerGetReply? {
      PointerReplyWriting(body);
    } else {
      ChunkResponseWriting(body);
    }
  }

  lemma ErrorBodies(body: ChunkMessageBody)
    requires body.Error().Some?
    ensures ErrorVariant(body.Index()) > 0 && body == ErrorResponse(body.Index(), body.Error().value)
  {
  }

  lemma ErrorResponsePieces(index: nat, e: ProtocolError)
    requires ErrorVariant(index) > 0
    ensures BodyTable(ErrorResponse(index, e)).fields == [Narrow(ErrorVariant(index))] + ErrorPieces(e)
  {
  }

  lemma ErrorResponseFields(index: nat, e: ProtocolError)
    requires ErrorVariant(index) > 0
    ensures EncodeFields(ErrorResponse(index, e)) == Varint(ErrorVariant(index)) + EncodeError(e)
  {
  }

  lemma ErrorResponseWriting(index: nat, e: ProtocolError)
    requires ErrorVariant(index) > 0
    ensures EncodeFields(ErrorResponse(index, e)) == Write(BodyTable(ErrorResponse(index, e)).fields)
  {
    ErrorResponseFields(index, e);
    ErrorResponsePieces(index, e);
    ErrorWriting(e);
    VariantWriting(Variant(ErrorVariant(index), ErrorPieces(e)));
  }

  lemma ResponsePieces(body: ChunkMessageBody)
    requires IsResponse(body)
    ensures BodyTable(body).fields == [Narrow(ResponseTable(body).place)] + ResponseTable(body).fields
  {
  }

  lemma BodyPlace(body: ChunkMessageBody)
    ensures BodyTable(body).place == body.Index()
  {
  }

  lemma FieldsWriting(body: ChunkMessageBody)
    ensures EncodeFields(body) == Write(BodyTable(body).fields)
  {
    if body.Error().Some? {
      ErrorBodies(body);
      ErrorResponseWriting(body.Index(), body.Error().value);
    } else if IsResponse(body) {
      PlainResponseWriting(body);
      ResponsePieces(body);
      VariantWriting(ResponseTable(body));
    } else {
      RequestWriting(body);
    }
  }

  /** The encoder writes the table: every field in its declared place, every
      variant by its declared index, every number in its shortest spelling. */
  lemma MessageWriting(m: ChunkMessage)
    ensures Encode(m) == Write(MessagePieces(m))
  {
    BodyPlace(m.body);
    FieldsWriting(m.body);
    VariantWriting(BodyTable(m.body));
    WriteBoth([Wide(m.requestId)], BodyTable(m.body).Pieces());
    WriteOne(Wide(m.requestId));
    NumbersAreVarints(m.requestId);
  }
}
