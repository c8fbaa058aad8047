/** The chunk protocol's messages and their Postcard encoding. Structs are their
    fields in order; enums are the variant's index, then its fields. */
module ChunkMessages {
  import opened Wrappers
  import opened ByteStrings
  import opened Postcard

  const MAX_WIRE_MESSAGE_SIZE := 5 * 1024 * 1024
  const CHUNK_PROTOCOL_ID := "autonomi.ant.chunk.v1"

  datatype ProtocolError =
    | SerializationFailed(reason: Text)
    | DeserializationFailed(reason: Text)
    | MessageTooLarge(size: uint64, maxSize: uint64)
    | ChunkTooLarge(size: uint64, maxSize: uint64)
    | AddressMismatch(expected: XorName, actual: XorName)
    | StorageFailed(reason: Text)
    | PaymentFailed(reason: Text)
    | QuoteFailed(reason: Text)
    | Internal(reason: Text)
    | ClientUpdateRequired(clientVersion: uint32, minVersion: uint32)
    | StorerUpdateRequired(clientVersion: uint32, nodeVersion: uint32)
  {
    function Index(): uint32 {
      match this
      case SerializationFailed(_) => 0
      case DeserializationFailed(_) => 1
      case MessageTooLarge(_, _) => 2
      case ChunkTooLarge(_, _) => 3
      case AddressMismatch(_, _) => 4
      case StorageFailed(_) => 5
      case PaymentFailed(_) => 6
      case QuoteFailed(_) => 7
      case Internal(_) => 8
      case ClientUpdateRequired(_, _) => 9
      case StorerUpdateRequired(_, _) => 10
    }
  }

  datatype ChunkPutRequest = ChunkPutRequest(address: XorName, content: Blob, paymentProof: Option<Blob>)

  datatype ChunkPutResponse =
    | PutSuccess(address: XorName)
    | PutAlreadyExists(address: XorName)
    | PutPaymentRequired(message: Text)
    | PutError(error: ProtocolError)

  datatype ChunkGetResponse =
    | GetSuccess(address: XorName, content: Blob)
    | GetNotFound(address: XorName)
    | GetError(error: ProtocolError)

  datatype ChunkQuoteRequest = ChunkQuoteRequest(address: XorName, dataSize: uint64, dataType: uint32)

  datatype ChunkQuoteResponse =
    | QuoteSuccess(quote: Blob, alreadyStored: bool, commitment: Option<Blob>)
    | QuoteError(error: ProtocolError)

  datatype MerkleCandidateQuoteRequest =
    MerkleCandidateQuoteRequest(address: XorName, dataType: uint32, dataSize: uint64, timestamp: uint64)

  datatype MerkleCandidateQuoteResponse =
    | CandidateSuccess(candidateNode: Blob, commitment: Option<Blob>)
    | CandidateError(error: ProtocolError)

  datatype PointerPutRequest = PointerPutRequest(record: Blob, paymentProof: Option<Blob>)

  datatype PointerPutResponse =
    | PointerPutSuccess(address: XorName, stateId: XorName)
    | PointerPutUnchanged(address: XorName, stateId: XorName)
    | PointerPutStale(address: XorName, stateId: XorName)
    | PointerPutPaymentRequired(message: Text)
    | PointerPutError(error: ProtocolError)

  datatype PointerGetResponse =
    | PointerGetSuccess(record: Blob)
    | PointerGetNotFound(address: XorName)
    | PointerGetError(error: ProtocolError)

  datatype ChunkGetOrCloserResponse =
    | Found(address: XorName, content: Blob)
    | CloserPeers(address: XorName, peers: Blob)
    | GetOrCloserError(error: ProtocolError)

  datatype ChunkMessageBody =
    | PutRequest(put: ChunkPutRequest)
    | PutResponse(putResponse: ChunkPutResponse)
    | GetRequest(address: XorName)
    | GetResponse(getResponse: ChunkGetResponse)
    | QuoteRequest(quote: ChunkQuoteRequest)
    | QuoteResponse(quoteResponse: ChunkQuoteResponse)
    | MerkleRequest(merkle: MerkleCandidateQuoteRequest)
    | MerkleResponse(merkleResponse: MerkleCandidateQuoteResponse)
    | QuoteRequestV2(quote: ChunkQuoteRequest, settlementVersion: uint32)
    | MerkleRequestV2(merkle: MerkleCandidateQuoteRequest, settlementVersion: uint32)
    | PointerPut(pointerPut: PointerPutRequest)
    | PointerPutReply(pointerPutResponse: PointerPutResponse)
    | PointerGet(address: XorName)
    | PointerGetReply(pointerGetResponse: PointerGetResponse)
    | GetOrCloserRequest(address: XorName)
    | GetOrCloserReply(getOrCloserResponse: ChunkGetOrCloserResponse)
  {
    /** The variant's wire index: its place in the declaration. */
    function Index(): uint32 {
      match this
      case PutRequest(_) => 0
      case PutResponse(_) => 1
      case GetRequest(_) => 2
      case GetResponse(_) => 3
      case QuoteRequest(_) => 4
      case QuoteResponse(_) => 5
      case MerkleRequest(_) => 6
      case MerkleResponse(_) => 7
      case QuoteRequestV2(_, _) => 8
      case MerkleRequestV2(_, _) => 9
      case PointerPut(_) => 10
      case PointerPutReply(_) => 11
      case PointerGet(_) => 12
      case PointerGetReply(_) => 13
      case GetOrCloserRequest(_) => 14
      case GetOrCloserReply(_) => 15
    }

    /** The error a response carries, if any. */
    function Error(): Option<ProtocolError> {
      match this
      case PutResponse(PutError(e)) => Some(e)
      case GetResponse(GetError(e)) => Some(e)
      case QuoteResponse(QuoteError(e)) => Some(e)
      case MerkleResponse(CandidateError(e)) => Some(e)
      case PointerPutReply(PointerPutError(e)) => Some(e)
      case PointerGetReply(PointerGetError(e)) => Some(e)
      case GetOrCloserReply(GetOrCloserError(e)) => Some(e)
      case _ => None
    }
  }

  datatype ChunkMessage = ChunkMessage(requestId: uint64, body: ChunkMessageBody)

  /** A build's declarations of the two evolving enums: which variant stands at
      each place. A variant's identity is its `Index`, its place today. */
  datatype Build = Build(bodies: seq<nat>, errors: seq<nat>)

  const BODY_VARIANTS := 16
  const ERROR_VARIANTS := 11

  function InOrder(n: nat): (table: seq<nat>)
    ensures |table| == n && forall i :: 0 <= i < n ==> table[i] == i
  {
    seq(n, i => i)
  }

  const CURRENT := Build(InOrder(BODY_VARIANTS), InOrder(ERROR_VARIANTS))

  // ---------------------------------------------------------------------------
  // Encoders
  // ---------------------------------------------------------------------------

  function EncodeErrorFields(e: ProtocolError): Bytes {
    match e
    case MessageTooLarge(size, max) => Varint(size) + Varint(max)
    case ChunkTooLarge(size, max) => Varint(size) + Varint(max)
    case AddressMismatch(expected, actual) => expected + actual
    case ClientUpdateRequired(client, min) => Varint(client) + Varint(min)
    case StorerUpdateRequired(client, node) => Varint(client) + Varint(node)
    case _ => EncodeBlob(e.reason)
  }

  function EncodeError(e: ProtocolError): Bytes {
    Varint(e.Index()) + EncodeErrorFields(e)
  }

  function EncodePutRequest(r: ChunkPutRequest): Bytes {
    r.address + (EncodeBlob(r.content) + EncodeOption(r.paymentProof))
  }

  function EncodePutResponse(r: ChunkPutResponse): Bytes {
    match r
    case PutSuccess(a) => Varint(0) + a
    case PutAlreadyExists(a) => Varint(1) + a
    case PutPaymentRequired(message) => Varint(2) + EncodeBlob(message)
    case PutError(e) => Varint(3) + EncodeError(e)
  }

  function EncodeGetResponse(r: ChunkGetResponse): Bytes {
    match r
    case GetSuccess(a, content) => Varint(0) + (a + EncodeBlob(content))
    case GetNotFound(a) => Varint(1) + a
    case GetError(e) => Varint(2) + EncodeError(e)
  }

  function EncodeQuoteRequest(r: ChunkQuoteRequest): Bytes {
    r.address + (Varint(r.dataSize) + Varint(r.dataType))
  }

  function EncodeQuoteResponse(r: ChunkQuoteResponse): Bytes {
    match r
    case QuoteSuccess(quote, stored, commitment) =>
      Varint(0) + (EncodeBlob(quote) + (EncodeBool(stored) + EncodeOption(commitment)))
    case QuoteError(e) => Varint(1) + EncodeError(e)
  }

  function EncodeMerkleRequest(r: MerkleCandidateQuoteRequest): Bytes {
    r.address + (Varint(r.dataType) + (Varint(r.dataSize) + Varint(r.timestamp)))
  }

  function EncodeMerkleResponse(r: MerkleCandidateQuoteResponse): Bytes {
    match r
    case CandidateSuccess(node, commitment) => Varint(0) + (EncodeBlob(node) + EncodeOption(commitment))
    case CandidateError(e) => Varint(1) + EncodeError(e)
  }

  function EncodePointerPut(r: PointerPutRequest): Bytes {
    EncodeBlob(r.record) + EncodeOption(r.paymentProof)
  }

  function EncodePointerPutReply(r: PointerPutResponse): Bytes {
    match r
    case PointerPutSuccess(a, id) => Varint(0) + (a + id)
    case PointerPutUnchanged(a, id) => Varint(1) + (a + id)
    case PointerPutStale(a, id) => Varint(2) + (a + id)
    case PointerPutPaymentRequired(message) => Varint(3) + EncodeBlob(message)
    case PointerPutError(e) => Varint(4) + EncodeError(e)
  }

  function EncodePointerGetReply(r: PointerGetResponse): Bytes {
    match r
    case PointerGetSuccess(record) => Varint(0) + EncodeBlob(record)
    case PointerGetNotFound(a) => Varint(1) + a
    case PointerGetError(e) => Varint(2) + EncodeError(e)
  }

  function EncodeGetOrCloserReply(r: ChunkGetOrCloserResponse): Bytes {
    match r
    case Found(a, content) => Varint(0) + (a + EncodeBlob(content))
    case CloserPeers(a, peers) => Varint(1) + (a + EncodeBlob(peers))
    case GetOrCloserError(e) => Varint(2) + EncodeError(e)
  }

  /** The index of the error variant in response `index`, which is the last one
      of its enum; 0 for a request. */
  function ErrorVariant(index: nat): nat {
    match index
    case 1 => 3
    case 3 => 2
    case 5 => 1
    case 7 => 1
    case 11 => 4
    case 13 => 2
    case 15 => 2
    case _ => 0
  }

  predicate IsResponse(body: ChunkMessageBody) {
    ErrorVariant(body.Index()) > 0
  }

  function EncodeFields(body: ChunkMessageBody): Bytes {
    match body
    case PutRequest(r) => EncodePutRequest(r)
    case PutResponse(r) => EncodePutResponse(r)
    case GetRequest(a) => a
    case GetResponse(r) => EncodeGetResponse(r)
    case QuoteRequest(r) => EncodeQuoteRequest(r)
    case QuoteResponse(r) => EncodeQuoteResponse(r)
    case MerkleRequest(r) => EncodeMerkleRequest(r)
    case MerkleResponse(r) => EncodeMerkleResponse(r)
    case QuoteRequestV2(r, version) => EncodeQuoteRequest(r) + Varint(version)
    case MerkleRequestV2(r, version) => EncodeMerkleRequest(r) + Varint(version)
    case PointerPut(r) => EncodePointerPut(r)
    case PointerPutReply(r) => EncodePointerPutReply(r)
    case PointerGet(a) => a
    case PointerGetReply(r) => EncodePointerGetReply(r)
    case GetOrCloserRequest(a) => a
    case GetOrCloserReply(r) => EncodeGetOrCloserReply(r)
  }

  /** `ChunkMessage::encode`; it has no size check of its own. */
  function Encode(m: ChunkMessage): Bytes {
    Varint(m.requestId) + (Varint(m.body.Index()) + EncodeFields(m.body))
  }

  // ---------------------------------------------------------------------------
  // Decoders
  // ---------------------------------------------------------------------------

  /** The fields of error variant `index`. */
  function TakeErrorFields(index: nat, b: Bytes): (r: Decoded<ProtocolError>)
    ensures r.Ok? ==> r.value.Index() == index
  {
    if index == 2 || index == 3 then
      TakeSizeError(index, b)
    else if index == 4 then
      TakeMismatch(b)
    else if index == 9 || index == 10 then
      TakeVersionError(index, b)
    else if index < 9 then
      TakeTextError(index, b)
    else
      Bad(UnknownVariant)
  }

  function TakeSizeError(index: nat, b: Bytes): (r: Decoded<ProtocolError>)
    ensures r.Ok? && (index == 2 || index == 3) ==> r.value.Index() == index
  {
    match TakeU64(b) case Bad(e) => Bad(e) case Ok(size, b1) =>
    match TakeU64(b1) case Bad(e) => Bad(e) case Ok(max, rest) =>
    Ok(if index == 2 then MessageTooLarge(size, max) else ChunkTooLarge(size, max), rest)
  }

  function TakeMismatch(b: Bytes): (r: Decoded<ProtocolError>)
    ensures r.Ok? ==> r.value.Index() == 4
  {
    match TakeName(b) case Bad(e) => Bad(e) case Ok(expected, b1) =>
    match TakeName(b1) case Bad(e) => Bad(e) case Ok(actual, rest) =>
    Ok(AddressMismatch(expected, actual), rest)
  }

  function TakeVersionError(index: nat, b: Bytes): (r: Decoded<ProtocolError>)
    ensures r.Ok? && (index == 9 || index == 10) ==> r.value.Index() == index
  {
    match TakeU32(b) case Bad(e) => Bad(e) case Ok(client, b1) =>
    match TakeU32(b1) case Bad(e) => Bad(e) case Ok(other, rest) =>
    Ok(if index == 9 then ClientUpdateRequired(client, other) else StorerUpdateRequired(client, other), rest)
  }

  function TakeTextError(index: nat, b: Bytes): (r: Decoded<ProtocolError>)
    ensures r.Ok? && (index in {0, 1, 5, 6, 7, 8}) ==> r.value.Index() == index
  {
    match TakeText(b) case Bad(e) => Bad(e) case Ok(reason, rest) =>
    Ok(match index
       case 0 => SerializationFailed(reason)
       case 1 => DeserializationFailed(reason)
       case 5 => StorageFailed(reason)
       case 6 => PaymentFailed(reason)
       case 7 => QuoteFailed(reason)
       case _ => Internal(reason), rest)
  }

  function TakeError(v: Build, b: Bytes): Decoded<ProtocolError> {
    match TakeVariant(b, |v.errors|) case Bad(e) => Bad(e) case Ok(place, rest) =>
    TakeErrorFields(v.errors[place], rest)
  }

  function TakePutRequest(b: Bytes): Decoded<ChunkPutRequest> {
    match TakeName(b) case Bad(e) => Bad(e) case Ok(a, b1) =>
    match TakeBlob(b1) case Bad(e) => Bad(e) case Ok(content, b2) =>
    match TakeOption(b2) case Bad(e) => Bad(e) case Ok(proof, rest) =>
    Ok(ChunkPutRequest(a, content, proof), rest)
  }

  function TakeQuoteRequest(b: Bytes): Decoded<ChunkQuoteRequest> {
    match TakeName(b) case Bad(e) => Bad(e) case Ok(a, b1) =>
    match TakeU64(b1) case Bad(e) => Bad(e) case Ok(size, b2) =>
    match TakeU32(b2) case Bad(e) => Bad(e) case Ok(kind, rest) =>
    Ok(ChunkQuoteRequest(a, size, kind), rest)
  }

  function TakeMerkleRequest(b: Bytes): Decoded<MerkleCandidateQuoteRequest> {
    match TakeName(b) case Bad(e) => Bad(e) case Ok(a, b1) =>
    match TakeU32(b1) case Bad(e) => Bad(e) case Ok(kind, b2) =>
    match TakeU64(b2) case Bad(e) => Bad(e) case Ok(size, b3) =>
    match TakeU64(b3) case Bad(e) => Bad(e) case Ok(time, rest) =>
    Ok(MerkleCandidateQuoteRequest(a, kind, size, time), rest)
  }

  // The V2 structs are the original fields and the settlement version.

  function QuoteRequestAndVersion(original: Decoded<ChunkQuoteRequest>): (r: Decoded<ChunkMessageBody>)
    ensures r.Ok? ==> r.value.Index() == 8 && r.value.Error() == None
  {
    match original case Bad(e) => Bad(e) case Ok(r, b1) =>
    match TakeU32(b1) case Bad(e) => Bad(e) case Ok(version, rest) =>
    Ok(QuoteRequestV2(r, version), rest)
  }

  function MerkleRequestAndVersion(original: Decoded<MerkleCandidateQuoteRequest>): (r: Decoded<ChunkMessageBody>)
    ensures r.Ok? ==> r.value.Index() == 9 && r.value.Error() == None
  {
    match original case Bad(e) => Bad(e) case Ok(r, b1) =>
    match TakeU32(b1) case Bad(e) => Bad(e) case Ok(version, rest) =>
    Ok(MerkleRequestV2(r, version), rest)
  }

  function TakePointerPut(b: Bytes): Decoded<PointerPutRequest> {
    match TakeBlob(b) case Bad(e) => Bad(e) case Ok(record, b1) =>
    match TakeOption(b1) case Bad(e) => Bad(e) case Ok(proof, rest) =>
    Ok(PointerPutRequest(record, proof), rest)
  }

  // Responses, after their variant index, for the variants other than the
  // error, which is the last one of each.

  function TakePutResponse(tag: nat, b: Bytes): (r: Decoded<ChunkPutResponse>)
    ensures r.Ok? ==> !r.value.PutError?
  {
    if tag <= 1 then
      match TakeName(b) case Bad(e) => Bad(e) case Ok(a, rest) =>
      Ok(if tag == 0 then PutSuccess(a) else PutAlreadyExists(a), rest)
    else
      match TakeText(b) case Bad(e) => Bad(e) case Ok(message, rest) =>
      Ok(PutPaymentRequired(message), rest)
  }

  function TakeGetResponse(tag: nat, b: Bytes): (r: Decoded<ChunkGetResponse>)
    ensures r.Ok? ==> !r.value.GetError?
  {
    match TakeName(b) case Bad(e) => Bad(e) case Ok(a, b1) =>
    if tag == 1 then Ok(GetNotFound(a), b1) else
    match TakeBlob(b1) case Bad(e) => Bad(e) case Ok(content, rest) =>
    Ok(GetSuccess(a, content), rest)
  }

  function TakeQuoteResponse(b: Bytes): (r: Decoded<ChunkQuoteResponse>)
    ensures r.Ok? ==> !r.value.QuoteError?
  {
    match TakeBlob(b) case Bad(e) => Bad(e) case Ok(quote, b1) =>
    match TakeBool(b1) case Bad(e) => Bad(e) case Ok(stored, b2) =>
    match TakeOption(b2) case Bad(e) => Bad(e) case Ok(commitment, rest) =>
    Ok(QuoteSuccess(quote, stored, commitment), rest)
  }

  function TakeMerkleResponse(b: Bytes): (r: Decoded<MerkleCandidateQuoteResponse>)
    ensures r.Ok? ==> !r.value.CandidateError?
  {
    match TakeBlob(b) case Bad(e) => Bad(e) case Ok(node, b1) =>
    match TakeOption(b1) case Bad(e) => Bad(e) case Ok(commitment, rest) =>
    Ok(CandidateSuccess(node, commitment), rest)
  }

  function TakePointerPutReply(tag: nat, b: Bytes): (r: Decoded<PointerPutResponse>)
    ensures r.Ok? ==> !r.value.PointerPutError?
  {
    if tag <= 2 then
      match TakeName(b) case Bad(e) => Bad(e) case Ok(a, b1) =>
      match TakeName(b1) case Bad(e) => Bad(e) case Ok(id, rest) =>
      Ok(if tag == 0 then PointerPutSuccess(a, id)
         else if tag == 1 then PointerPutUnchanged(a, id)
         else PointerPutStale(a, id), rest)
    else
      match TakeText(b) case Bad(e) => Bad(e) case Ok(message, rest) =>
      Ok(PointerPutPaymentRequired(message), rest)
  }

  function TakePointerGetReply(tag: nat, b: Bytes): (r: Decoded<PointerGetResponse>)
    ensures r.Ok? ==> !r.value.PointerGetError?
  {
    if tag == 0 then
      match TakeBlob(b) case Bad(e) => Bad(e) case Ok(record, rest) =>
      Ok(PointerGetSuccess(record), rest)
    else
      match TakeName(b) case Bad(e) => Bad(e) case Ok(a, rest) =>
      Ok(PointerGetNotFound(a), rest)
  }

  function TakeGetOrCloserReply(tag: nat, b: Bytes): (r: Decoded<ChunkGetOrCloserResponse>)
    ensures r.Ok? ==> !r.value.GetOrCloserError?
  {
    match TakeName(b) case Bad(e) => Bad(e) case Ok(a, b1) =>
    match TakeBlob(b1) case Bad(e) => Bad(e) case Ok(v, rest) =>
    Ok(if tag == 0 then Found(a, v) else CloserPeers(a, v), rest)
  }

  // Bodies from their decoded fields.

  function AsPutRequest(d: Decoded<ChunkPutRequest>): (r: Decoded<ChunkMessageBody>)
    ensures r.Ok? ==> r.value.Index() == 0 && r.value.Error() == None
  {
    match d case Bad(e) => Bad(e) case Ok(v, rest) => Ok(PutRequest(v), rest)
  }

  function AsGetRequest(d: Decoded<XorName>): (r: Decoded<ChunkMessageBody>)
    ensures r.Ok? ==> r.value.Index() == 2 && r.value.Error() == None
  {
    match d case Bad(e) => Bad(e) case Ok(v, rest) => Ok(GetRequest(v), rest)
  }

  function AsQuoteRequest(d: Decoded<ChunkQuoteRequest>): (r: Decoded<ChunkMessageBody>)
    ensures r.Ok? ==> r.value.Index() == 4 && r.value.Error() == None
  {
    match d case Bad(e) => Bad(e) case Ok(v, rest) => Ok(QuoteRequest(v), rest)
  }

  function AsMerkleRequest(d: Decoded<MerkleCandidateQuoteRequest>): (r: Decoded<ChunkMessageBody>)
    ensures r.Ok? ==> r.value.Index() == 6 && r.value.Error() == None
  {
    match d case Bad(e) => Bad(e) case Ok(v, rest) => Ok(MerkleRequest(v), rest)
  }

  function AsPointerPut(d: Decoded<PointerPutRequest>): (r: Decoded<ChunkMessageBody>)
    ensures r.Ok? ==> r.value.Index() == 10 && r.value.Error() == None
  {
    match d case Bad(e) => Bad(e) case Ok(v, rest) => Ok(PointerPut(v), rest)
  }

  function AsPointerGet(d: Decoded<XorName>): (r: Decoded<ChunkMessageBody>)
    ensures r.Ok? ==> r.value.Index() == 12 && r.value.Error() == None
  {
    match d case Bad(e) => Bad(e) case Ok(v, rest) => Ok(PointerGet(v), rest)
  }

  function AsGetOrCloserRequest(d: Decoded<XorName>): (r: Decoded<ChunkMessageBody>)
    ensures r.Ok? ==> r.value.Index() == 14 && r.value.Error() == None
  {
    match d case Bad(e) => Bad(e) case Ok(v, rest) => Ok(GetOrCloserRequest(v), rest)
  }

  function AsPutResponse(d: Decoded<ChunkPutResponse>): (r: Decoded<ChunkMessageBody>)
    ensures r.Ok? <==> d.Ok?
    ensures r.Ok? && !d.value.PutError? ==> r.value.Index() == 1 && r.value.Error() == None
  {
    match d case Bad(e) => Bad(e) case Ok(v, rest) => Ok(PutResponse(v), rest)
  }

  function AsGetResponse(d: Decoded<ChunkGetResponse>): (r: Decoded<ChunkMessageBody>)
    ensures r.Ok? <==> d.Ok?
    ensures r.Ok? && !d.value.GetError? ==> r.value.Index() == 3 && r.value.Error() == None
  {
    match d case Bad(e) => Bad(e) case Ok(v, rest) => Ok(GetResponse(v), rest)
  }

  function AsQuoteResponse(d: Decoded<ChunkQuoteResponse>): (r: Decoded<ChunkMessageBody>)
    ensures r.Ok? <==> d.Ok?
    ensures r.Ok? && !d.value.QuoteError? ==> r.value.Index() == 5 && r.value.Error() == None
  {
    match d case Bad(e) => Bad(e) case Ok(v, rest) => Ok(QuoteResponse(v), rest)
  }

  function AsMerkleResponse(d: Decoded<MerkleCandidateQuoteResponse>): (r: Decoded<ChunkMessageBody>)
    ensures r.Ok? <==> d.Ok?
    ensures r.Ok? && !d.value.CandidateError? ==> r.value.Index() == 7 && r.value.Error() == None
  {
    match d case Bad(e) => Bad(e) case Ok(v, rest) => Ok(MerkleResponse(v), rest)
  }

  function AsPointerPutReply(d: Decoded<PointerPutResponse>): (r: Decoded<ChunkMessageBody>)
    ensures r.Ok? <==> d.Ok?
    ensures r.Ok? && !d.value.PointerPutError? ==> r.value.Index() == 11 && r.value.Error() == None
  {
    match d case Bad(e) => Bad(e) case Ok(v, rest) => Ok(PointerPutReply(v), rest)
  }

  function AsPointerGetReply(d: Decoded<PointerGetResponse>): (r: Decoded<ChunkMessageBody>)
    ensures r.Ok? <==> d.Ok?
    ensures r.Ok? && !d.value.PointerGetError? ==> r.value.Index() == 13 && r.value.Error() == None
  {
    match d case Bad(e) => Bad(e) case Ok(v, rest) => Ok(PointerGetReply(v), rest)
  }

  function AsGetOrCloserReply(d: Decoded<ChunkGetOrCloserResponse>): (r: Decoded<ChunkMessageBody>)
    ensures r.Ok? <==> d.Ok?
    ensures r.Ok? && !d.value.GetOrCloserError? ==> r.value.Index() == 15 && r.value.Error() == None
  {
    match d case Bad(e) => Bad(e) case Ok(v, rest) => Ok(GetOrCloserReply(v), rest)
  }

  /** The fields of request variant `index`. */
  function TakeRequest(index: nat, b: Bytes): (r: Decoded<ChunkMessageBody>)
    ensures r.Ok? ==> r.value.Index() == index && r.value.Error() == None
  {
    match index
    case 0 => AsPutRequest(TakePutRequest(b))
    case 2 => AsGetRequest(TakeName(b))
    case 4 => AsQuoteRequest(TakeQuoteRequest(b))
    case 6 => AsMerkleRequest(TakeMerkleRequest(b))
    case 8 => QuoteRequestAndVersion(TakeQuoteRequest(b))
    case 9 => MerkleRequestAndVersion(TakeMerkleRequest(b))
    case 10 => AsPointerPut(TakePointerPut(b))
    case 12 => AsPointerGet(TakeName(b))
    case 14 => AsGetOrCloserRequest(TakeName(b))
    case _ => Bad(UnknownVariant)
  }

  /** The fields of response variant `index`, other than an error. */
  function TakeResponse(index: nat, tag: nat, b: Bytes): (r: Decoded<ChunkMessageBody>)
    ensures r.Ok? && ErrorVariant(index) > 0 ==> r.value.Index() == index && r.value.Error() == None
  {
    match index
    case 1 => AsPutResponse(TakePutResponse(tag, b))
    case 3 => AsGetResponse(TakeGetResponse(tag, b))
    case 5 => AsQuoteResponse(TakeQuoteResponse(b))
    case 7 => AsMerkleResponse(TakeMerkleResponse(b))
    case 11 => AsPointerPutReply(TakePointerPutReply(tag, b))
    case 13 => AsPointerGetReply(TakePointerGetReply(tag, b))
    case _ => AsGetOrCloserReply(TakeGetOrCloserReply(tag, b))
  }

  function ErrorResponse(index: nat, e: ProtocolError): (body: ChunkMessageBody)
    requires ErrorVariant(index) > 0
    ensures body.Index() == index && body.Error() == Some(e)
  {
    match index
    case 1 => PutResponse(PutError(e))
    case 3 => GetResponse(GetError(e))
    case 5 => QuoteResponse(QuoteError(e))
    case 7 => MerkleResponse(CandidateError(e))
    case 11 => PointerPutReply(PointerPutError(e))
    case 13 => PointerGetReply(PointerGetError(e))
    case 15 => GetOrCloserReply(GetOrCloserError(e))
  }

  /** The fields of body variant `index`; only errors depend on the build. */
  function TakeFields(v: Build, index: nat, b: Bytes): Decoded<ChunkMessageBody> {
    if ErrorVariant(index) == 0 then TakeRequest(index, b) else
    match TakeVariant(b, ErrorVariant(index) + 1) case Bad(e) => Bad(e) case Ok(tag, b1) =>
    if tag < ErrorVariant(index) then TakeResponse(index, tag, b1) else
    match TakeError(v, b1) case Bad(e) => Bad(e) case Ok(error, rest) =>
    Ok(ErrorResponse(index, error), rest)
  }

  function TakeMessage(v: Build, b: Bytes): Decoded<ChunkMessage> {
    match TakeU64(b) case Bad(e) => Bad(e) case Ok(id, b1) =>
    match TakeVariant(b1, |v.bodies|) case Bad(e) => Bad(e) case Ok(place, b2) =>
    match TakeFields(v, v.bodies[place], b2) case Bad(e) => Bad(e) case Ok(body, rest) =>
    Ok(ChunkMessage(id, body), rest)
  }

  /** Why `decode` refused: over the cap, or not a message. */
  datatype Refusal = TooLarge(size: nat, maxSize: nat) | Malformed(reason: DecodeError)

  /** `ChunkMessage::decode`: the cap first, then Postcard, which ignores what
      follows the message. */
  function DecodeBy(v: Build, b: Bytes): Result<ChunkMessage, Refusal> {
    if |b| > MAX_WIRE_MESSAGE_SIZE then Failure(TooLarge(|b|, MAX_WIRE_MESSAGE_SIZE)) else
    match TakeMessage(v, b)
    case Ok(m, _) => Success(m)
    case Bad(e) => Failure(Malformed(e))
  }

  function Decode(b: Bytes): Result<ChunkMessage, Refusal> {
    DecodeBy(CURRENT, b)
  }
}
