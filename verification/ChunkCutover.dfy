/** The quote and candidate responses before and after they carried a commitment.
    The field was appended to a struct, not an enum, so neither side announces it. */
module ChunkCutover {
  import opened Wrappers
  import opened ByteStrings
  import opened Postcard
  import opened PostcardPieces
  import opened ChunkMessages
  import opened ChunkWire

  /** A successful quote message in the old struct. */
  datatype OldQuote = OldQuote(requestId: uint64, quote: Blob, alreadyStored: bool)

  const QUOTE_RESPONSE := 5

  function EncodeOldQuote(q: OldQuote): Bytes {
    Varint(q.requestId) + (Varint(QUOTE_RESPONSE) + (Varint(0) + (EncodeBlob(q.quote) + EncodeBool(q.alreadyStored))))
  }

  function TakeOldQuoteFields(id: uint64, b: Bytes): Decoded<OldQuote> {
    match TakeBlob(b) case Bad(e) => Bad(e) case Ok(quote, b1) =>
    match TakeBool(b1) case Bad(e) => Bad(e) case Ok(stored, rest) =>
    Ok(OldQuote(id, quote, stored), rest)
  }

  /** The old struct's reader, for messages that are successful quotes. */
  function TakeOldQuote(b: Bytes): Decoded<OldQuote> {
    match TakeU64(b) case Bad(e) => Bad(e) case Ok(id, b1) =>
    match TakeVariant(b1, BODY_VARIANTS) case Bad(e) => Bad(e) case Ok(index, b2) =>
    match TakeVariant(b2, 2) case Bad(e) => Bad(e) case Ok(tag, b3) =>
    if index != QUOTE_RESPONSE || tag != 0 then Bad(UnknownVariant) else TakeOldQuoteFields(id, b3)
  }

  lemma QuoteHeader(id: uint64, fields: Bytes)
    ensures var b := Varint(id) + (Varint(QUOTE_RESPONSE) + (Varint(0) + fields));
            && TakeU64(b) == Ok(id, Varint(QUOTE_RESPONSE) + (Varint(0) + fields))
            && TakeVariant(Varint(QUOTE_RESPONSE) + (Varint(0) + fields), BODY_VARIANTS) ==
               Ok(QUOTE_RESPONSE, Varint(0) + fields)
            && TakeVariant(Varint(0) + fields, 2) == Ok(0, fields)
  {
    U64RoundTrip(id, Varint(QUOTE_RESPONSE) + (Varint(0) + fields));
    VariantRoundTrip(QUOTE_RESPONSE, BODY_VARIANTS, Varint(0) + fields);
    VariantRoundTrip(0, 2, fields);
  }

  /** The old struct's pieces; the new one has the commitment behind them. */
  function OldQuotePieces(q: OldQuote): seq<Piece> {
    [Wide(q.requestId), Narrow(5), Narrow(0)] + (Counted(q.quote) + Flag(q.alreadyStored))
  }

  lemma HeaderWriting(id: uint64, index: uint32, fields: seq<Piece>)
    ensures Varint(id) + (Varint(index) + (Varint(0) + Write(fields))) ==
            Write([Wide(id), Narrow(index), Narrow(0)] + fields)
  {
    NumbersAreVarints(id);
    NumbersAreVarints(index);
    NumbersAreVarints(0);
    var tail := [Narrow(0)] + fields;
    WriteBoth([Narrow(0)], fields);
    WriteOne(Narrow(0));
    WriteBoth([Narrow(index)], tail);
    WriteOne(Narrow(index));
    WriteBoth([Wide(id)], [Narrow(index)] + tail);
    WriteOne(Wide(id));
    assert [Wide(id), Narrow(index), Narrow(0)] + fields == [Wide(id)] + ([Narrow(index)] + tail);
  }

  lemma OldQuoteWriting(q: OldQuote)
    ensures EncodeOldQuote(q) == Write(OldQuotePieces(q))
  {
    CountedWriting(q.quote);
    FlagWriting(q.alreadyStored);
    WriteBoth(Counted(q.quote), Flag(q.alreadyStored));
    HeaderWriting(q.requestId, 5, Counted(q.quote) + Flag(q.alreadyStored));
  }

  /** The new encoding is the old one and the commitment behind it. */
  lemma CommitmentIsAppended(q: OldQuote, commitment: Option<Blob>)
    ensures Encode(ChunkMessage(q.requestId, QuoteResponse(QuoteSuccess(q.quote, q.alreadyStored, commitment)))) ==
            EncodeOldQuote(q) + EncodeOption(commitment)
  {
    QuotePiecesExtend(q, commitment);
    MessageWriting(ChunkMessage(q.requestId, QuoteResponse(QuoteSuccess(q.quote, q.alreadyStored, commitment))));
    OldQuoteWriting(q);
    OptionalWriting(commitment);
    WriteBoth(OldQuotePieces(q), Optional(commitment));
  }

  lemma QuotePiecesExtend(q: OldQuote, commitment: Option<Blob>)
    ensures MessagePieces(ChunkMessage(q.requestId, QuoteResponse(QuoteSuccess(q.quote, q.alreadyStored, commitment)))) ==
            OldQuotePieces(q) + Optional(commitment)
  {
  }

  lemma OldFieldsReading(q: OldQuote, b: Bytes)
    ensures After(Counted(q.quote) + Flag(q.alreadyStored), b) == Reading(TakeOldQuoteFields(q.requestId, b), q)
  {
    AfterBoth(Counted(q.quote), Flag(q.alreadyStored), b);
    CountedReading(q.quote, b);
    if TakeBlob(b).Ok? {
      FlagReading(q.alreadyStored, TakeBlob(b).rest);
    }
  }

  /** What follows the request id, the body variant and the response variant. */
  function AfterHeader(id: uint64, index: uint32, b: Bytes): Option<Bytes> {
    var b1 := Reading(TakeU64(b), id);
    if b1.None? then None else
    var b2 := Reading(TakeU32(b1.value), index);
    if b2.None? then None else Reading(TakeU32(b2.value), 0)
  }

  lemma HeaderReading(id: uint64, index: uint32, fields: seq<Piece>, b: Bytes)
    ensures After([Wide(id), Narrow(index), Narrow(0)] + fields, b) ==
            if AfterHeader(id, index, b).None? then None else After(fields, AfterHeader(id, index, b).value)
  {
    assert [Wide(id), Narrow(index), Narrow(0)] + fields == [Wide(id)] + ([Narrow(index)] + ([Narrow(0)] + fields));
    AfterBoth([Wide(id)], [Narrow(index)] + ([Narrow(0)] + fields), b);
    WideReading(id, b);
    var b1 := Reading(TakeU64(b), id);
    if b1.Some? {
      AfterBoth([Narrow(index)], [Narrow(0)] + fields, b1.value);
      NarrowReading(index, b1.value);
      var b2 := Reading(TakeU32(b1.value), index);
      if b2.Some? {
        AfterBoth([Narrow(0)], fields, b2.value);
        NarrowReading(0, b2.value);
      }
    }
  }

  /** On every input, the old struct's reader reads exactly the spellings of its
      pieces. */
  lemma OldQuoteReading(q: OldQuote, b: Bytes)
    ensures After(OldQuotePieces(q), b) == Reading(TakeOldQuote(b), q)
  {
    HeaderReading(q.requestId, 5, Counted(q.quote) + Flag(q.alreadyStored), b);
    var fields := AfterHeader(q.requestId, 5, b);
    if fields.Some? {
      OldFieldsReading(q, fields.value);
    }
  }

  lemma OldQuoteRoundTrip(q: OldQuote, rest: Bytes)
    ensures TakeOldQuote(EncodeOldQuote(q) + rest) == Ok(q, rest)
  {
    OldQuoteWriting(q);
    AfterWritten(OldQuotePieces(q), rest);
    OldQuoteReading(q, EncodeOldQuote(q) + rest);
  }

  /** A new quote response reads under the old struct: the commitment is left
      behind the message, where the decoder ignores it. */
  lemma NewQuotesReadAsOld(id: uint64, r: ChunkQuoteResponse, rest: Bytes)
    requires r.QuoteSuccess?
    ensures TakeOldQuote(Encode(ChunkMessage(id, QuoteResponse(r))) + rest) ==
            Ok(OldQuote(id, r.quote, r.alreadyStored), EncodeOption(r.commitment) + rest)
  {
    var q := OldQuote(id, r.quote, r.alreadyStored);
    CommitmentIsAppended(q, r.commitment);
    Joined(EncodeOldQuote(q), EncodeOption(r.commitment), rest);
    OldQuoteRoundTrip(q, EncodeOption(r.commitment) + rest);
  }

  lemma QuoteWithoutCommitmentEnds(quote: Blob, stored: bool)
    ensures TakeQuoteResponse(EncodeBlob(quote) + EncodeBool(stored)) == Bad(UnexpectedEnd)
  {
    assert EncodeBool(stored) + [] == EncodeBool(stored);
    BlobRoundTrip(quote, EncodeBool(stored));
    BoolRoundTrip(stored, []);
  }

  /** An old quote response never reads under the new struct: it ends where the
      commitment should begin. */
  lemma OldQuotesAreRefused(q: OldQuote)
    requires |EncodeOldQuote(q)| <= MAX_WIRE_MESSAGE_SIZE
    ensures Decode(EncodeOldQuote(q)) == Failure(Malformed(UnexpectedEnd))
  {
    var fields := EncodeBlob(q.quote) + EncodeBool(q.alreadyStored);
    QuoteHeader(q.requestId, fields);
    QuoteWithoutCommitmentEnds(q.quote, q.alreadyStored);
    assert TakeFields(CURRENT, QUOTE_RESPONSE, Varint(0) + fields) == Bad(UnexpectedEnd);
  }

  // ---------------------------------------------------------------------------
  // The Merkle candidate response
  // ---------------------------------------------------------------------------

  /** A successful candidate message in the old struct. */
  datatype OldCandidate = OldCandidate(requestId: uint64, candidateNode: Blob)

  const CANDIDATE_RESPONSE := 7

  function EncodeOldCandidate(q: OldCandidate): Bytes {
    Varint(q.requestId) + (Varint(CANDIDATE_RESPONSE) + (Varint(0) + EncodeBlob(q.candidateNode)))
  }

  function TakeOldCandidateFields(id: uint64, b: Bytes): Decoded<OldCandidate> {
    match TakeBlob(b) case Bad(e) => Bad(e) case Ok(node, rest) => Ok(OldCandidate(id, node), rest)
  }

  /** The old struct's reader, for messages that are successful candidates. */
  function TakeOldCandidate(b: Bytes): Decoded<OldCandidate> {
    match TakeU64(b) case Bad(e) => Bad(e) case Ok(id, b1) =>
    match TakeVariant(b1, BODY_VARIANTS) case Bad(e) => Bad(e) case Ok(index, b2) =>
    match TakeVariant(b2, 2) case Bad(e) => Bad(e) case Ok(tag, b3) =>
    if index != CANDIDATE_RESPONSE || tag != 0 then Bad(UnknownVariant) else TakeOldCandidateFields(id, b3)
  }

  lemma CandidateHeader(id: uint64, fields: Bytes)
    ensures var b := Varint(id) + (Varint(CANDIDATE_RESPONSE) + (Varint(0) + fields));
            && TakeU64(b) == Ok(id, Varint(CANDIDATE_RESPONSE) + (Varint(0) + fields))
            && TakeVariant(Varint(CANDIDATE_RESPONSE) + (Varint(0) + fields), BODY_VARIANTS) ==
               Ok(CANDIDATE_RESPONSE, Varint(0) + fields)
            && TakeVariant(Varint(0) + fields, 2) == Ok(0, fields)
  {
    U64RoundTrip(id, Varint(CANDIDATE_RESPONSE) + (Varint(0) + fields));
    VariantRoundTrip(CANDIDATE_RESPONSE, BODY_VARIANTS, Varint(0) + fields);
    VariantRoundTrip(0, 2, fields);
  }

  function OldCandidatePieces(q: OldCandidate): seq<Piece> {
    [Wide(q.requestId), Narrow(7), Narrow(0)] + Counted(q.candidateNode)
  }

  lemma OldCandidateWriting(q: OldCandidate)
    ensures EncodeOldCandidate(q) == Write(OldCandidatePieces(q))
  {
    CountedWriting(q.candidateNode);
    HeaderWriting(q.requestId, 7, Counted(q.candidateNode));
  }

  /** The new encoding is the old one and the commitment behind it. */
  lemma CandidateCommitmentIsAppended(q: OldCandidate, commitment: Option<Blob>)
    ensures Encode(ChunkMessage(q.requestId, MerkleResponse(CandidateSuccess(q.candidateNode, commitment)))) ==
            EncodeOldCandidate(q) + EncodeOption(commitment)
  {
    var m := ChunkMessage(q.requestId, MerkleResponse(CandidateSuccess(q.candidateNode, commitment)));
    assert MessagePieces(m) == OldCandidatePieces(q) + Optional(commitment);
    MessageWriting(m);
    OldCandidateWriting(q);
    OptionalWriting(commitment);
    WriteBoth(OldCandidatePieces(q), Optional(commitment));
  }

  lemma OldCandidateReading(q: OldCandidate, b: Bytes)
    ensures After(OldCandidatePieces(q), b) == Reading(TakeOldCandidate(b), q)
  {
    HeaderReading(q.requestId, 7, Counted(q.candidateNode), b);
    var fields := AfterHeader(q.requestId, 7, b);
    if fields.Some? {
      CountedReading(q.candidateNode, fields.value);
    }
  }

  lemma OldCandidateRoundTrip(q: OldCandidate, rest: Bytes)
    ensures TakeOldCandidate(EncodeOldCandidate(q) + rest) == Ok(q, rest)
  {
    OldCandidateWriting(q);
    AfterWritten(OldCandidatePieces(q), rest);
    OldCandidateReading(q, EncodeOldCandidate(q) + rest);
  }

  /** A new candidate response reads under the old struct. */
  lemma NewCandidatesReadAsOld(id: uint64, r: MerkleCandidateQuoteResponse, rest: Bytes)
    requires r.CandidateSuccess?
    ensures TakeOldCandidate(Encode(ChunkMessage(id, MerkleResponse(r))) + rest) ==
            Ok(OldCandidate(id, r.candidateNode), EncodeOption(r.commitment) + rest)
  {
    var q := OldCandidate(id, r.candidateNode);
    CandidateCommitmentIsAppended(q, r.commitment);
    Joined(EncodeOldCandidate(q), EncodeOption(r.commitment), rest);
    OldCandidateRoundTrip(q, EncodeOption(r.commitment) + rest);
  }

  lemma CandidateWithoutCommitmentEnds(node: Blob)
    ensures TakeMerkleResponse(EncodeBlob(node)) == Bad(UnexpectedEnd)
  {
    assert EncodeBlob(node) + [] == EncodeBlob(node);
    BlobRoundTrip(node, []);
  }

  /** An old candidate response never reads under the new struct. */
  lemma OldCandidatesAreRefused(q: OldCandidate)
    requires |EncodeOldCandidate(q)| <= MAX_WIRE_MESSAGE_SIZE
    ensures Decode(EncodeOldCandidate(q)) == Failure(Malformed(UnexpectedEnd))
  {
    var fields := EncodeBlob(q.candidateNode);
    CandidateHeader(q.requestId, fields);
    CandidateWithoutCommitmentEnds(q.candidateNode);
    assert TakeFields(CURRENT, CANDIDATE_RESPONSE, Varint(0) + fields) == Bad(UnexpectedEnd);
  }
}
