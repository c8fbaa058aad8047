/** Evolution of the message enums: what one build makes of the bytes of another
    whose declarations differ. A build writes and reads a variant by its place in
    the build's own declaration. */
module ChunkEvolution {
  import opened Wrappers
  import opened ByteStrings
  import opened Postcard
  import opened ChunkMessages
  import ChunkReading
  import ChunkMessageProofs

  ghost predicate Distinct(table: seq<nat>) {
    forall i, j :: 0 <= i < j < |table| ==> table[i] != table[j]
  }

  /** A declaration lists each of its variants once. */
  ghost predicate Declared(v: Build) {
    && Distinct(v.bodies) && |v.bodies| <= UINT32_MAX && (forall k :: k in v.bodies ==> k < BODY_VARIANTS)
    && Distinct(v.errors) && |v.errors| <= UINT32_MAX && (forall k :: k in v.errors ==> k < ERROR_VARIANTS)
  }

  function Place(table: seq<nat>, variant: nat): (place: nat)
    requires variant in table
    ensures place < |table| && table[place] == variant
  {
    if table[0] == variant then 0 else 1 + Place(table[1..], variant)
  }

  ghost predicate KnowsError(v: Build, body: ChunkMessageBody) {
    body.Error().Some? ==> body.Error().value.Index() in v.errors
  }

  /** Every variant the message uses is one the build declares. */
  ghost predicate Knows(v: Build, m: ChunkMessage) {
    m.body.Index() in v.bodies && KnowsError(v, m.body)
  }

  ghost function EncodeFieldsBy(v: Build, body: ChunkMessageBody): Bytes
    requires KnowsError(v, body)
  {
    match body.Error()
    case None => EncodeFields(body)
    case Some(e) =>
      Varint(ErrorVariant(body.Index())) + (Varint(Place(v.errors, e.Index())) + EncodeErrorFields(e))
  }

  /** The message as a build writes it. */
  ghost function EncodeBy(v: Build, m: ChunkMessage): Bytes
    requires Knows(v, m)
  {
    Varint(m.requestId) + (Varint(Place(v.bodies, m.body.Index())) + EncodeFieldsBy(v, m.body))
  }

  /** Today's build writes what `Encode` writes. */
  lemma EncodeByCurrent(m: ChunkMessage)
    ensures Declared(CURRENT) && Knows(CURRENT, m) && EncodeBy(CURRENT, m) == Encode(m)
  {
    assert CURRENT.bodies[m.body.Index()] == m.body.Index();
    if m.body.Error().Some? {
      var e := m.body.Error().value;
      assert CURRENT.errors[e.Index()] == e.Index();
      ChunkMessageProofs.ErrorResponseLayout(m.body, e);
    }
  }

  lemma FieldsByRoundTrip(v: Build, body: ChunkMessageBody, rest: Bytes)
    requires Declared(v) && KnowsError(v, body)
    ensures TakeFields(v, body.Index(), EncodeFieldsBy(v, body) + rest) == Ok(body, rest)
  {
    if body.Error() == None {
      ChunkMessageProofs.PlainFieldsRoundTrip(v, body, rest);
    } else {
      var e := body.Error().value;
      ChunkMessageProofs.ErrorResponseLayout(body, e);
      ChunkMessageProofs.ErrorResponseRoundTrip(v, body.Index(), Place(v.errors, e.Index()), e, rest);
    }
  }

  /** Every build reads what it writes, and leaves what followed. */
  lemma BuildRoundTrip(v: Build, m: ChunkMessage, rest: Bytes)
    requires Declared(v) && Knows(v, m)
    ensures TakeMessage(v, EncodeBy(v, m) + rest) == Ok(m, rest)
  {
    var place := Place(v.bodies, m.body.Index());
    var fields := EncodeFieldsBy(v, m.body) + rest;
    assert EncodeBy(v, m) + rest == Varint(m.requestId) + (Varint(place) + fields);
    U64RoundTrip(m.requestId, Varint(place) + fields);
    VariantRoundTrip(place, |v.bodies|, fields);
    FieldsByRoundTrip(v, m.body, rest);
  }

  // ---------------------------------------------------------------------------
  // Appending
  // ---------------------------------------------------------------------------

  /** The newer declarations are the older ones with variants appended. */
  ghost predicate Extends(newer: Build, older: Build) {
    older.bodies <= newer.bodies && older.errors <= newer.errors
  }

  /** The older build reads the same fields unless they carry an error it does
      not declare. */
  lemma FieldsRestrict(older: Build, newer: Build, index: nat, b: Bytes)
    requires Declared(newer) && Extends(newer, older)
    ensures match TakeFields(newer, index, b)
            case Ok(body, rest) =>
              && body.Index() == index
              && TakeFields(older, index, b) ==
                 if KnowsError(older, body) then Ok(body, rest) else Bad(UnknownVariant)
            case Bad(_) =>
              TakeFields(older, index, b).Bad?
  {
    if ErrorVariant(index) > 0 {
      var tag := TakeVariant(b, ErrorVariant(index) + 1);
      if tag.Ok? && tag.value == ErrorVariant(index) {
        ErrorRestricts(older, newer, tag.rest);
      }
    }
  }

  lemma ErrorRestricts(older: Build, newer: Build, b: Bytes)
    requires Declared(newer) && Extends(newer, older)
    ensures match TakeError(newer, b)
            case Ok(e, rest) =>
              TakeError(older, b) == if e.Index() in older.errors then Ok(e, rest) else Bad(UnknownVariant)
            case Bad(_) =>
              TakeError(older, b).Bad?
  {
    var place := TakeU32(b);
    if place.Ok? && place.value < |older.errors| {
      assert older.errors[place.value] == newer.errors[place.value];
    }
  }

  /** For any two builds, one extending the other, and every byte string: where
      the newer reads a message the older declares, the older reads the same;
      where the message uses an appended variant, the older rejects it as
      unknown; and what the newer rejects, the older rejects. */
  lemma OlderBuildsAgreeOrReject(older: Build, newer: Build, b: Bytes)
    requires Declared(newer) && Extends(newer, older)
    ensures match DecodeBy(newer, b)
            case Success(m) =>
              DecodeBy(older, b) == if Knows(older, m) then Success(m) else Failure(Malformed(UnknownVariant))
            case Failure(_) =>
              DecodeBy(older, b).Failure?
  {
    var id := TakeU64(b);
    if id.Ok? {
      var place := TakeU32(id.rest);
      if place.Ok? && place.value < |newer.bodies| {
        FieldsRestrict(older, newer, newer.bodies[place.value], place.rest);
        if place.value < |older.bodies| {
          assert older.bodies[place.value] == newer.bodies[place.value];
        }
      }
    }
  }

  /** So an encoded message that fits the cap reaches an older peer exactly when
      that peer declares every variant in it. */
  lemma EncodingsReachOlderBuilds(older: Build, m: ChunkMessage, rest: Bytes)
    requires Extends(CURRENT, older) && |Encode(m) + rest| <= MAX_WIRE_MESSAGE_SIZE
    ensures DecodeBy(older, Encode(m) + rest) ==
            if Knows(older, m) then Success(m) else Failure(Malformed(UnknownVariant))
  {
    EncodeByCurrent(m);
    ChunkMessageProofs.DecodeOfEncode(m, rest);
    OlderBuildsAgreeOrReject(older, CURRENT, Encode(m) + rest);
  }

  /** Every message the writer declares, and that fits the cap, is read as it was
      meant. */
  ghost predicate Reads(reader: Build, writer: Build) {
    forall m: ChunkMessage :: Knows(writer, m) && |EncodeBy(writer, m)| <= MAX_WIRE_MESSAGE_SIZE ==>
      DecodeBy(reader, EncodeBy(writer, m)) == Success(m)
  }

  lemma {:induction false} PlaceIsUnique(table: seq<nat>, k: nat)
    requires Distinct(table) && k < |table|
    ensures Place(table, table[k]) == k
  {
    if k > 0 {
      assert table[0] != table[k];
      PlaceIsUnique(table[1..], k - 1);
    }
  }

  lemma PlaceInExtension(table: seq<nat>, longer: seq<nat>, variant: nat)
    requires Distinct(longer) && table <= longer && variant in table
    ensures Place(longer, variant) == Place(table, variant)
  {
    PlaceIsUnique(longer, Place(table, variant));
  }

  /** Appending moves nothing: both builds write a common message alike. */
  lemma ExtensionWritesTheSame(older: Build, newer: Build, m: ChunkMessage)
    requires Declared(newer) && Extends(newer, older) && Knows(older, m)
    ensures Knows(newer, m) && EncodeBy(newer, m) == EncodeBy(older, m)
  {
    PlaceInExtension(older.bodies, newer.bodies, m.body.Index());
    if m.body.Error().Some? {
      PlaceInExtension(older.errors, newer.errors, m.body.Error().value.Index());
    }
  }

  function SampleError(variant: nat, a: XorName): (e: ProtocolError)
    requires variant < ERROR_VARIANTS
    ensures e.Index() == variant && |EncodeErrorFields(e)| <= 64
  {
    match variant
    case 0 => SerializationFailed([])
    case 1 => DeserializationFailed([])
    case 2 => MessageTooLarge(0, 0)
    case 3 => ChunkTooLarge(0, 0)
    case 4 => AddressMismatch(a, a)
    case 5 => StorageFailed([])
    case 6 => PaymentFailed([])
    case 7 => QuoteFailed([])
    case 8 => Internal([])
    case 9 => ClientUpdateRequired(0, 0)
    case 10 => StorerUpdateRequired(0, 0)
  }

  function SampleRequest(variant: nat, a: XorName): (body: ChunkMessageBody)
    requires variant < BODY_VARIANTS && ErrorVariant(variant) == 0
    ensures body.Index() == variant && body.Error() == None && |EncodeFields(body)| <= 64
  {
    match variant
    case 0 => PutRequest(ChunkPutRequest(a, [], None))
    case 2 => GetRequest(a)
    case 4 => QuoteRequest(ChunkQuoteRequest(a, 0, 0))
    case 6 => MerkleRequest(MerkleCandidateQuoteRequest(a, 0, 0, 0))
    case 8 => QuoteRequestV2(ChunkQuoteRequest(a, 0, 0), 0)
    case 9 => MerkleRequestV2(MerkleCandidateQuoteRequest(a, 0, 0, 0), 0)
    case 10 => PointerPut(PointerPutRequest([], None))
    case 12 => PointerGet(a)
    case 14 => GetOrCloserRequest(a)
  }

  function SampleResponse(variant: nat, a: XorName): (body: ChunkMessageBody)
    requires variant < BODY_VARIANTS && ErrorVariant(variant) > 0
    ensures body.Index() == variant && body.Error() == None && |EncodeFields(body)| <= 64
  {
    match variant
    case 1 => PutResponse(PutSuccess(a))
    case 3 => GetResponse(GetNotFound(a))
    case 5 => QuoteResponse(QuoteSuccess([], false, None))
    case 7 => MerkleResponse(CandidateSuccess([], None))
    case 11 => PointerPutReply(PointerPutPaymentRequired([]))
    case 13 => PointerGetReply(PointerGetNotFound(a))
    case 15 => GetOrCloserReply(CloserPeers(a, []))
  }

  /** A small message with a given body variant. */
  function Sample(variant: nat, a: XorName): (m: ChunkMessage)
    requires variant < BODY_VARIANTS
    ensures m.requestId == 0 && m.body.Index() == variant && m.body.Error() == None && |EncodeFields(m.body)| <= 64
  {
    ChunkMessage(0, if ErrorVariant(variant) == 0 then SampleRequest(variant, a) else SampleResponse(variant, a))
  }

  lemma ShortPlace(place: uint32)
    ensures |Varint(place)| <= 10
  {
    ChunkMessageProofs.Powers();
    VarintLength(place, 10);
  }

  /** A small message with the body at `k`. */
  lemma BodySample(writer: Build, k: nat) returns (m: ChunkMessage)
    requires Declared(writer) && k < |writer.bodies|
    ensures Knows(writer, m) && |EncodeBy(writer, m)| <= MAX_WIRE_MESSAGE_SIZE
    ensures m.body.Index() == writer.bodies[k] && m.body.Error() == None && Place(writer.bodies, m.body.Index()) == k
  {
    assert writer.bodies[k] in writer.bodies;
    m := Sample(writer.bodies[k], ZERO_NAME);
    PlaceIsUnique(writer.bodies, k);
    ShortPlace(k);
  }

  /** A small message with the error at `k`. */
  lemma ErrorSample(writer: Build, response: nat, k: nat) returns (m: ChunkMessage)
    requires Declared(writer) && response in writer.bodies && ErrorVariant(response) > 0 && k < |writer.errors|
    ensures Knows(writer, m) && |EncodeBy(writer, m)| <= MAX_WIRE_MESSAGE_SIZE && m.body.Index() == response
    ensures m.body.Error().Some? && m.body.Error().value.Index() == writer.errors[k]
    ensures Place(writer.errors, m.body.Error().value.Index()) == k
  {
    assert writer.errors[k] in writer.errors;
    var e := SampleError(writer.errors[k], ZERO_NAME);
    m := ChunkMessage(0, ErrorResponse(response, e));
    PlaceIsUnique(writer.errors, k);
    ShortPlace(k);
    ShortPlace(Place(writer.bodies, response));
  }

  // ---------------------------------------------------------------------------
  // One message
  // ---------------------------------------------------------------------------

  /** The reader has the variant where the writer puts it. */
  ghost predicate InPlace(reader: seq<nat>, writer: seq<nat>, variant: nat)
    requires variant in writer
  {
    Place(writer, variant) < |reader| && reader[Place(writer, variant)] == variant
  }

  ghost predicate MessageInPlace(reader: Build, writer: Build, m: ChunkMessage)
    requires Knows(writer, m)
  {
    && InPlace(reader.bodies, writer.bodies, m.body.Index())
    && (m.body.Error().Some? ==> InPlace(reader.errors, writer.errors, m.body.Error().value.Index()))
  }

  /** A variant is read as whatever stands at its place. */
  lemma TagIsReadByPlace(reader: Build, id: uint64, place: uint32, fields: Bytes)
    ensures place >= |reader.bodies| ==>
              TakeMessage(reader, Varint(id) + (Varint(place) + fields)) == Bad(UnknownVariant)
    ensures place < |reader.bodies| && TakeFields(reader, reader.bodies[place], fields).Bad? ==>
              TakeMessage(reader, Varint(id) + (Varint(place) + fields)).Bad?
    ensures place < |reader.bodies| && TakeFields(reader, reader.bodies[place], fields).Ok? ==>
              var r := TakeFields(reader, reader.bodies[place], fields);
              TakeMessage(reader, Varint(id) + (Varint(place) + fields)) == Ok(ChunkMessage(id, r.value), r.rest)
  {
    U64RoundTrip(id, Varint(place) + fields);
    U32RoundTrip(place, fields);
  }

  /** An error is read as whatever stands at its place. */
  lemma ErrorIsReadByPlace(reader: Build, response: nat, place: uint32, e: ProtocolError)
    requires ErrorVariant(response) > 0
    requires place >= |reader.errors| || reader.errors[place] != e.Index()
    ensures var b := Varint(ErrorVariant(response)) + (Varint(place) + EncodeErrorFields(e));
            TakeFields(reader, response, b).Ok? ==> TakeFields(reader, response, b).value.Error() != Some(e)
  {
    var fields := Varint(place) + EncodeErrorFields(e);
    VariantRoundTrip(ErrorVariant(response), ErrorVariant(response) + 1, fields);
    U32RoundTrip(place, EncodeErrorFields(e));
  }

  lemma FieldsReadExactlyWhenInPlace(reader: Build, writer: Build, body: ChunkMessageBody)
    requires Declared(writer) && KnowsError(writer, body)
    ensures body.Error() == None || InPlace(reader.errors, writer.errors, body.Error().value.Index()) ==>
              TakeFields(reader, body.Index(), EncodeFieldsBy(writer, body)) == Ok(body, [])
    ensures body.Error().Some? && !InPlace(reader.errors, writer.errors, body.Error().value.Index()) ==>
              TakeFields(reader, body.Index(), EncodeFieldsBy(writer, body)).Bad?
              || TakeFields(reader, body.Index(), EncodeFieldsBy(writer, body)).value != body
  {
    var fields := EncodeFieldsBy(writer, body);
    assert fields + [] == fields;
    if body.Error() == None {
      ChunkMessageProofs.PlainFieldsRoundTrip(reader, body, []);
    } else {
      var e := body.Error().value;
      var place := Place(writer.errors, e.Index());
      ChunkMessageProofs.ErrorResponseLayout(body, e);
      if InPlace(reader.errors, writer.errors, e.Index()) {
        ChunkMessageProofs.ErrorResponseRoundTrip(reader, body.Index(), place, e, []);
      } else {
        ErrorIsReadByPlace(reader, body.Index(), place, e);
      }
    }
  }

  /** For any two builds and every message of the writer's that fits the cap: it
      is read as it was meant exactly when the reader has its variant, and its
      error if it carries one, where the writer puts them. Only what is displaced
      is lost or misread. */
  lemma ReadExactlyWhenInPlace(reader: Build, writer: Build, m: ChunkMessage)
    requires Declared(writer) && Knows(writer, m) && |EncodeBy(writer, m)| <= MAX_WIRE_MESSAGE_SIZE
    ensures DecodeBy(reader, EncodeBy(writer, m)) == Success(m) <==> MessageInPlace(reader, writer, m)
  {
    var place := Place(writer.bodies, m.body.Index());
    var fields := EncodeFieldsBy(writer, m.body);
    TagIsReadByPlace(reader, m.requestId, place, fields);
    if place < |reader.bodies| {
      ChunkReading.TakenFieldsAreTheVariant(reader, reader.bodies[place], fields);
      FieldsReadExactlyWhenInPlace(reader, writer, m.body);
    }
  }

  // ---------------------------------------------------------------------------
  // Whole builds
  // ---------------------------------------------------------------------------

  ghost predicate SameAt(reader: seq<nat>, writer: seq<nat>, k: nat)
    requires k < |writer|
  {
    k < |reader| && reader[k] == writer[k]
  }

  /** The variants of both tables stand at one place. */
  ghost predicate Undisplaced(reader: seq<nat>, writer: seq<nat>) {
    forall k :: 0 <= k < |writer| && writer[k] in reader ==> SameAt(reader, writer, k)
  }

  /** A response both builds declare, so that errors can pass between them. */
  ghost predicate ShareResponse(reader: Build, writer: Build) {
    exists r :: r in reader.bodies && r in writer.bodies && ErrorVariant(r) > 0
  }

  /** Every message both declare, and that fits the cap, is read as it was meant. */
  ghost predicate ReadsCommon(reader: Build, writer: Build) {
    forall m: ChunkMessage ::
      Knows(reader, m) && Knows(writer, m) && |EncodeBy(writer, m)| <= MAX_WIRE_MESSAGE_SIZE ==>
        DecodeBy(reader, EncodeBy(writer, m)) == Success(m)
  }

  lemma CommonSamplesArePlaced(reader: Build, writer: Build)
    requires Declared(writer) && ReadsCommon(reader, writer)
    ensures Undisplaced(reader.bodies, writer.bodies)
    ensures ShareResponse(reader, writer) ==> Undisplaced(reader.errors, writer.errors)
  {
    forall k | 0 <= k < |writer.bodies| && writer.bodies[k] in reader.bodies
      ensures SameAt(reader.bodies, writer.bodies, k)
    {
      var m := BodySample(writer, k);
      ReadExactlyWhenInPlace(reader, writer, m);
    }
    if r :| r in reader.bodies && r in writer.bodies && ErrorVariant(r) > 0 {
      forall k | 0 <= k < |writer.errors| && writer.errors[k] in reader.errors
        ensures SameAt(reader.errors, writer.errors, k)
      {
        var m := ErrorSample(writer, r, k);
        ReadExactlyWhenInPlace(reader, writer, m);
      }
    }
  }

  /** What an existing peer needs of a newer build, or a newer of an older: it
      reads every message they share exactly when no shared variant is displaced.
      Where variants are appended, dropped or replaced elsewhere does not matter. */
  lemma ReadsCommonExactlyWhenUndisplaced(reader: Build, writer: Build)
    requires Declared(writer)
    ensures ReadsCommon(reader, writer) <==>
              && Undisplaced(reader.bodies, writer.bodies)
              && (ShareResponse(reader, writer) ==> Undisplaced(reader.errors, writer.errors))
  {
    if ReadsCommon(reader, writer) {
      CommonSamplesArePlaced(reader, writer);
    }
    if Undisplaced(reader.bodies, writer.bodies)
              && (ShareResponse(reader, writer) ==> Undisplaced(reader.errors, writer.errors)) {
      forall m: ChunkMessage | Knows(reader, m) && Knows(writer, m) && |EncodeBy(writer, m)| <= MAX_WIRE_MESSAGE_SIZE
        ensures DecodeBy(reader, EncodeBy(writer, m)) == Success(m)
      {
        ReadExactlyWhenInPlace(reader, writer, m);
        if m.body.Error().Some? {
          ChunkMessageProofs.ErrorResponseLayout(m.body, m.body.Error().value);
        }
      }
    }
  }

  lemma PrefixByPlaces(table: seq<nat>, longer: seq<nat>)
    requires forall k :: 0 <= k < |table| ==> SameAt(longer, table, k)
    ensures table <= longer
  {
    if table != [] {
      assert SameAt(longer, table, |table| - 1);
      forall k | 0 <= k < |table|
        ensures table[k] == longer[k]
      {
        assert SameAt(longer, table, k);
      }
    }
  }

  lemma AllSamplesArePlaced(reader: Build, writer: Build)
    requires Declared(writer) && Reads(reader, writer)
    ensures writer.bodies <= reader.bodies
    ensures (exists r :: r in writer.bodies && ErrorVariant(r) > 0) ==> writer.errors <= reader.errors
  {
    forall k | 0 <= k < |writer.bodies|
      ensures SameAt(reader.bodies, writer.bodies, k)
    {
      var m := BodySample(writer, k);
      ReadExactlyWhenInPlace(reader, writer, m);
    }
    PrefixByPlaces(writer.bodies, reader.bodies);
    if r :| r in writer.bodies && ErrorVariant(r) > 0 {
      forall k | 0 <= k < |writer.errors|
        ensures SameAt(reader.errors, writer.errors, k)
      {
        var m := ErrorSample(writer, r, k);
        ReadExactlyWhenInPlace(reader, writer, m);
      }
      PrefixByPlaces(writer.errors, reader.errors);
    }
  }

  /** What an upgraded build needs: it reads every message of the build before it
      exactly when its bodies are the older ones with variants appended, and,
      where the older can answer with an error, so are its errors. */
  lemma ReadsExactlyWhenAppended(reader: Build, writer: Build)
    requires Declared(writer)
    ensures Reads(reader, writer) <==>
              && writer.bodies <= reader.bodies
              && ((exists k :: k in writer.bodies && ErrorVariant(k) > 0) ==> writer.errors <= reader.errors)
  {
    if Reads(reader, writer) {
      AllSamplesArePlaced(reader, writer);
    }
    if writer.bodies <= reader.bodies
              && ((exists k :: k in writer.bodies && ErrorVariant(k) > 0) ==> writer.errors <= reader.errors) {
      forall m: ChunkMessage | Knows(writer, m) && |EncodeBy(writer, m)| <= MAX_WIRE_MESSAGE_SIZE
        ensures DecodeBy(reader, EncodeBy(writer, m)) == Success(m)
      {
        ReadExactlyWhenInPlace(reader, writer, m);
        if m.body.Error().Some? {
          ChunkMessageProofs.ErrorResponseLayout(m.body, m.body.Error().value);
        }
      }
    }
  }

  /** Today's declarations with the get-or-closer request inserted before the
      pointer request instead of appended. */
  const INSERTED := Build(InOrder(12) + [14, 12, 13, 15], InOrder(ERROR_VARIANTS))

  lemma InsertedTable()
    ensures Declared(INSERTED) && 14 in INSERTED.bodies && Place(INSERTED.bodies, 14) == 12
  {
    assert INSERTED.bodies[12] == 14;
    PlaceIsUnique(INSERTED.bodies, 12);
  }

  /** An address spelled as a pointer request's field is one of today's pointer
      requests, and short. */
  lemma PointerRequestIsShort(id: uint64, a: XorName)
    ensures var m := ChunkMessage(id, PointerGet(a));
            Encode(m) == Varint(id) + (Varint(12) + a) && Decode(Encode(m)) == Success(m)
  {
    var m := ChunkMessage(id, PointerGet(a));
    ChunkMessageProofs.Powers();
    VarintLength(id, 10);
    assert Encode(m) + [] == Encode(m);
    ChunkMessageProofs.DecodeOfEncode(m, []);
  }

  /** Its get-or-closer requests are silently read as requests for a pointer. */
  lemma InsertedVariantIsMisread(id: uint64, a: XorName)
    ensures var m := ChunkMessage(id, GetOrCloserRequest(a));
            && Declared(INSERTED) && Knows(INSERTED, m)
            && Decode(EncodeBy(INSERTED, m)) == Success(ChunkMessage(id, PointerGet(a)))
  {
    InsertedTable();
    PointerRequestIsShort(id, a);
    assert EncodeBy(INSERTED, ChunkMessage(id, GetOrCloserRequest(a))) == Varint(id) + (Varint(12) + a);
  }

  /** The byte after the request id names the variant, at its published value. */
  lemma WireDiscriminants(m: ChunkMessage)
    ensures var tag := Encode(m)[|Varint(m.requestId)|];
            && (tag == 0 <==> m.body.PutRequest?) && (tag == 1 <==> m.body.PutResponse?)
            && (tag == 2 <==> m.body.GetRequest?) && (tag == 3 <==> m.body.GetResponse?)
            && (tag == 4 <==> m.body.QuoteRequest?) && (tag == 5 <==> m.body.QuoteResponse?)
            && (tag == 6 <==> m.body.MerkleRequest?) && (tag == 7 <==> m.body.MerkleResponse?)
            && (tag == 8 <==> m.body.QuoteRequestV2?) && (tag == 9 <==> m.body.MerkleRequestV2?)
            && (tag == 10 <==> m.body.PointerPut?) && (tag == 11 <==> m.body.PointerPutReply?)
            && (tag == 12 <==> m.body.PointerGet?) && (tag == 13 <==> m.body.PointerGetReply?)
            && (tag == 14 <==> m.body.GetOrCloserRequest?) && (tag == 15 <==> m.body.GetOrCloserReply?)
    ensures m.requestId == 0 ==> |Varint(m.requestId)| == 1
  {
  }
}
