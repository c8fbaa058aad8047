/** Pointer records: state, merge rule, hand-written codec, signing. */
module PointerRecord {
  import opened Wrappers
  import opened ByteStrings
  import opened Crypto

  const POINTER_FORMAT_VERSION: byte := 1
  const FINAL_COUNTER: uint64 := UINT64_MAX
  const TARGET_WIRE_LEN := 1 + XOR_NAME_LEN
  const OWNER_OFFSET := 1
  const COUNTER_OFFSET := OWNER_OFFSET + PUBLIC_KEY_LEN
  const TARGET_OFFSET := COUNTER_OFFSET + 8
  const POINTER_BODY_LEN := TARGET_OFFSET + TARGET_WIRE_LEN
  const POINTER_WIRE_LEN := POINTER_BODY_LEN + SIGNATURE_LEN
  const CONTEXT_ADDRESS := "autonomi.pointer.address.v1"
  const CONTEXT_STATE := "autonomi.pointer.state.v1"
  const SIGNING_CONTEXT := "autonomi.pointer.head.v1"

  datatype PointerError =
    | WrongLength(len: nat)
    | UnknownFormatVersion(version: byte)
    | InvalidOwnerKey(reason: string)
    | InvalidSignatureFormat(reason: string)
    | SignatureInvalid
    | SigningFailed(reason: string)
    | CounterExhausted

  // ---------------------------------------------------------------------------
  // Target
  // ---------------------------------------------------------------------------

  datatype PointerTargetKind = ChunkTarget | AnotherPointer {
    function Tag(): byte {
      match this
      case ChunkTarget => 0
      case AnotherPointer => 1
    }

    static function FromTag(tag: byte): Option<PointerTargetKind> {
      if tag == 0 then Some(ChunkTarget)
      else if tag == 1 then Some(AnotherPointer)
      else None
    }
  }

  datatype PointerTarget = PointerTarget(kindTag: byte, address: XorName) {
    static function New(kind: PointerTargetKind, address: XorName): PointerTarget {
      PointerTarget(kind.Tag(), address)
    }

    /** The kind, if this build knows the tag. */
    function Kind(): Option<PointerTargetKind> {
      PointerTargetKind.FromTag(kindTag)
    }

    function ToBytes(): (wire: Bytes)
      ensures |wire| == TARGET_WIRE_LEN
    {
      [kindTag] + address
    }

    static function FromBytes(bytes: Bytes): Option<PointerTarget> {
      if |bytes| == 0 || |bytes| - 1 != XOR_NAME_LEN then None
      else Some(PointerTarget(bytes[0], bytes[1..]))
    }

    /** The encoding, filled in place: first the tag, then the address. */
    method WriteBytes() returns (out: array<byte>)
      ensures fresh(out) && out[..] == ToBytes()
    {
      out := new byte[TARGET_WIRE_LEN](_ => 0);
      out[0] := kindTag;
      for i := 0 to XOR_NAME_LEN
        invariant out[0] == kindTag
        invariant forall k :: 0 <= k < i ==> out[1 + k] == address[k]
      {
        out[1 + i] := address[i];
      }
    }

    /** The decoding: the address is copied into a zeroed buffer. */
    static method ReadBytes(bytes: Bytes) returns (target: Option<PointerTarget>)
      ensures target == FromBytes(bytes)
      ensures target.Some? <==> |bytes| == TARGET_WIRE_LEN
      ensures target.Some? ==> target.value.ToBytes() == bytes
    {
      if |bytes| == 0 || |bytes[1..]| != XOR_NAME_LEN {
        return None;
      }
      var rest := bytes[1..];
      var address := new byte[XOR_NAME_LEN](_ => 0);
      for i := 0 to XOR_NAME_LEN
        invariant forall k :: 0 <= k < i ==> address[k] == rest[k]
      {
        address[i] := rest[i];
      }
      assert address[..] == rest;
      target := Some(PointerTarget(bytes[0], address[..]));
    }
  }

  /** The 33-byte target encoding loses nothing and every 33 bytes are one. */
  lemma TargetRoundTrip(t: PointerTarget, bytes: Bytes)
    ensures PointerTarget.FromBytes(t.ToBytes()) == Some(t)
    ensures PointerTarget.FromBytes(bytes).Some? <==> |bytes| == TARGET_WIRE_LEN
    ensures PointerTarget.FromBytes(bytes).Some? ==>
              PointerTarget.FromBytes(bytes).value.ToBytes() == bytes
  {
    assert t.ToBytes()[1..] == t.address;
  }

  // ---------------------------------------------------------------------------
  // State and merge rule
  // ---------------------------------------------------------------------------

  /** Rust derives the order field by field; the target is inverted. */
  datatype MergeRank = MergeRank(counter: uint64, target: Bytes) {
    predicate Greater(other: MergeRank) {
      counter > other.counter ||
      (counter == other.counter && LexLess(target, other.target))
    }
  }

  datatype PointerState = PointerState(
    stateId: XorName, address: XorName, counter: uint64, target: PointerTarget)
  {
    function Rank(): MergeRank {
      MergeRank(counter, target.ToBytes())
    }

    predicate IsTerminal() {
      counter == FINAL_COUNTER
    }

    function TransferredTo(): Option<XorName> {
      TransferTarget(counter, target)
    }

    predicate Replaces(other: PointerState) {
      && address == other.address
      && !other.IsTerminal()
      && Rank().Greater(other.Rank())
    }
  }

  function TransferTarget(counter: uint64, target: PointerTarget): Option<XorName> {
    if target.Kind() == Some(AnotherPointer) && counter == FINAL_COUNTER
    then Some(target.address)
    else None
  }

  // ---------------------------------------------------------------------------
  // Codec
  // ---------------------------------------------------------------------------

  function PointerAddress(c: Scheme, owner: PublicKey): XorName {
    (c.digest)(DeriveKey(CONTEXT_ADDRESS), (c.encodeKey)(owner))
  }

  function StateIdForBody(c: Scheme, body: Bytes): XorName {
    (c.digest)(DeriveKey(CONTEXT_STATE), body)
  }

  /** The layout: version, key bytes, big-endian counter, target. */
  function Layout(version: byte, ownerBytes: Bytes, counter: uint64, target: PointerTarget): Bytes {
    [version] + ownerBytes + ToBigEndian(counter, 8) + target.ToBytes()
  }

  function EncodeBody(c: Scheme, version: byte, owner: PublicKey, counter: uint64, target: PointerTarget)
    : Result<Bytes, PointerError>
  {
    var ownerBytes := (c.encodeKey)(owner);
    if |ownerBytes| != PUBLIC_KEY_LEN then Failure(InvalidOwnerKey("wrong key length"))
    else Success(Layout(version, ownerBytes, counter, target))
  }

  function ParseWithOwner(c: Scheme, bytes: Bytes): Result<(PointerState, PublicKey), PointerError> {
    if |bytes| != POINTER_WIRE_LEN then
      Failure(WrongLength(|bytes|))
    else if bytes[0] != POINTER_FORMAT_VERSION then
      Failure(UnknownFormatVersion(bytes[0]))
    else
      var owner := (c.decodeKey)(bytes[OWNER_OFFSET..COUNTER_OFFSET]);
      if owner.Failure? then Failure(InvalidOwnerKey(owner.error)) else
      var target := PointerTarget.FromBytes(bytes[TARGET_OFFSET..POINTER_BODY_LEN]);
      if target.None? then Failure(WrongLength(|bytes|)) else
      Success((PointerState(StateIdForBody(c, bytes[..POINTER_BODY_LEN]),
                            PointerAddress(c, owner.value),
                            Uint64FromBigEndian(bytes[COUNTER_OFFSET..TARGET_OFFSET]),
                            target.value),
               owner.value))
  }

  function ParseState(c: Scheme, bytes: Bytes): Result<PointerState, PointerError> {
    var parsed :- ParseWithOwner(c, bytes);
    Success(parsed.0)
  }

  /** Bytes that travel with their parse, not yet verified. */
  datatype ParsedPointer = ParsedPointer(bytes: Bytes, state: PointerState, owner: PublicKey)

  function ParsePointer(c: Scheme, bytes: Bytes): Result<ParsedPointer, PointerError> {
    var parsed :- ParseWithOwner(c, bytes);
    Success(ParsedPointer(bytes, parsed.0, parsed.1))
  }

  datatype Pointer = Pointer(
    version: byte, owner: PublicKey, counter: uint64, target: PointerTarget, sig: Signature)
  {
    /** The signed body; empty when it cannot be encoded. */
    function Body(c: Scheme): Bytes {
      var body := EncodeBody(c, version, owner, counter, target);
      if body.Success? then body.value else []
    }

    function ToBytes(c: Scheme): Bytes {
      Body(c) + (c.encodeSignature)(sig)
    }

    function Address(c: Scheme): XorName {
      PointerAddress(c, owner)
    }

    function StateId(c: Scheme): XorName {
      StateIdForBody(c, Body(c))
    }

    function State(c: Scheme): PointerState {
      PointerState(StateId(c), Address(c), counter, target)
    }

    predicate IsTerminal() {
      counter == FINAL_COUNTER
    }

    function TransferredTo(): Option<XorName> {
      TransferTarget(counter, target)
    }

    predicate Replaces(c: Scheme, other: Pointer) {
      State(c).Replaces(other.State(c))
    }

    function NextCounter(): Result<uint64, PointerError> {
      if counter == UINT64_MAX then Failure(CounterExhausted) else Success(counter + 1)
    }
  }

  function VerifyParsed(c: Scheme, parsed: ParsedPointer): Result<Pointer, PointerError> {
    if |parsed.bytes| < POINTER_BODY_LEN then Failure(WrongLength(|parsed.bytes|)) else
    var body := parsed.bytes[..POINTER_BODY_LEN];
    var signature := (c.decodeSignature)(parsed.bytes[POINTER_BODY_LEN..]);
    if signature.Failure? then Failure(InvalidSignatureFormat(signature.error)) else
    var valid := (c.verify)(parsed.owner, body, signature.value, SIGNING_CONTEXT);
    if valid.Failure? then Failure(InvalidSignatureFormat(valid.error))
    else if !valid.value then Failure(SignatureInvalid)
    else Success(Pointer(POINTER_FORMAT_VERSION, parsed.owner, parsed.state.counter,
                         parsed.state.target, signature.value))
  }

  function FromBytes(c: Scheme, bytes: Bytes): Result<Pointer, PointerError> {
    var parsed :- ParsePointer(c, bytes);
    VerifyParsed(c, parsed)
  }

  function Sign(c: Scheme, sk: SecretKey, owner: PublicKey, counter: uint64, target: PointerTarget, coins: int)
    : Result<Pointer, PointerError>
  {
    var body :- EncodeBody(c, POINTER_FORMAT_VERSION, owner, counter, target);
    var signature := (c.sign)(sk, body, SIGNING_CONTEXT, coins);
    if signature.Failure? then Failure(SigningFailed(signature.error))
    else FromBytes(c, body + (c.encodeSignature)(signature.value))
  }

  // ---------------------------------------------------------------------------
  // Encoding into buffers
  // ---------------------------------------------------------------------------

  /** `encode_body`: pushes the four fields onto a growing buffer. */
  method WriteBody(c: Scheme, version: byte, owner: PublicKey, counter: uint64, target: PointerTarget)
    returns (r: Result<Bytes, PointerError>)
    ensures r == EncodeBody(c, version, owner, counter, target)
    ensures r.Success? ==> |r.value| == POINTER_BODY_LEN
  {
    var ownerBytes := (c.encodeKey)(owner);
    if |ownerBytes| != PUBLIC_KEY_LEN {
      return Failure(InvalidOwnerKey("wrong key length"));
    }
    var body: Bytes := [];
    body := body + [version];
    body := body + ownerBytes;
    body := body + ToBigEndian(counter, 8);
    var targetBytes := target.WriteBytes();
    body := body + targetBytes[..];
    assert body == Layout(version, ownerBytes, counter, target);
    r := Success(body);
  }

  /** `Pointer::to_bytes`: the body, then the signature. */
  method WriteRecord(c: Scheme, p: Pointer) returns (out: Bytes)
    ensures out == p.ToBytes(c)
  {
    var body := WriteBody(c, p.version, p.owner, p.counter, p.target);
    out := if body.Success? then body.value else [];
    out := out + (c.encodeSignature)(p.sig);
  }

  /** `Pointer::sign`: encode, sign, append the signature, validate. */
  method SignRecord(c: Scheme, sk: SecretKey, owner: PublicKey, counter: uint64, target: PointerTarget, coins: int)
    returns (r: Result<Pointer, PointerError>)
    ensures r == Sign(c, sk, owner, counter, target, coins)
  {
    var body := WriteBody(c, POINTER_FORMAT_VERSION, owner, counter, target);
    if body.Failure? {
      return Failure(body.error);
    }
    var signature := (c.sign)(sk, body.value, SIGNING_CONTEXT, coins);
    if signature.Failure? {
      return Failure(SigningFailed(signature.error));
    }
    var bytes := body.value;
    bytes := bytes + (c.encodeSignature)(signature.value);
    r := FromBytes(c, bytes);
  }
}
