/** Storage commitments: the bytes their signature covers, and the pin a quote
    names them by. */
module Commitment {
  import opened Wrappers
  import opened ByteStrings
  import opened Crypto
  import opened Postcard
  import opened PostcardPieces

  const DOMAIN_COMMITMENT := "autonomi.ant.replication.storage_commitment.v1"
  const DOMAIN_COMMITMENT_HASH := "autonomi.ant.replication.commitment_hash.v1"

  datatype StorageCommitment = StorageCommitment(
    root: XorName, keyCount: uint32, senderPeerId: XorName, senderPublicKey: Blob, signature: Blob)

  /** What the signature covers. */
  datatype SignedFields = SignedFields(root: XorName, keyCount: uint32, senderPeerId: XorName, senderPublicKey: Blob)

  function SignedFieldsOf(c: StorageCommitment): SignedFields {
    SignedFields(c.root, c.keyCount, c.senderPeerId, c.senderPublicKey)
  }

  function Saturated(n: nat): uint32 {
    if n <= UINT32_MAX then n else UINT32_MAX
  }

  /** The fixed-width part of the payload, up to the key itself. */
  function Header(c: SignedFields): (b: Bytes)
    ensures |b| == 72
  {
    c.root + ToLittleEndian(c.keyCount, 4) + c.senderPeerId + ToLittleEndian(Saturated(|c.senderPublicKey|), 4)
  }

  function Payload(c: SignedFields): Bytes {
    Header(c) + c.senderPublicKey
  }

  /** `commitment_signed_payload`: the fields, appended one by one. */
  method SignedPayload(root: XorName, keyCount: uint32, senderPeerId: XorName, senderPublicKey: Blob)
    returns (v: Bytes)
    ensures v == Payload(SignedFields(root, keyCount, senderPeerId, senderPublicKey))
  {
    v := root;
    v := v + ToLittleEndian(keyCount, 4);
    v := v + senderPeerId;
    v := v + ToLittleEndian(Saturated(|senderPublicKey|), 4);
    v := v + senderPublicKey;
  }

  /** What four little-endian bytes are worth: their value from the last one on. */
  function Worth(b: Bytes): nat
    requires |b| == 4
  {
    Value([b[3], b[2], b[1], b[0]])
  }

  lemma LittleEndianWorth(n: uint32)
    ensures Worth(ToLittleEndian(n, 4)) == n
  {
    var s := ToLittleEndian(n, 4);
    Pow256Of4And8();
    LittleEndianReadsBackwards(n, 4, [s[3], s[2], s[1], s[0]]);
  }

  /** The payload byte range by byte range: the counts are little-endian, and the
      key's length is given as at most 32 bits allow. */
  lemma PayloadLayout(c: SignedFields)
    ensures var p := Payload(c);
            && |p| == 72 + |c.senderPublicKey|
            && p[..32] == c.root && Worth(p[32..36]) == c.keyCount && p[36..68] == c.senderPeerId
            && Worth(p[68..72]) == (if |c.senderPublicKey| < 0xFFFF_FFFF then |c.senderPublicKey| else 0xFFFF_FFFF)
            && p[72..] == c.senderPublicKey
  {
    var p := Payload(c);
    assert p[32..36] == ToLittleEndian(c.keyCount, 4);
    assert p[68..72] == ToLittleEndian(Saturated(|c.senderPublicKey|), 4);
    LittleEndianWorth(c.keyCount);
    LittleEndianWorth(Saturated(|c.senderPublicKey|));
  }

  lemma EqualHeaders(c: SignedFields, d: SignedFields)
    requires Header(c) == Header(d)
    ensures c.root == d.root && c.keyCount == d.keyCount && c.senderPeerId == d.senderPeerId
    ensures Saturated(|c.senderPublicKey|) == Saturated(|d.senderPublicKey|)
  {
    var b := Header(c);
    assert b[..32] == c.root && Header(d)[..32] == d.root;
    assert b[32..36] == ToLittleEndian(c.keyCount, 4) && Header(d)[32..36] == ToLittleEndian(d.keyCount, 4);
    assert b[36..68] == c.senderPeerId && Header(d)[36..68] == d.senderPeerId;
    assert b[68..] == ToLittleEndian(Saturated(|c.senderPublicKey|), 4);
    assert Header(d)[68..] == ToLittleEndian(Saturated(|d.senderPublicKey|), 4);
    Pow256Of4And8();
    LittleEndianInjective(c.keyCount, d.keyCount, 4);
    LittleEndianInjective(Saturated(|c.senderPublicKey|), Saturated(|d.senderPublicKey|), 4);
  }

  /** One payload continues another exactly when the fields agree but for key
      bytes appended past the point where the length field saturates. */
  lemma PayloadContinues(c: SignedFields, rest: Bytes, d: SignedFields)
    ensures Payload(c) + rest == Payload(d) <==>
              && c.root == d.root && c.keyCount == d.keyCount && c.senderPeerId == d.senderPeerId
              && c.senderPublicKey + rest == d.senderPublicKey
              && (rest == [] || |c.senderPublicKey| >= UINT32_MAX)
  {
    assert (Payload(c) + rest)[..72] == Header(c) && Payload(d)[..72] == Header(d);
    assert (Payload(c) + rest)[72..] == c.senderPublicKey + rest && Payload(d)[72..] == d.senderPublicKey;
    if Payload(c) + rest == Payload(d) {
      EqualHeaders(c, d);
    }
  }

  /** The payload determines every field it covers, for keys of any length. */
  lemma PayloadIsInjective(c: SignedFields, d: SignedFields)
    ensures Payload(c) == Payload(d) <==> c == d
  {
    PayloadContinues(c, [], d);
    assert Payload(c) + [] == Payload(c) && c.senderPublicKey + [] == c.senderPublicKey;
  }

  // ---------------------------------------------------------------------------
  // The signature
  // ---------------------------------------------------------------------------

  /** `verify_commitment_signature`. */
  function VerifyCommitmentSignature(crypto: Scheme, c: StorageCommitment): bool {
    match crypto.decodeKey(c.senderPublicKey)
    case Failure(_) => false
    case Success(key) =>
      match crypto.decodeSignature(c.signature)
      case Failure(_) => false
      case Success(signature) =>
        match crypto.verify(key, Payload(SignedFieldsOf(c)), signature, DOMAIN_COMMITMENT)
        case Failure(_) => false
        case Success(accepted) => accepted
  }

  /** A commitment is accepted exactly when its key and signature decode and the
      signature verifies over its payload, in the commitments' own context. */
  lemma AcceptedExactlyWhenSigned(crypto: Scheme, c: StorageCommitment)
    ensures VerifyCommitmentSignature(crypto, c) <==>
              exists key, signature ::
                && crypto.decodeKey(c.senderPublicKey) == Success(key)
                && crypto.decodeSignature(c.signature) == Success(signature)
                && crypto.verify(key, Payload(SignedFields(c.root, c.keyCount, c.senderPeerId, c.senderPublicKey)),
                                 signature, "autonomi.ant.replication.storage_commitment.v1") == Success(true)
  {
  }

  /** What a key pair signs is accepted, under the key it names. */
  lemma SignedCommitmentVerifies(crypto: Scheme, sk: SecretKey, pk: PublicKey, coins: int, c: StorageCommitment)
    requires crypto.Sound() && crypto.isPair(sk, pk) && |crypto.encodeKey(pk)| == PUBLIC_KEY_LEN
    requires c.senderPublicKey == crypto.encodeKey(pk)
    requires var s := crypto.sign(sk, Payload(SignedFieldsOf(c)), DOMAIN_COMMITMENT, coins);
             s.Success? && c.signature == crypto.encodeSignature(s.value)
    ensures VerifyCommitmentSignature(crypto, c)
  {
  }

  /** An accepted commitment has a key and a signature of the ML-DSA-65 lengths;
      and if the same signature is accepted under changed fields or a swapped
      key, it verifies over both payloads, which differ. */
  lemma TamperingChangesTheMessage(crypto: Scheme, c: StorageCommitment, d: StorageCommitment)
    requires crypto.Sound() && VerifyCommitmentSignature(crypto, c) && VerifyCommitmentSignature(crypto, d)
    requires c != d && c.signature == d.signature
    ensures |c.senderPublicKey| == PUBLIC_KEY_LEN && |c.signature| == SIGNATURE_LEN
    ensures var (m, n) := (Payload(SignedFieldsOf(c)), Payload(SignedFieldsOf(d)));
            var s := crypto.decodeSignature(c.signature);
            && m != n && s.Success?
            && (exists k :: crypto.encodeKey(k) == c.senderPublicKey
                            && crypto.verify(k, m, s.value, DOMAIN_COMMITMENT) == Success(true))
            && (exists k :: crypto.encodeKey(k) == d.senderPublicKey
                            && crypto.verify(k, n, s.value, DOMAIN_COMMITMENT) == Success(true))
  {
    PayloadIsInjective(SignedFieldsOf(c), SignedFieldsOf(d));
    var k, l := crypto.decodeKey(c.senderPublicKey).value, crypto.decodeKey(d.senderPublicKey).value;
    assert crypto.encodeKey(k) == c.senderPublicKey && crypto.encodeKey(l) == d.senderPublicKey;
  }

  // ---------------------------------------------------------------------------
  // The pin
  // ---------------------------------------------------------------------------

  /** The Postcard encoding: fields in order, counts as varints. */
  function Encode(c: StorageCommitment): Bytes {
    c.root + (Varint(c.keyCount) + (c.senderPeerId + (EncodeBlob(c.senderPublicKey) + EncodeBlob(c.signature))))
  }

  /** A reader of that encoding. */
  function Take(b: Bytes): Decoded<StorageCommitment> {
    match TakeName(b) case Bad(e) => Bad(e) case Ok(root, b1) =>
    match TakeU32(b1) case Bad(e) => Bad(e) case Ok(keyCount, b2) =>
    match TakeName(b2) case Bad(e) => Bad(e) case Ok(peer, b3) =>
    match TakeBlob(b3) case Bad(e) => Bad(e) case Ok(key, b4) =>
    match TakeBlob(b4) case Bad(e) => Bad(e) case Ok(signature, rest) =>
    Ok(StorageCommitment(root, keyCount, peer, key, signature), rest)
  }

  /** The fields in the order declared. */
  function Pieces(c: StorageCommitment): seq<Piece> {
    [Raw(c.root), Narrow(c.keyCount), Raw(c.senderPeerId)] + (Counted(c.senderPublicKey) + Counted(c.signature))
  }

  lemma CommitmentWriting(c: StorageCommitment)
    ensures Encode(c) == Write(Pieces(c))
  {
    var vectors := Counted(c.senderPublicKey) + Counted(c.signature);
    CountedWriting(c.senderPublicKey);
    CountedWriting(c.signature);
    WriteBoth(Counted(c.senderPublicKey), Counted(c.signature));
    WriteBoth([Raw(c.senderPeerId)], vectors);
    WriteOne(Raw(c.senderPeerId));
    WriteBoth([Narrow(c.keyCount)], [Raw(c.senderPeerId)] + vectors);
    WriteOne(Narrow(c.keyCount));
    NumbersAreVarints(c.keyCount);
    WriteBoth([Raw(c.root)], [Narrow(c.keyCount)] + ([Raw(c.senderPeerId)] + vectors));
    WriteOne(Raw(c.root));
    assert Pieces(c) == [Raw(c.root)] + ([Narrow(c.keyCount)] + ([Raw(c.senderPeerId)] + vectors));
  }

  lemma CommitmentRoundTrip(c: StorageCommitment, rest: Bytes)
    ensures Take(Encode(c) + rest) == Ok(c, rest)
  {
    var b4 := EncodeBlob(c.signature) + rest;
    var b3 := EncodeBlob(c.senderPublicKey) + b4;
    var b2 := c.senderPeerId + b3;
    var b1 := Varint(c.keyCount) + b2;
    assert Encode(c) + rest == c.root + b1;
    NameRoundTrip(c.root, b1);
    U32RoundTrip(c.keyCount, b2);
    NameRoundTrip(c.senderPeerId, b3);
    BlobRoundTrip(c.senderPublicKey, b4);
    BlobRoundTrip(c.signature, rest);
  }

  function Ascii(s: string): Bytes {
    seq(|s|, i requires 0 <= i < |s| => if s[i] < 128 as char then s[i] as int else 0)
  }

  /** A character at a time, for the ASCII strings the domain tags are. */
  lemma AsciiSpells(s: string)
    ensures |Ascii(s)| == |s|
    ensures forall i :: 0 <= i < |s| && s[i] < 128 as char ==> Ascii(s)[i] as char == s[i]
  {
  }

  /** What the pin is the hash of. */
  function Preimage(c: StorageCommitment): Bytes {
    Ascii(DOMAIN_COMMITMENT_HASH) + Encode(c)
  }

  /** The incremental hasher: what it has absorbed so far. */
  class Hasher {
    const crypto: Scheme
    var absorbed: Bytes

    constructor (crypto: Scheme)
      ensures this.crypto == crypto && absorbed == []
    {
      this.crypto, absorbed := crypto, [];
    }

    method Update(chunk: Bytes)
      modifies this
      ensures absorbed == old(absorbed) + chunk
    {
      absorbed := absorbed + chunk;
    }

    method Finalize() returns (digest: XorName)
      ensures digest == crypto.digest(Plain, absorbed)
    {
      digest := crypto.digest(Plain, absorbed);
    }
  }

  /** `commitment_hash`; serialization never fails for a commitment. */
  method CommitmentHash(crypto: Scheme, c: StorageCommitment) returns (pin: XorName)
    ensures pin == crypto.digest(Plain, Preimage(c))
  {
    var h := new Hasher(crypto);
    h.Update(Ascii(DOMAIN_COMMITMENT_HASH));
    h.Update(Encode(c));
    assert h.absorbed == Preimage(c);
    pin := h.Finalize();
  }

  /** The preimage is the 43 characters of the tag, then the encoding's pieces. */
  lemma PreimageLayout(c: StorageCommitment)
    ensures var tag := "autonomi.ant.replication.commitment_hash.v1";
            && |Preimage(c)| >= |tag| == 43
            && (forall i :: 0 <= i < |tag| ==> Preimage(c)[i] as char == tag[i])
            && Preimage(c)[43..] == Write(Pieces(c))
  {
    AsciiSpells(DOMAIN_COMMITMENT_HASH);
    CommitmentWriting(c);
  }

  /** A pin names one commitment, signature included: two commitments have one
      pin exactly when they are equal or exhibit a collision of the hash. */
  lemma PinNamesTheCommitment(crypto: Scheme, c: StorageCommitment, d: StorageCommitment)
    ensures Preimage(c) == Preimage(d) <==> c == d
    ensures crypto.digest(Plain, Preimage(c)) == crypto.digest(Plain, Preimage(d)) <==>
              c == d || crypto.Collision(Plain, Preimage(c), Preimage(d))
  {
    if Preimage(c) == Preimage(d) {
      var n := |Ascii(DOMAIN_COMMITMENT_HASH)|;
      assert Preimage(c)[n..] == Encode(c) && Preimage(d)[n..] == Encode(d);
      CommitmentRoundTrip(c, []);
      CommitmentRoundTrip(d, []);
    }
  }
}
