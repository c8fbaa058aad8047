/** The pointer codec is canonical in both directions, and the cheap parse
    agrees with full validation. */
module PointerCodec {
  import opened Wrappers
  import opened ByteStrings
  import opened Crypto
  import opened PointerRecord

  /** A record whose signature covers exactly its body. */
  ghost predicate WellSigned(c: Scheme, p: Pointer) {
    && p.version == POINTER_FORMAT_VERSION
    && |(c.encodeKey)(p.owner)| == PUBLIC_KEY_LEN
    && (c.decodeSignature)((c.encodeSignature)(p.sig)) == Success(p.sig)
    && (c.verify)(p.owner, p.Body(c), p.sig, SIGNING_CONTEXT) == Success(true)
  }

  /** Every field sits at its documented offset. */
  lemma LayoutSlices(version: byte, ownerBytes: Bytes, counter: uint64, target: PointerTarget, tail: Bytes)
    requires |ownerBytes| == PUBLIC_KEY_LEN
    ensures var b := Layout(version, ownerBytes, counter, target) + tail;
            && |b| == POINTER_BODY_LEN + |tail|
            && b[0] == version
            && b[OWNER_OFFSET..COUNTER_OFFSET] == ownerBytes
            && b[COUNTER_OFFSET..TARGET_OFFSET] == ToBigEndian(counter, 8)
            && b[TARGET_OFFSET..POINTER_BODY_LEN] == target.ToBytes()
            && b[..POINTER_BODY_LEN] == Layout(version, ownerBytes, counter, target)
            && b[POINTER_BODY_LEN..] == tail
  {
  }

  /** `encode_body` is injective: the body determines every field it encodes. */
  lemma BodyIsInjective(c: Scheme, v1: byte, o1: PublicKey, n1: uint64, t1: PointerTarget,
                        v2: byte, o2: PublicKey, n2: uint64, t2: PointerTarget)
    requires c.KeysRoundTrip()
    requires EncodeBody(c, v1, o1, n1, t1).Success?
    requires EncodeBody(c, v1, o1, n1, t1) == EncodeBody(c, v2, o2, n2, t2)
    ensures v1 == v2 && o1 == o2 && n1 == n2 && t1 == t2
  {
    LayoutSlices(v1, (c.encodeKey)(o1), n1, t1, []);
    LayoutSlices(v2, (c.encodeKey)(o2), n2, t2, []);
    var b1 := Layout(v1, (c.encodeKey)(o1), n1, t1);
    var b2 := Layout(v2, (c.encodeKey)(o2), n2, t2);
    assert b1 + [] == b1 && b2 + [] == b2;
    assert (c.decodeKey)((c.encodeKey)(o1)) == Success(o1);
    assert (c.decodeKey)((c.encodeKey)(o2)) == Success(o2);
    Uint64BigEndianRoundTrip(n1);
    Uint64BigEndianRoundTrip(n2);
    TargetRoundTrip(t1, []);
    TargetRoundTrip(t2, []);
  }

  /** Encoding a well-signed record and validating the bytes returns it. */
  lemma WellSignedParses(c: Scheme, p: Pointer)
    requires c.Sound() && WellSigned(c, p)
    ensures FromBytes(c, p.ToBytes(c)) == Success(p)
  {
    var ownerBytes, sigBytes := (c.encodeKey)(p.owner), (c.encodeSignature)(p.sig);
    assert (c.decodeKey)(ownerBytes) == Success(p.owner);
    assert |sigBytes| == SIGNATURE_LEN by {
      assert (c.decodeSignature)(sigBytes).Success?;
    }
    LayoutSlices(p.version, ownerBytes, p.counter, p.target, sigBytes);
    Uint64BigEndianRoundTrip(p.counter);
    TargetRoundTrip(p.target, []);
  }

  /** Accepted bytes are reproduced byte for byte, from a well-signed record
      whose state is what the unverified parse claimed. */
  lemma AcceptedBytesAreCanonical(c: Scheme, bytes: Bytes)
    requires c.Sound() && FromBytes(c, bytes).Success?
    ensures var p := FromBytes(c, bytes).value;
            && p.ToBytes(c) == bytes
            && p.Body(c) == bytes[..POINTER_BODY_LEN]
            && WellSigned(c, p)
            && ParseState(c, bytes) == Success(p.State(c))
  {
    var p := FromBytes(c, bytes).value;
    ParseOutcome(c, bytes);
    ValidationOutcome(c, bytes);
    var sigBytes := bytes[POINTER_BODY_LEN..];
    assert c.decodeKey(bytes[1..1953]) == Success(p.owner) && c.encodeKey(p.owner) == bytes[1..1953];
    assert c.decodeSignature(sigBytes) == Success(p.sig) && c.encodeSignature(p.sig) == sigBytes;
    BodyFromRanges(c, bytes, p);
    assert bytes == bytes[..POINTER_BODY_LEN] + sigBytes;
  }

  lemma BodyFromRanges(c: Scheme, bytes: Bytes, p: Pointer)
    requires |bytes| == 5303 && bytes[0] == 1 == p.version && bytes[1..1953] == c.encodeKey(p.owner)
    requires Value(bytes[1953..1961]) == p.counter && p.target == PointerTarget(bytes[1961], bytes[1962..1994])
    ensures p.Body(c) == bytes[..1994]
  {
    Uint64BigEndianOnto(bytes[1953..1961]);
    assert bytes[..1994] == [bytes[0]] + bytes[1..1953] + bytes[1953..1961] + ([bytes[1961]] + bytes[1962..1994]);
  }

  /** The accepted byte strings are exactly the encodings of well-signed records. */
  lemma AcceptedExactlyWhenWellSigned(c: Scheme, bytes: Bytes)
    requires c.Sound()
    ensures FromBytes(c, bytes).Success? <==>
              exists p: Pointer :: WellSigned(c, p) && p.ToBytes(c) == bytes
  {
    if FromBytes(c, bytes).Success? {
      AcceptedBytesAreCanonical(c, bytes);
    }
    forall p: Pointer | WellSigned(c, p) && p.ToBytes(c) == bytes
      ensures FromBytes(c, bytes).Success?
    {
      WellSignedParses(c, p);
    }
  }

  /** Signing with a matching pair fails only where the key or the signer does;
      otherwise the record carries exactly the fields asked for. */
  lemma SignOutcome(c: Scheme, sk: SecretKey, owner: PublicKey, counter: uint64, target: PointerTarget, coins: int)
    requires c.Sound() && (c.isPair)(sk, owner)
    requires |(c.encodeKey)(owner)| == PUBLIC_KEY_LEN
    ensures var body := Layout(POINTER_FORMAT_VERSION, (c.encodeKey)(owner), counter, target);
            var signature := (c.sign)(sk, body, SIGNING_CONTEXT, coins);
            Sign(c, sk, owner, counter, target, coins) ==
            if signature.Failure? then Failure(SigningFailed(signature.error))
            else Success(Pointer(POINTER_FORMAT_VERSION, owner, counter, target, signature.value))
  {
    var body := Layout(POINTER_FORMAT_VERSION, (c.encodeKey)(owner), counter, target);
    var signature := (c.sign)(sk, body, SIGNING_CONTEXT, coins);
    if signature.Success? {
      var p := Pointer(POINTER_FORMAT_VERSION, owner, counter, target, signature.value);
      assert p.Body(c) == body;
      WellSignedParses(c, p);
    }
  }

  /** Any record `sign` returns, with any keys, survives the wire unchanged. */
  lemma SignedRecordsRoundTrip(c: Scheme, sk: SecretKey, owner: PublicKey, counter: uint64, target: PointerTarget, coins: int)
    requires c.Sound() && Sign(c, sk, owner, counter, target, coins).Success?
    ensures var p := Sign(c, sk, owner, counter, target, coins).value;
            && FromBytes(c, p.ToBytes(c)) == Success(p)
            && p.owner == owner && p.counter == counter && p.target == target
            && WellSigned(c, p) && |p.ToBytes(c)| == POINTER_WIRE_LEN
  {
    var body := Layout(POINTER_FORMAT_VERSION, (c.encodeKey)(owner), counter, target);
    var sigBytes := (c.encodeSignature)((c.sign)(sk, body, SIGNING_CONTEXT, coins).value);
    AcceptedBytesAreCanonical(c, body + sigBytes);
    LayoutSlices(POINTER_FORMAT_VERSION, (c.encodeKey)(owner), counter, target, sigBytes);
    assert (c.decodeKey)((c.encodeKey)(owner)) == Success(owner);
    Uint64BigEndianRoundTrip(counter);
    TargetRoundTrip(target, []);
  }

  /** Before and after verification every decision is the same; and what the
      cheap parse refuses, validation refuses for the same reason. */
  lemma ParseDecidesLikeValidation(c: Scheme, b1: Bytes, b2: Bytes)
    requires c.Sound()
    ensures ParseState(c, b1).Failure? ==>
              FromBytes(c, b1).Failure? && FromBytes(c, b1).error == ParseState(c, b1).error
    ensures FromBytes(c, b1).Success? && FromBytes(c, b2).Success? ==>
              var (p, q) := (FromBytes(c, b1).value, FromBytes(c, b2).value);
              && ParseState(c, b1).Success? && ParseState(c, b2).Success?
              && var (s, t) := (ParseState(c, b1).value, ParseState(c, b2).value);
              && s.stateId == p.StateId(c) && s.address == p.Address(c)
              && (s.Replaces(t) <==> p.Replaces(c, q))
              && (s.IsTerminal() <==> p.IsTerminal())
              && s.TransferredTo() == p.TransferredTo()
  {
    if FromBytes(c, b1).Success? && FromBytes(c, b2).Success? {
      AcceptedBytesAreCanonical(c, b1);
      AcceptedBytesAreCanonical(c, b2);
    }
  }

  /** The paid identifier names the state, not the encoding: whatever the two
      signatures, ids agree exactly when owner, counter and target do, or else
      the two bodies are a hash collision. */
  lemma StateIdNamesTheState(c: Scheme, p: Pointer, q: Pointer)
    requires c.Sound() && WellSigned(c, p) && WellSigned(c, q)
    ensures p.StateId(c) == q.StateId(c) <==>
              (p.owner == q.owner && p.counter == q.counter && p.target == q.target)
              || c.Collision(DeriveKey(CONTEXT_STATE), p.Body(c), q.Body(c))
  {
    if p.Body(c) == q.Body(c) {
      BodyIsInjective(c, p.version, p.owner, p.counter, p.target, q.version, q.owner, q.counter, q.target);
    }
  }

  /** The address names the owner key, up to a hash collision. */
  lemma AddressNamesTheOwner(c: Scheme, p: Pointer, q: Pointer)
    requires c.Sound() && WellSigned(c, p) && WellSigned(c, q)
    ensures p.Address(c) == q.Address(c) <==>
              p.owner == q.owner
              || c.Collision(DeriveKey(CONTEXT_ADDRESS), (c.encodeKey)(p.owner), (c.encodeKey)(q.owner))
  {
    assert (c.decodeKey)((c.encodeKey)(p.owner)) == Success(p.owner);
    assert (c.decodeKey)((c.encodeKey)(q.owner)) == Success(q.owner);
  }

  /** Re-signing one state any number of times never wins anything. */
  lemma ReSigningNeverReplaces(c: Scheme, sk: SecretKey, owner: PublicKey, counter: uint64,
                               target: PointerTarget, coins1: int, coins2: int)
    requires c.Sound()
    requires Sign(c, sk, owner, counter, target, coins1).Success?
    requires Sign(c, sk, owner, counter, target, coins2).Success?
    ensures var (p, q) := (Sign(c, sk, owner, counter, target, coins1).value,
                           Sign(c, sk, owner, counter, target, coins2).value);
            p.State(c) == q.State(c) && !p.Replaces(c, q) && !q.Replaces(c, p)
  {
    SignedRecordsRoundTrip(c, sk, owner, counter, target, coins1);
    SignedRecordsRoundTrip(c, sk, owner, counter, target, coins2);
    var wire := target.ToBytes();
    LexIsValueOrder(wire, wire);
  }

  // ---------------------------------------------------------------------------
  // On the wire
  // ---------------------------------------------------------------------------

  lemma SameFirstAndRest(x: byte, s: Bytes, y: byte, t: Bytes)
    ensures [x] + s == [y] + t <==> x == y && s == t
  {
    assert ([x] + s)[0] == x && ([y] + t)[0] == y;
    assert ([x] + s)[1..] == s && ([y] + t)[1..] == t;
  }

  /** A chunk target is tag 0 and the address, a pointer target tag 1; these are
      the only targets with a known kind. */
  lemma KindsOnTheWire(t: PointerTarget, a: XorName)
    ensures PointerTarget.New(ChunkTarget, a).ToBytes() == [0] + a
    ensures PointerTarget.New(AnotherPointer, a).ToBytes() == [1] + a
    ensures t.Kind() == Some(ChunkTarget) <==> t.ToBytes() == [0] + t.address
    ensures t.Kind() == Some(AnotherPointer) <==> t.ToBytes() == [1] + t.address
    ensures t.Kind() == None <==> t.ToBytes()[0] >= 2
  {
    SameFirstAndRest(t.kindTag, t.address, 0, t.address);
    SameFirstAndRest(t.kindTag, t.address, 1, t.address);
  }

  /** A transfer is exactly a state at the last counter whose target bytes are
      the pointer tag and the recipient. */
  lemma TransferIsFinalRedirection(s: PointerState, recipient: XorName)
    ensures s.TransferredTo() == Some(recipient) <==>
              s.counter == 0xFFFF_FFFF_FFFF_FFFF && s.target.ToBytes() == [1] + recipient
    ensures s.TransferredTo() == None <==>
              s.counter != 0xFFFF_FFFF_FFFF_FFFF || s.target.ToBytes()[0] != 1
  {
    SameFirstAndRest(s.target.kindTag, s.target.address, 1, recipient);
  }

  /** What a record of the ML-DSA-65 sizes is on the wire, byte range by byte
      range, and what its two identities are digests of. */
  lemma RecordOnTheWire(c: Scheme, p: Pointer)
    requires |c.encodeKey(p.owner)| == 1952 && |c.encodeSignature(p.sig)| == 3309
    ensures var wire := p.ToBytes(c);
            && |wire| == 5303
            && wire[0] == p.version && wire[1..1953] == c.encodeKey(p.owner)
            && Value(wire[1953..1961]) == p.counter
            && wire[1961] == p.target.kindTag && wire[1962..1994] == p.target.address
            && wire[1994..] == c.encodeSignature(p.sig)
            && p.Address(c) == c.digest(DeriveKey("autonomi.pointer.address.v1"), wire[1..1953])
            && p.StateId(c) == c.digest(DeriveKey("autonomi.pointer.state.v1"), wire[..1994])
            && p.State(c) == PointerState(p.StateId(c), p.Address(c), p.counter, p.target)
  {
    LayoutSlices(p.version, c.encodeKey(p.owner), p.counter, p.target, c.encodeSignature(p.sig));
    Uint64BigEndianRoundTrip(p.counter);
    var wire := p.ToBytes(c);
    assert wire[1961..1994] == [p.target.kindTag] + p.target.address;
    assert wire[1962..1994] == wire[1961..1994][1..];
  }

  /** What the cheap parse makes of any bytes: each refusal, in order, or the
      state the byte ranges claim. */
  lemma ParseOutcome(c: Scheme, bytes: Bytes)
    ensures ParseState(c, bytes) ==
            if |bytes| != 5303 then Failure(WrongLength(|bytes|))
            else if bytes[0] != 1 then Failure(UnknownFormatVersion(bytes[0]))
            else match c.decodeKey(bytes[1..1953])
                 case Failure(reason) => Failure(InvalidOwnerKey(reason))
                 case Success(owner) =>
                   Success(PointerState(
                     c.digest(DeriveKey("autonomi.pointer.state.v1"), bytes[..1994]),
                     c.digest(DeriveKey("autonomi.pointer.address.v1"), c.encodeKey(owner)),
                     Uint64FromBigEndian(bytes[1953..1961]),
                     PointerTarget(bytes[1961], bytes[1962..1994])))
  {
    if |bytes| == 5303 {
      assert bytes[1961..1994][1..] == bytes[1962..1994];
    }
  }

  /** What validation makes of bytes the cheap parse accepts: which error answers
      which refusal of the signature library, or the record in the byte ranges. */
  lemma ValidationOutcome(c: Scheme, bytes: Bytes)
    requires ParseState(c, bytes).Success?
    ensures |bytes| == 5303 && bytes[0] == 1 && c.decodeKey(bytes[1..1953]).Success?
    ensures var owner := c.decodeKey(bytes[1..1953]).value;
            FromBytes(c, bytes) ==
            match c.decodeSignature(bytes[1994..])
            case Failure(reason) => Failure(InvalidSignatureFormat(reason))
            case Success(sig) =>
              match c.verify(owner, bytes[..1994], sig, "autonomi.pointer.head.v1")
              case Failure(reason) => Failure(InvalidSignatureFormat(reason))
              case Success(false) => Failure(SignatureInvalid)
              case Success(true) =>
                Success(Pointer(1, owner, Uint64FromBigEndian(bytes[1953..1961]),
                                PointerTarget(bytes[1961], bytes[1962..1994]), sig))
  {
    ParseOutcome(c, bytes);
    assert bytes[1961..1994][1..] == bytes[1962..1994];
  }

  /** Signing with a key that is not the owner's: what comes out does not verify,
      and is refused as such instead of being returned. */
  lemma SignWithAnotherKey(c: Scheme, sk: SecretKey, owner: PublicKey, counter: uint64, target: PointerTarget,
                           coins: int)
    requires c.Sound()
    ensures |c.encodeKey(owner)| != 1952 ==>
              Sign(c, sk, owner, counter, target, coins).Failure?
              && Sign(c, sk, owner, counter, target, coins).error.InvalidOwnerKey?
    ensures var body := [1] + c.encodeKey(owner) + ToBigEndian(counter, 8) + [target.kindTag] + target.address;
            var signature := c.sign(sk, body, "autonomi.pointer.head.v1", coins);
            |c.encodeKey(owner)| == 1952 && signature.Success?
            && c.decodeSignature(c.encodeSignature(signature.value)) == signature
            && c.verify(owner, body, signature.value, "autonomi.pointer.head.v1") == Success(false) ==>
              Sign(c, sk, owner, counter, target, coins) == Failure(SignatureInvalid)
  {
    var body := [1] + c.encodeKey(owner) + ToBigEndian(counter, 8) + [target.kindTag] + target.address;
    var signature := c.sign(sk, body, "autonomi.pointer.head.v1", coins);
    if |c.encodeKey(owner)| == 1952 {
      assert body == Layout(1, c.encodeKey(owner), counter, target);
      if signature.Success? && c.decodeSignature(c.encodeSignature(signature.value)).Success? {
        LayoutSlices(1, c.encodeKey(owner), counter, target, c.encodeSignature(signature.value));
        var bytes := body + c.encodeSignature(signature.value);
        assert c.decodeKey(c.encodeKey(owner)) == Success(owner);
        ParseOutcome(c, bytes);
        ValidationOutcome(c, bytes);
      }
    }
  }
}
