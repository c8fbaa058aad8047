/** The cryptography the protocol relies on, as functions nothing is known about
    except the laws written in `Sound`. Signing takes `coins` because ML-DSA
    signing is randomized: one message has many valid signatures. */
module Crypto {
  import opened Wrappers
  import opened ByteStrings

  // Section 4 of FIPS 204, parameter set ML-DSA-65.
  const PUBLIC_KEY_LEN := 1952
  const SIGNATURE_LEN := 3309

  // Keys and signatures as the library hands them out: opaque handles, of any
  // parameter set.
  datatype PublicKey = PublicKey(handle: int)
  datatype SecretKey = SecretKey(handle: int)
  datatype Signature = Signature(handle: int)

  /** BLAKE3 as a plain hash, or in its derive-key mode under a context. */
  datatype HashMode = Plain | DeriveKey(context: string)

  datatype Scheme = Scheme(
    encodeKey: PublicKey -> Bytes,
    decodeKey: Bytes -> Result<PublicKey, string>,
    encodeSignature: Signature -> Bytes,
    decodeSignature: Bytes -> Result<Signature, string>,
    isPair: (SecretKey, PublicKey) -> bool,
    sign: (SecretKey, Bytes, string, int) -> Result<Signature, string>,
    verify: (PublicKey, Bytes, Signature, string) -> Result<bool, string>,
    digest: (HashMode, Bytes) -> XorName)
  {
    /** Accepted key bytes are reproduced by encoding, and a key of the
        ML-DSA-65 length decodes from its own encoding. */
    ghost predicate KeysRoundTrip() {
      && (forall b: Bytes {:trigger decodeKey(b)} ::
            decodeKey(b).Success? ==> |b| == PUBLIC_KEY_LEN && encodeKey(decodeKey(b).value) == b)
      && (forall k: PublicKey {:trigger encodeKey(k)} ::
            |encodeKey(k)| == PUBLIC_KEY_LEN ==> decodeKey(encodeKey(k)) == Success(k))
    }

    /** Accepted signature bytes are reproduced by encoding. */
    ghost predicate SignaturesRoundTrip() {
      forall b: Bytes {:trigger decodeSignature(b)} ::
        decodeSignature(b).Success? ==>
          |b| == SIGNATURE_LEN && encodeSignature(decodeSignature(b).value) == b
    }

    /** What a matching key pair signs decodes again and verifies. */
    ghost predicate SignaturesVerify() {
      forall sk: SecretKey, pk: PublicKey, message: Bytes, context: string, coins: int
        {:trigger isPair(sk, pk), sign(sk, message, context, coins)} ::
        isPair(sk, pk) && sign(sk, message, context, coins).Success? ==>
          var s := sign(sk, message, context, coins).value;
          && decodeSignature(encodeSignature(s)) == Success(s)
          && verify(pk, message, s, context) == Success(true)
    }

    ghost predicate Sound() {
      KeysRoundTrip() && SignaturesRoundTrip() && SignaturesVerify()
    }

    /** Two different inputs with one digest. */
    ghost predicate Collision(mode: HashMode, x: Bytes, y: Bytes) {
      x != y && digest(mode, x) == digest(mode, y)
    }
  }

  /** The laws are consistent: some scheme meets them and signs. */
  lemma SomeSchemeIsSound()
    ensures exists c: Scheme, sk, pk ::
              c.Sound() && c.isPair(sk, pk) && |c.encodeKey(pk)| == PUBLIC_KEY_LEN &&
              forall message, context, coins :: c.sign(sk, message, context, coins).Success?
  {
    var keyBytes: Bytes := seq(PUBLIC_KEY_LEN, _ => 0);
    var sigBytes: Bytes := seq(SIGNATURE_LEN, _ => 0);
    var key, sig := PublicKey(0), Signature(0);
    var sk := SecretKey(0);
    var c := Scheme(
      (k: PublicKey) => if k == key then keyBytes else [],
      (b: Bytes) => if b == keyBytes then Success(key) else Failure("not a key"),
      (_: Signature) => sigBytes,
      (b: Bytes) => if b == sigBytes then Success(sig) else Failure("not a signature"),
      (_: SecretKey, k: PublicKey) => k == key,
      (_: SecretKey, _: Bytes, _: string, _: int) => Success(sig),
      (_: PublicKey, _: Bytes, _: Signature, _: string) => Success(true),
      (_: HashMode, _: Bytes) => ZERO_NAME);
    assert c.Sound() && c.isPair(sk, key) && |c.encodeKey(key)| == PUBLIC_KEY_LEN;
  }
}
