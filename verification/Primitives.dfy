/**
 The cryptographic libraries Z-Wing calls, as unspecified functions with the laws
 the protocol relies on.  Each law is the constraint of a type with a witness, so
 the laws are consistent.  Nothing is assumed about secrecy or unforgeability
 here; a theorem that needs idealised behaviour states it about one run.
 */
module Primitives {
  import opened ByteStrings

  const KEY_SIZE := 32
  const TAG_SIZE := 16
  const NONCE_SIZE := 12
  const DIGEST_SIZE := 32
  const ED_PUBLIC_SIZE := 32
  const ED_SIGNATURE_SIZE := 64
  const DSA_PUBLIC_SIZE := 1952
  const DSA_SIGNATURE_SIZE := 3309
  const MLKEM_PUBLIC_SIZE := 1184
  const MLKEM_CIPHERTEXT_SIZE := 1088
  const POINT_SIZE := 32
  const SHARED_SIZE := 32

  // ---------- hashing ----------

  ghost predicate HashLaw(h: Bytes -> Bytes) {
    forall x :: |h(x)| == DIGEST_SIZE
  }

  /** SHA-256 or SHA3-256: 32 bytes of output. */
  type Hash = h: Bytes -> Bytes | HashLaw(h) ghost witness ToyHash()

  function ToyHash(): Bytes -> Bytes {
    x => Zeros(DIGEST_SIZE)
  }

  // ---------- authenticated encryption ----------

  /** ChaCha20-Poly1305; arguments are key, nonce, text, associated data. */
  datatype AeadRecord = AeadRecord(
    seal: (Bytes, Bytes, Bytes, Bytes) -> Bytes,
    open: (Bytes, Bytes, Bytes, Bytes) -> Option<Bytes>)

  /** Section 2.8 of RFC 8439: a 16-byte tag is appended, and opening undoes sealing. */
  ghost predicate AeadLaw(r: AeadRecord) {
    forall k, n, p, a ::
      && |r.seal(k, n, p, a)| == |p| + TAG_SIZE
      && r.open(k, n, r.seal(k, n, p, a), a) == Some(p)
  }

  type Aead = r: AeadRecord | AeadLaw(r) ghost witness (ToyAeadLawful(); ToyAead())

  function ToyAead(): AeadRecord {
    AeadRecord((k, n, p, a) => p + Zeros(TAG_SIZE),
               (k, n, c, a) => if |c| < TAG_SIZE then None else Some(c[..|c| - TAG_SIZE]))
  }

  lemma ToyAeadLawful()
    ensures AeadLaw(ToyAead())
  {
    var r := ToyAead();
    forall k, n, p, a
      ensures |r.seal(k, n, p, a)| == |p| + TAG_SIZE
      ensures r.open(k, n, r.seal(k, n, p, a), a) == Some(p)
    {
      assert (p + Zeros(TAG_SIZE))[..|p|] == p;
    }
  }

  // ---------- signatures ----------

  datatype Drawn = Drawn(key: Bytes, rest: Bytes)

  /** A signature scheme; `keygen` consumes entropy, `sign` takes key, message, context, entropy. */
  datatype SchemeRecord = SchemeRecord(
    keygen: Bytes -> Option<Drawn>,
    validSecret: Bytes -> bool,
    public: Bytes -> Bytes,
    sign: (Bytes, Bytes, Bytes, Bytes) -> Bytes,
    verify: (Bytes, Bytes, Bytes, Bytes) -> bool)

  /** Generated keys are usable, sizes are fixed, and a genuine signature verifies. */
  ghost predicate SchemeLaw(r: SchemeRecord, publicSize: nat, signatureSize: nat) {
    && (forall e :: r.keygen(e).Some? ==> r.validSecret(r.keygen(e).value.key))
    && (forall sk :: r.validSecret(sk) ==> |r.public(sk)| == publicSize)
    && (forall sk, m, c, e :: r.validSecret(sk) ==>
          && |r.sign(sk, m, c, e)| == signatureSize
          && r.verify(r.public(sk), m, c, r.sign(sk, m, c, e)))
  }

  type EdScheme = r: SchemeRecord | SchemeLaw(r, ED_PUBLIC_SIZE, ED_SIGNATURE_SIZE)
    ghost witness ToyScheme(ED_PUBLIC_SIZE, ED_SIGNATURE_SIZE)

  type DsaScheme = r: SchemeRecord | SchemeLaw(r, DSA_PUBLIC_SIZE, DSA_SIGNATURE_SIZE)
    ghost witness ToyScheme(DSA_PUBLIC_SIZE, DSA_SIGNATURE_SIZE)

  function ToyScheme(publicSize: nat, signatureSize: nat): SchemeRecord {
    SchemeRecord(
      e => Some(Drawn([], e)),
      sk => true,
      sk => Zeros(publicSize),
      (sk, m, c, e) => Zeros(signatureSize),
      (pk, m, c, sig) => true)
  }

  // ---------- ML-KEM-768 ----------

  datatype Encapsulated = Encapsulated(ct: Bytes, ss: Bytes, rest: Bytes)

  datatype MlKemRecord = MlKemRecord(
    keygen: Bytes -> Option<Drawn>,
    validSecret: Bytes -> bool,
    public: Bytes -> Bytes,
    validPublic: Bytes -> bool,
    encaps: (Bytes, Bytes) -> Option<Encapsulated>,
    decaps: (Bytes, Bytes) -> Option<Bytes>)

  /** FIPS 203: sizes are fixed, and decapsulation undoes encapsulation to a matching key. */
  ghost predicate MlKemLaw(r: MlKemRecord) {
    && (forall e :: r.keygen(e).Some? ==> r.validSecret(r.keygen(e).value.key))
    && (forall sk :: r.validSecret(sk) ==> |r.public(sk)| == MLKEM_PUBLIC_SIZE && r.validPublic(r.public(sk)))
    && (forall pk, e :: r.encaps(pk, e).Some? ==>
          && |r.encaps(pk, e).value.ct| == MLKEM_CIPHERTEXT_SIZE
          && |r.encaps(pk, e).value.ss| == SHARED_SIZE)
    && (forall sk, ct :: r.decaps(sk, ct).Some? ==> |r.decaps(sk, ct).value| == SHARED_SIZE)
    && (forall sk, e :: r.validSecret(sk) && r.encaps(r.public(sk), e).Some? ==>
          r.decaps(sk, r.encaps(r.public(sk), e).value.ct) == Some(r.encaps(r.public(sk), e).value.ss))
  }

  type MlKem = r: MlKemRecord | MlKemLaw(r) ghost witness ToyMlKem()

  function ToyMlKem(): MlKemRecord {
    MlKemRecord(e => Some(Drawn([], e)), sk => true, sk => Zeros(MLKEM_PUBLIC_SIZE), pk => true,
                (pk, e) => Some(Encapsulated(Zeros(MLKEM_CIPHERTEXT_SIZE), Zeros(SHARED_SIZE), e)),
                (sk, ct) => Some(Zeros(SHARED_SIZE)))
  }

  // ---------- X25519 ----------

  const BASEPOINT: Bytes := [9] + Zeros(31)

  /** Section 6.1 of RFC 7748: both orders of the exchange agree, also on rejecting a zero output. */
  ghost predicate DiffieHellmanLaw(dh: (Bytes, Bytes) -> Option<Bytes>) {
    && (forall a {:trigger dh(a, BASEPOINT)} :: |a| == POINT_SIZE ==> dh(a, BASEPOINT).Some?)
    && (forall a, p :: dh(a, p).Some? ==> |dh(a, p).value| == POINT_SIZE)
    && (forall a, b {:trigger dh(a, dh(b, BASEPOINT).value)} :: |a| == POINT_SIZE && |b| == POINT_SIZE ==>
          dh(a, dh(b, BASEPOINT).value) == dh(b, dh(a, BASEPOINT).value))
  }

  type DiffieHellman = dh: (Bytes, Bytes) -> Option<Bytes> | DiffieHellmanLaw(dh) ghost witness ToyDiffieHellman()

  function ToyDiffieHellman(): (Bytes, Bytes) -> Option<Bytes> {
    (a, p) => Some(Zeros(POINT_SIZE))
  }

  datatype Suite = Suite(
    aead: Aead,
    sha256: Hash,
    sha3: Hash,
    ed: EdScheme,
    dsa: DsaScheme,
    mlkem: MlKem,
    x25519: DiffieHellman)
}
