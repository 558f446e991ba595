/** The X-Wing hybrid KEM (kem.go). */
module Kem {
  import opened ByteStrings
  import opened Primitives

  const XWING_PUBLIC_SIZE: nat := MLKEM_PUBLIC_SIZE + POINT_SIZE
  const XWING_CIPHERTEXT_SIZE: nat := MLKEM_CIPHERTEXT_SIZE + POINT_SIZE

  const XWING_LABEL: Bytes := Ascii("\\./") + Ascii("X-Wing")

  datatype PublicKey = PublicKey(mlkem: Bytes, x25519: Bytes)

  datatype PrivateKey = PrivateKey(mlkem: Bytes, x25519Priv: Bytes, x25519Pub: Bytes)

  /** The sizes every public key has by its Go type. */
  ghost predicate WellSized(pk: PublicKey) {
    |pk.mlkem| == MLKEM_PUBLIC_SIZE && |pk.x25519| == POINT_SIZE
  }

  /** What key generation guarantees: usable secrets, and a public point that belongs to the secret scalar. */
  ghost predicate WellFormed(s: Suite, sk: PrivateKey) {
    && s.mlkem.validSecret(sk.mlkem)
    && |sk.x25519Priv| == POINT_SIZE
    && s.x25519(sk.x25519Priv, BASEPOINT) == Some(sk.x25519Pub)
  }

  function Public(s: Suite, sk: PrivateKey): PublicKey {
    PublicKey(s.mlkem.public(sk.mlkem), sk.x25519Pub)
  }

  lemma PublicWellSized(s: Suite, sk: PrivateKey)
    requires WellFormed(s, sk)
    ensures WellSized(Public(s, sk)) && s.mlkem.validPublic(Public(s, sk).mlkem)
  {
  }

  // ---------- public-key codec ----------

  function Marshal(pk: PublicKey): Bytes {
    pk.mlkem + pk.x25519
  }

  function Parse(s: Suite, data: Bytes): Result<PublicKey> {
    if |data| != XWING_PUBLIC_SIZE then Err(BadSize)
    else if !s.mlkem.validPublic(data[..MLKEM_PUBLIC_SIZE]) then Err(KeyRejected)
    else Ok(PublicKey(data[..MLKEM_PUBLIC_SIZE], data[MLKEM_PUBLIC_SIZE..]))
  }

  /** The codec is canonical in both directions. */
  lemma CodecCanonical(s: Suite, data: Bytes, pk: PublicKey)
    ensures WellSized(pk) && s.mlkem.validPublic(pk.mlkem) ==> Parse(s, Marshal(pk)) == Ok(pk)
    ensures Parse(s, data) == Ok(pk) ==> WellSized(pk) && Marshal(pk) == data
  {
    if |pk.mlkem| == MLKEM_PUBLIC_SIZE {
      assert Marshal(pk)[..MLKEM_PUBLIC_SIZE] == pk.mlkem;
      assert Marshal(pk)[MLKEM_PUBLIC_SIZE..] == pk.x25519;
    }
  }

  // ---------- key generation, encapsulation, decapsulation ----------

  datatype Generated = Generated(key: PrivateKey, rest: Bytes)

  /** A scalar times the base point; the code drops the error, which the laws rule out for 32-byte scalars. */
  function BaseMultiple(s: Suite, scalar: Bytes): Bytes {
    match s.x25519(scalar, BASEPOINT)
    case None => []
    case Some(p) => p
  }

  /** GenerateXWingKey, drawing from a finite supply of entropy. */
  function Generate(s: Suite, entropy: Bytes): Result<Generated> {
    match s.mlkem.keygen(entropy)
    case None => Err(EntropyExhausted)
    case Some(d) =>
      if |d.rest| < POINT_SIZE then Err(EntropyExhausted)
      else
        var priv := d.rest[..POINT_SIZE];
        Ok(Generated(PrivateKey(d.key, priv, BaseMultiple(s, priv)), d.rest[POINT_SIZE..]))
  }

  lemma GenerateWellFormed(s: Suite, entropy: Bytes)
    requires Generate(s, entropy).Ok?
    ensures WellFormed(s, Generate(s, entropy).value.key)
  {
    var d := s.mlkem.keygen(entropy).value;
    assert |d.rest[..POINT_SIZE]| == POINT_SIZE;
  }

  /** The input of the combiner hash, in the order the code feeds it. */
  function CombinerInput(ssM: Bytes, ssX: Bytes, ctX: Bytes, pkX: Bytes): Bytes {
    XWING_LABEL + ssM + ssX + ctX + pkX
  }

  datatype Encapsulation = Encapsulation(ct: Bytes, shared: Bytes)

  function Encapsulate(s: Suite, pk: PublicKey, entropy: Bytes): Result<Encapsulation> {
    match s.mlkem.encaps(pk.mlkem, entropy)
    case None => Err(KeyRejected)
    case Some(m) =>
      if |m.rest| < POINT_SIZE then Err(EntropyExhausted)
      else
        var eph := m.rest[..POINT_SIZE];
        var ephPub := BaseMultiple(s, eph);
        match s.x25519(eph, pk.x25519)
        case None => Err(LowOrderPoint)
        case Some(ssX) =>
          Ok(Encapsulation(m.ct + ephPub, s.sha3(CombinerInput(m.ss, ssX, ephPub, pk.x25519))))
  }

  function Decapsulate(s: Suite, sk: PrivateKey, ct: Bytes): Result<Bytes> {
    if |ct| != XWING_CIPHERTEXT_SIZE then Err(BadSize)
    else
      var ephPub := ct[MLKEM_CIPHERTEXT_SIZE..];
      match s.mlkem.decaps(sk.mlkem, ct[..MLKEM_CIPHERTEXT_SIZE])
      case None => Err(KeyRejected)
      case Some(ssM) =>
        match s.x25519(sk.x25519Priv, ephPub)
        case None => Err(LowOrderPoint)
        case Some(ssX) => Ok(s.sha3(CombinerInput(ssM, ssX, ephPub, sk.x25519Pub)))
  }

  lemma EncapsulationSize(s: Suite, pk: PublicKey, entropy: Bytes)
    requires Encapsulate(s, pk, entropy).Ok?
    ensures |Encapsulate(s, pk, entropy).value.ct| == XWING_CIPHERTEXT_SIZE
  {
    var m := s.mlkem.encaps(pk.mlkem, entropy).value;
    assert s.x25519(m.rest[..POINT_SIZE], BASEPOINT).Some?;
  }

  /** Whatever the randomness, a successful encapsulation to a generated key decapsulates to the same secret. */
  lemma Agreement(s: Suite, sk: PrivateKey, entropy: Bytes)
    requires WellFormed(s, sk)
    requires Encapsulate(s, Public(s, sk), entropy).Ok?
    ensures var e := Encapsulate(s, Public(s, sk), entropy).value;
            |e.ct| == XWING_CIPHERTEXT_SIZE && Decapsulate(s, sk, e.ct) == Ok(e.shared)
  {
    var pk := Public(s, sk);
    EncapsulationSize(s, pk, entropy);
    var m := s.mlkem.encaps(pk.mlkem, entropy).value;
    var eph := m.rest[..POINT_SIZE];
    var ephPub := s.x25519(eph, BASEPOINT).value;
    var ct := m.ct + ephPub;
    assert ct[..MLKEM_CIPHERTEXT_SIZE] == m.ct;
    assert ct[MLKEM_CIPHERTEXT_SIZE..] == ephPub;
    assert |eph| == POINT_SIZE;
    assert s.x25519(sk.x25519Priv, s.x25519(eph, BASEPOINT).value)
        == s.x25519(eph, s.x25519(sk.x25519Priv, BASEPOINT).value);
  }

  // ---------- what the secret is made of ----------

  /** The published bytes of the label, and where each part of the hash input lies. */
  lemma CombinerLayout(ssM: Bytes, ssX: Bytes, ctX: Bytes, pkX: Bytes)
    requires |ssM| == 32 && |ssX| == 32 && |ctX| == 32 && |pkX| == 32
    ensures var x := CombinerInput(ssM, ssX, ctX, pkX);
            && |x| == 137
            && x[..9] == [0x5c, 0x2e, 0x2f, 0x58, 0x2d, 0x57, 0x69, 0x6e, 0x67]
            && x[9..41] == ssM && x[41..73] == ssX && x[73..105] == ctX && x[105..] == pkX
  {
    assert XWING_LABEL == [0x5c, 0x2e, 0x2f, 0x58, 0x2d, 0x57, 0x69, 0x6e, 0x67];
  }

  /** What a successful encapsulation consists of: two secrets, two halves of the ciphertext, one hash. */
  lemma EncapsulationParts(s: Suite, pk: PublicKey, entropy: Bytes)
    requires Encapsulate(s, pk, entropy).Ok?
    ensures var e := Encapsulate(s, pk, entropy).value;
            var m := s.mlkem.encaps(pk.mlkem, entropy);
            && m.Some? && |m.value.rest| >= POINT_SIZE && |e.ct| == XWING_CIPHERTEXT_SIZE
            && var eph := m.value.rest[..POINT_SIZE];
               var ssX := s.x25519(eph, pk.x25519);
               && ssX.Some?
               && e.ct[..MLKEM_CIPHERTEXT_SIZE] == m.value.ct
               && Some(e.ct[MLKEM_CIPHERTEXT_SIZE..]) == s.x25519(eph, BASEPOINT)
               && e.shared == s.sha3(CombinerInput(m.value.ss, ssX.value, e.ct[MLKEM_CIPHERTEXT_SIZE..], pk.x25519))
  {
    EncapsulationSize(s, pk, entropy);
    var m := s.mlkem.encaps(pk.mlkem, entropy).value;
    assert |m.rest[..POINT_SIZE]| == POINT_SIZE;
    var ephPub := s.x25519(m.rest[..POINT_SIZE], BASEPOINT).value;
    assert (m.ct + ephPub)[..MLKEM_CIPHERTEXT_SIZE] == m.ct && (m.ct + ephPub)[MLKEM_CIPHERTEXT_SIZE..] == ephPub;
  }

  /** The four inputs of a decapsulation's hash. */
  datatype Ingredients = Ingredients(ssM: Bytes, ssX: Bytes, ephemeral: Bytes, recipient: Bytes)

  function EncapsulatedFrom(s: Suite, pk: PublicKey, entropy: Bytes): Ingredients
    requires Encapsulate(s, pk, entropy).Ok?
  {
    EncapsulationParts(s, pk, entropy);
    var m := s.mlkem.encaps(pk.mlkem, entropy).value;
    Ingredients(m.ss, s.x25519(m.rest[..POINT_SIZE], pk.x25519).value,
                Encapsulate(s, pk, entropy).value.ct[MLKEM_CIPHERTEXT_SIZE..], pk.x25519)
  }

  function DecapsulatedFrom(s: Suite, sk: PrivateKey, ct: Bytes): Ingredients
    requires Decapsulate(s, sk, ct).Ok?
  {
    Ingredients(s.mlkem.decaps(sk.mlkem, ct[..MLKEM_CIPHERTEXT_SIZE]).value,
                s.x25519(sk.x25519Priv, ct[MLKEM_CIPHERTEXT_SIZE..]).value,
                ct[MLKEM_CIPHERTEXT_SIZE..], sk.x25519Pub)
  }

  function Hashed(i: Ingredients): Bytes {
    CombinerInput(i.ssM, i.ssX, i.ephemeral, i.recipient)
  }

  ghost predicate FullSize(i: Ingredients) {
    |i.ssM| == 32 && |i.ssX| == 32 && |i.ephemeral| == 32 && |i.recipient| == 32
  }

  lemma IngredientsBind(i: Ingredients, j: Ingredients)
    requires FullSize(i) && FullSize(j) && Hashed(i) == Hashed(j)
    ensures i == j
  {
    CombinerLayout(i.ssM, i.ssX, i.ephemeral, i.recipient);
    CombinerLayout(j.ssM, j.ssX, j.ephemeral, j.recipient);
  }

  /** Two encapsulations with one secret, unless their hash inputs collide, share both component secrets and both points. */
  lemma EncapsulationBinds(s: Suite, pk: PublicKey, e: Bytes, pk': PublicKey, e': Bytes)
    requires |pk.x25519| == POINT_SIZE && |pk'.x25519| == POINT_SIZE
    requires Encapsulate(s, pk, e).Ok? && Encapsulate(s, pk', e').Ok?
    requires Encapsulate(s, pk, e).value.shared == Encapsulate(s, pk', e').value.shared
    requires Apart(s.sha3, {Hashed(EncapsulatedFrom(s, pk, e))}, {Hashed(EncapsulatedFrom(s, pk', e'))})
    ensures EncapsulatedFrom(s, pk, e) == EncapsulatedFrom(s, pk', e')
  {
    EncapsulationParts(s, pk, e);
    EncapsulationParts(s, pk', e');
    IngredientsBind(EncapsulatedFrom(s, pk, e), EncapsulatedFrom(s, pk', e'));
  }

  /** The same for two decapsulations, of any ciphertexts. */
  lemma DecapsulationBinds(s: Suite, sk: PrivateKey, ct: Bytes, sk': PrivateKey, ct': Bytes)
    requires WellFormed(s, sk) && WellFormed(s, sk')
    requires Decapsulate(s, sk, ct).Ok? && Decapsulate(s, sk', ct') == Decapsulate(s, sk, ct)
    requires Apart(s.sha3, {Hashed(DecapsulatedFrom(s, sk, ct))}, {Hashed(DecapsulatedFrom(s, sk', ct'))})
    ensures DecapsulatedFrom(s, sk, ct) == DecapsulatedFrom(s, sk', ct')
  {
    IngredientsBind(DecapsulatedFrom(s, sk, ct), DecapsulatedFrom(s, sk', ct'));
  }

  /** Where the two keys lie in the public-key encoding. */
  lemma MarshalLayout(pk: PublicKey)
    requires WellSized(pk)
    ensures |Marshal(pk)| == XWING_PUBLIC_SIZE
    ensures Marshal(pk)[..MLKEM_PUBLIC_SIZE] == pk.mlkem && Marshal(pk)[MLKEM_PUBLIC_SIZE..] == pk.x25519
  {
  }

  // ---------- imperative helpers ----------

  /** A hash object: Write feeds it, Sum hashes everything fed. */
  class Hasher {
    const h: Hash
    var fed: Bytes

    constructor (h: Hash)
      ensures this.h == h && fed == []
    {
      this.h := h;
      fed := [];
    }

    method Write(b: Bytes)
      modifies this`fed
      ensures fed == old(fed) + b
    {
      fed := fed + b;
    }
  }

  method CombineXWing(s: Suite, ssM: Bytes, ssX: Bytes, ctX: Bytes, pkX: Bytes) returns (r: Bytes)
    ensures r == s.sha3(CombinerInput(ssM, ssX, ctX, pkX))
  {
    var h := new Hasher(s.sha3);
    h.Write(Ascii("\\./"));
    h.Write(Ascii("X-Wing"));
    assert h.fed == XWING_LABEL;
    h.Write(ssM);
    h.Write(ssX);
    h.Write(ctX);
    h.Write(pkX);
    r := s.sha3(h.fed);
  }

  /** A source of randomness: io.ReadFull on a reader that may run dry. */
  class Source {
    var left: Bytes

    constructor (left: Bytes)
      ensures this.left == left
    {
      this.left := left;
    }

    method ReadFull(n: nat) returns (r: Option<Bytes>)
      modifies this
      ensures r == if |old(left)| < n then None else Some(old(left)[..n])
      ensures left == if |old(left)| < n then [] else old(left)[n..]
    {
      if |left| < n {
        left := [];
        return None;
      }
      r := Some(left[..n]);
      left := left[n..];
    }
  }

  method XWingEncapsulate(s: Suite, reader: Source, recipient: PublicKey) returns (r: Result<Encapsulation>)
    modifies reader
    ensures r == Encapsulate(s, recipient, old(reader.left))
  {
    var m := s.mlkem.encaps(recipient.mlkem, reader.left);
    if m.None? {
      return Err(KeyRejected);
    }
    reader.left := m.value.rest;
    var ephPriv := reader.ReadFull(POINT_SIZE);
    if ephPriv.None? {
      return Err(EntropyExhausted);
    }
    var ephPub := BaseMultiple(s, ephPriv.value);
    var ssX := s.x25519(ephPriv.value, recipient.x25519);
    if ssX.None? {
      return Err(LowOrderPoint);
    }
    var shared := CombineXWing(s, m.value.ss, ssX.value, ephPub, recipient.x25519);
    r := Ok(Encapsulation(m.value.ct + ephPub, shared));
  }

  method XWingDecapsulate(s: Suite, sk: PrivateKey, ct: Bytes) returns (r: Result<Bytes>)
    ensures r == Decapsulate(s, sk, ct)
  {
    if |ct| != XWING_CIPHERTEXT_SIZE {
      return Err(BadSize);
    }
    var mlkemCT, ephPub := ct[..MLKEM_CIPHERTEXT_SIZE], ct[MLKEM_CIPHERTEXT_SIZE..];
    var ssM := s.mlkem.decaps(sk.mlkem, mlkemCT);
    if ssM.None? {
      return Err(KeyRejected);
    }
    var ssX := s.x25519(sk.x25519Priv, ephPub);
    if ssX.None? {
      return Err(LowOrderPoint);
    }
    var shared := CombineXWing(s, ssM.value, ssX.value, ephPub, sk.x25519Pub);
    r := Ok(shared);
  }

  method Zero(b: array<byte>)
    modifies b
    ensures b[..] == Zeros(b.Length)
  {
    for i := 0 to b.Length
      invariant forall j :: 0 <= j < i ==> b[j] == 0
    {
      b[i] := 0;
    }
  }
}
