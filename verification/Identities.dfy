/** Long-term identities: Ed25519 + ML-DSA-65 + X-Wing (identity.go, py/identity.py, js/identity.ts). */
module Identities {
  import opened ByteStrings
  import opened Primitives
  import Kem

  const IDENTITY_SIZE: nat := ED_PUBLIC_SIZE + DSA_PUBLIC_SIZE + Kem.XWING_PUBLIC_SIZE
  const SIGNATURE_SIZE: nat := ED_SIGNATURE_SIZE + DSA_SIGNATURE_SIZE

  const DOMAIN: Bytes := Ascii("lux.zwing.v1")

  datatype Identity = Identity(edPub: Bytes, edPriv: Bytes, dsaPriv: Bytes, xwing: Kem.PrivateKey)

  datatype PublicIdentity = PublicIdentity(ed: Bytes, dsa: Bytes, xwing: Kem.PublicKey)

  ghost predicate WellSized(pub: PublicIdentity) {
    |pub.ed| == ED_PUBLIC_SIZE && |pub.dsa| == DSA_PUBLIC_SIZE && Kem.WellSized(pub.xwing)
  }

  /** What GenerateIdentity guarantees. */
  ghost predicate WellFormed(s: Suite, id: Identity) {
    && s.ed.validSecret(id.edPriv)
    && id.edPub == s.ed.public(id.edPriv)
    && s.dsa.validSecret(id.dsaPriv)
    && Kem.WellFormed(s, id.xwing)
  }

  function Generate(s: Suite, entropy: Bytes): Result<Identity> {
    match s.ed.keygen(entropy)
    case None => Err(EntropyExhausted)
    case Some(e) =>
      match s.dsa.keygen(e.rest)
      case None => Err(EntropyExhausted)
      case Some(d) =>
        match Kem.Generate(s, d.rest)
        case Err(x) => Err(x)
        case Ok(x) => Ok(Identity(s.ed.public(e.key), e.key, d.key, x.key))
  }

  /** Every generated identity can sign, verify and be encapsulated to. */
  lemma GenerateWellFormed(s: Suite, entropy: Bytes)
    requires Generate(s, entropy).Ok?
    ensures WellFormed(s, Generate(s, entropy).value)
  {
    var d := s.dsa.keygen(s.ed.keygen(entropy).value.rest).value;
    Kem.GenerateWellFormed(s, d.rest);
  }

  function Public(s: Suite, id: Identity): PublicIdentity {
    PublicIdentity(id.edPub, s.dsa.public(id.dsaPriv), Kem.Public(s, id.xwing))
  }

  lemma PublicWellSized(s: Suite, id: Identity)
    requires WellFormed(s, id)
    ensures WellSized(Public(s, id)) && s.mlkem.validPublic(Public(s, id).xwing.mlkem)
  {
    Kem.PublicWellSized(s, id.xwing);
  }

  // ---------- codec ----------

  function Marshal(pub: PublicIdentity): Bytes {
    pub.ed + pub.dsa + Kem.Marshal(pub.xwing)
  }

  function Parse(s: Suite, data: Bytes): Result<PublicIdentity> {
    if |data| != IDENTITY_SIZE then Err(BadSize)
    else
      var dsaEnd := ED_PUBLIC_SIZE + DSA_PUBLIC_SIZE;
      match Kem.Parse(s, data[dsaEnd..])
      case Err(e) => Err(e)
      case Ok(x) => Ok(PublicIdentity(data[..ED_PUBLIC_SIZE], data[ED_PUBLIC_SIZE..dsaEnd], x))
  }

  lemma MarshalFields(pub: PublicIdentity)
    requires WellSized(pub)
    ensures var d := Marshal(pub);
            var dsaEnd := ED_PUBLIC_SIZE + DSA_PUBLIC_SIZE;
            && |d| == IDENTITY_SIZE
            && d[..ED_PUBLIC_SIZE] == pub.ed
            && d[ED_PUBLIC_SIZE..dsaEnd] == pub.dsa
            && d[dsaEnd..] == Kem.Marshal(pub.xwing)
  {
  }

  /** Parsing undoes marshalling, and marshalling undoes every accepted parse. */
  lemma CodecCanonical(s: Suite, data: Bytes, pub: PublicIdentity)
    ensures WellSized(pub) && s.mlkem.validPublic(pub.xwing.mlkem) ==> Parse(s, Marshal(pub)) == Ok(pub)
    ensures Parse(s, data) == Ok(pub) ==> WellSized(pub) && Marshal(pub) == data
  {
    var dsaEnd := ED_PUBLIC_SIZE + DSA_PUBLIC_SIZE;
    if WellSized(pub) && s.mlkem.validPublic(pub.xwing.mlkem) {
      MarshalFields(pub);
      Kem.CodecCanonical(s, data, pub.xwing);
    }
    if Parse(s, data) == Ok(pub) {
      Kem.CodecCanonical(s, data[dsaEnd..], pub.xwing);
      assert data == data[..ED_PUBLIC_SIZE] + data[ED_PUBLIC_SIZE..dsaEnd] + data[dsaEnd..];
    }
  }

  /** MarshalBinary: three appends. */
  method MarshalBinary(pub: PublicIdentity) returns (out: Bytes)
    ensures out == Marshal(pub)
  {
    out := [];
    out := out + pub.ed;
    out := out + pub.dsa;
    out := out + Kem.Marshal(pub.xwing);
  }

  /** ParseIdentityPublic: a cursor moved past one key after the other. */
  method ParseIdentityPublic(s: Suite, data: Bytes) returns (r: Result<PublicIdentity>)
    ensures r == Parse(s, data)
  {
    if |data| != IDENTITY_SIZE {
      return Err(BadSize);
    }
    var off := 0;
    var ed := data[off..off + ED_PUBLIC_SIZE];
    off := off + ED_PUBLIC_SIZE;
    var dsa := data[off..off + DSA_PUBLIC_SIZE];
    off := off + DSA_PUBLIC_SIZE;
    assert data[off..off + Kem.XWING_PUBLIC_SIZE] == data[off..];
    var xwing := Kem.Parse(s, data[off..off + Kem.XWING_PUBLIC_SIZE]);
    if xwing.Err? {
      return Err(xwing.error);
    }
    r := Ok(PublicIdentity(ed, dsa, xwing.value));
  }

  // ---------- signatures ----------

  /** The input of the signed digest: domain, one length byte, context, message. */
  function DigestInput(ctx: Bytes, message: Bytes): Bytes {
    DOMAIN + [|ctx| % 256] + ctx + message
  }

  method IdentityDigest(s: Suite, ctx: Bytes, message: Bytes) returns (r: Bytes)
    ensures r == s.sha256(DigestInput(ctx, message))
  {
    var h := new Kem.Hasher(s.sha256);
    h.Write(DOMAIN);
    h.Write([|ctx| % 256]);
    h.Write(ctx);
    h.Write(message);
    assert h.fed == DigestInput(ctx, message);
    r := s.sha256(h.fed);
  }

  /** Where domain, length, context and message lie in the digest input. */
  lemma DigestFields(ctx: Bytes, message: Bytes)
    ensures var d := DigestInput(ctx, message);
            var k := |DOMAIN|;
            && |d| == k + 1 + |ctx| + |message|
            && d[..k] == DOMAIN && d[k] == |ctx| % 256
            && d[k + 1..k + 1 + |ctx|] == ctx && d[k + 1 + |ctx|..] == message
  {
  }

  /** The digest input determines context and message for contexts under 256 bytes. */
  lemma DigestInputInjective(c: Bytes, m: Bytes, d: Bytes, n: Bytes)
    requires |c| < 256 && |d| < 256
    requires DigestInput(c, m) == DigestInput(d, n)
    ensures c == d && m == n
  {
    var k := |DOMAIN|;
    assert DigestInput(c, m)[k] == |c| && DigestInput(d, n)[k] == |d|;
    assert DigestInput(c, m)[k + 1..k + 1 + |c|] == c;
    assert DigestInput(d, n)[k + 1..k + 1 + |c|] == d;
    assert DigestInput(c, m)[k + 1 + |c|..] == m;
    assert DigestInput(d, n)[k + 1 + |c|..] == n;
  }

  function Sign(s: Suite, id: Identity, ctx: Bytes, message: Bytes, entropy: Bytes): Bytes {
    var digest := s.sha256(DigestInput(ctx, message));
    s.ed.sign(id.edPriv, digest, [], []) + s.dsa.sign(id.dsaPriv, digest, DOMAIN, entropy)
  }

  function Verify(s: Suite, pub: PublicIdentity, ctx: Bytes, message: Bytes, sig: Bytes): Option<Error> {
    if |sig| != SIGNATURE_SIZE then Some(SignatureInvalid)
    else
      var digest := s.sha256(DigestInput(ctx, message));
      if !s.ed.verify(pub.ed, digest, [], sig[..ED_SIGNATURE_SIZE]) then Some(SignatureInvalid)
      else if !s.dsa.verify(pub.dsa, digest, DOMAIN, sig[ED_SIGNATURE_SIZE..]) then Some(SignatureInvalid)
      else None
  }

  /** Both halves of a genuine signature verify, through the concatenation and the split. */
  lemma SignVerifies(s: Suite, id: Identity, ctx: Bytes, message: Bytes, entropy: Bytes)
    requires WellFormed(s, id)
    ensures |Sign(s, id, ctx, message, entropy)| == SIGNATURE_SIZE
    ensures Verify(s, Public(s, id), ctx, message, Sign(s, id, ctx, message, entropy)) == None
  {
    var digest := s.sha256(DigestInput(ctx, message));
    var sig := Sign(s, id, ctx, message, entropy);
    assert sig[..ED_SIGNATURE_SIZE] == s.ed.sign(id.edPriv, digest, [], []);
    assert sig[ED_SIGNATURE_SIZE..] == s.dsa.sign(id.dsaPriv, digest, DOMAIN, entropy);
  }

  // ---------- equality ----------

  /** Equal of the Go port, where a nil identity equals nothing. */
  predicate Equal(a: Option<PublicIdentity>, b: Option<PublicIdentity>) {
    && a.Some? && b.Some?
    && a.value.ed == b.value.ed
    && a.value.dsa == b.value.dsa
    && Kem.Marshal(a.value.xwing) == Kem.Marshal(b.value.xwing)
  }

  /** For well-sized identities the comparison is equality of identities and of their wire bytes. */
  lemma EqualIsByteEquality(a: PublicIdentity, b: PublicIdentity)
    requires WellSized(a) && WellSized(b)
    ensures Equal(Some(a), Some(b)) <==> a == b
    ensures a == b <==> Marshal(a) == Marshal(b)
  {
    MarshalFields(a);
    MarshalFields(b);
    assert Kem.Marshal(a.xwing)[..MLKEM_PUBLIC_SIZE] == a.xwing.mlkem;
    assert Kem.Marshal(b.xwing)[..MLKEM_PUBLIC_SIZE] == b.xwing.mlkem;
    assert Kem.Marshal(a.xwing)[MLKEM_PUBLIC_SIZE..] == a.xwing.x25519;
    assert Kem.Marshal(b.xwing)[MLKEM_PUBLIC_SIZE..] == b.xwing.x25519;
  }

  /** constantTimeEq of the TypeScript port: the xor/or accumulator decides equality of byte strings. */
  method ConstantTimeEq(a: Bytes, b: Bytes) returns (r: bool)
    ensures r <==> a == b
  {
    if |a| != |b| {
      return false;
    }
    var diff: nat := 0;
    for i := 0 to |a|
      invariant diff == 0 <==> a[..i] == b[..i]
    {
      XorZero(a[i], b[i]);
      OrZero(diff, Xor(a[i], b[i]));
      diff := Or(diff, Xor(a[i], b[i]));
      assert a[..i + 1] == a[..i] + [a[i]];
      assert b[..i + 1] == b[..i] + [b[i]];
    }
    assert a[..|a|] == a && b[..|b|] == b;
    r := diff == 0;
  }

  /** identityEquals of the TypeScript port. */
  method IdentityEqualsTs(a: PublicIdentity, b: PublicIdentity) returns (r: bool)
    ensures r <==> a == b
  {
    r := ConstantTimeEq(a.ed, b.ed);
    if r {
      r := ConstantTimeEq(a.dsa, b.dsa);
    }
    if r {
      r := ConstantTimeEq(a.xwing.mlkem, b.xwing.mlkem);
    }
    if r {
      r := ConstantTimeEq(a.xwing.x25519, b.xwing.x25519);
    }
  }

  /** identity_equals of the Python port: one accumulator across all four fields, with an early exit on length. */
  method IdentityEqualsPy(a: PublicIdentity, b: PublicIdentity) returns (r: bool)
    ensures r <==> a == b
  {
    var xs := [a.ed, a.dsa, a.xwing.mlkem, a.xwing.x25519];
    var ys := [b.ed, b.dsa, b.xwing.mlkem, b.xwing.x25519];
    var diff: nat := 0;
    for f := 0 to 4
      invariant diff == 0 <==> xs[..f] == ys[..f]
    {
      var x, y := xs[f], ys[f];
      if |x| != |y| {
        assert xs[f] != ys[f];
        return false;
      }
      ghost var before := diff;
      for i := 0 to |x|
        invariant diff == 0 <==> before == 0 && x[..i] == y[..i]
      {
        XorZero(x[i], y[i]);
        OrZero(diff, Xor(x[i], y[i]));
        diff := Or(diff, Xor(x[i], y[i]));
        assert x[..i + 1] == x[..i] + [x[i]];
        assert y[..i + 1] == y[..i] + [y[i]];
      }
      assert x[..|x|] == x && y[..|y|] == y;
      assert xs[..f + 1] == xs[..f] + [x];
      assert ys[..f + 1] == ys[..f] + [y];
    }
    assert xs[..4] == xs && ys[..4] == ys;
    assert xs == ys <==> (xs[0] == ys[0] && xs[1] == ys[1] && xs[2] == ys[2] && xs[3] == ys[3]);
    r := diff == 0;
  }
}
