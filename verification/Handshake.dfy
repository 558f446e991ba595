/** The 1-RTT handshake (handshake.go): both roles, what they compute, and that honest runs complete. */
module Handshake {
  import opened ByteStrings
  import opened Primitives
  import opened Codecs
  import opened Wire
  import opened Identities
  import Kem
  import Hkdf

  const LABEL_INIT: Bytes := Ascii("lux.zwing.v1/handshake-init")
  const LABEL_RESPONSE: Bytes := Ascii("lux.zwing.v1/handshake-response")
  const LABEL_I2R: Bytes := Ascii("lux.zwing.v1/i2r")
  const LABEL_R2I: Bytes := Ascii("lux.zwing.v1/r2i")
  const LABEL_RESP_ID: Bytes := Ascii("lux.zwing.v1/resp-id")
  const LABEL_TRANSCRIPT: Bytes := Ascii("lux.zwing.v1/transcript")
  const NONCE_LABEL: Bytes := Ascii("zwing-resp-id")

  datatype HandshakeResult = HandshakeResult(shared: Bytes, remote: PublicIdentity, keyI2R: Bytes, keyR2I: Bytes)

  datatype Config = Config(local: Option<Identity>, expected: Option<PublicIdentity>)

  // ---------- transcript, keys, nonce ----------

  function TranscriptInput(initPub: Bytes, ct: Bytes): Bytes {
    LABEL_TRANSCRIPT + BigEndian(|initPub|, 4) + initPub + BigEndian(|ct|, 4) + ct
  }

  method TranscriptHash(s: Suite, initPub: Bytes, ct: Bytes) returns (r: Bytes)
    ensures r == s.sha256(TranscriptInput(initPub, ct))
  {
    var h := new Kem.Hasher(s.sha256);
    h.Write(LABEL_TRANSCRIPT);
    assert h.fed == LABEL_TRANSCRIPT;
    h.Write(BigEndian(|initPub|, 4));
    h.Write(initPub);
    h.Write(BigEndian(|ct|, 4));
    h.Write(ct);
    r := s.sha256(h.fed);
  }

  /** Where label, lengths and parts lie in the transcript input. */
  lemma TranscriptFields(a: Bytes, x: Bytes)
    ensures var t := TranscriptInput(a, x);
            var k := |LABEL_TRANSCRIPT|;
            && |t| == k + 8 + |a| + |x|
            && t[..k] == LABEL_TRANSCRIPT
            && t[k + 4 + |a|..k + 8 + |a|] == BigEndian(|x|, 4)
            && t[k..k + 4] == BigEndian(|a|, 4)
            && t[k + 4..k + 4 + |a|] == a
            && t[k + 8 + |a|..] == x
  {
  }

  /** The transcript input determines both parts, for lengths a 32-bit prefix can hold. */
  lemma TranscriptInputInjective(a: Bytes, x: Bytes, b: Bytes, y: Bytes)
    requires |a| < 0x1_0000_0000 && |b| < 0x1_0000_0000
    requires TranscriptInput(a, x) == TranscriptInput(b, y)
    ensures a == b && x == y
  {
    TranscriptFields(a, x);
    TranscriptFields(b, y);
    Pow256Values();
    BigEndianInjective(|a|, |b|, 4);
  }

  /** No digest an initiator signs is ever a digest a responder signs, whatever the messages. */
  lemma RolesSeparated(m: Bytes, n: Bytes)
    ensures DigestInput(LABEL_INIT, m) != DigestInput(LABEL_RESPONSE, n)
  {
    if DigestInput(LABEL_INIT, m) == DigestInput(LABEL_RESPONSE, n) {
      DigestInputInjective(LABEL_INIT, m, LABEL_RESPONSE, n);
      assert false;
    }
  }

  /** Nor is the input of a transcript hash ever the input of a signed digest. */
  lemma TranscriptSeparated(a: Bytes, x: Bytes, m: Bytes)
    ensures TranscriptInput(a, x) != DigestInput(LABEL_INIT, m)
    ensures TranscriptInput(a, x) != DigestInput(LABEL_RESPONSE, m)
  {
    var k := |DOMAIN|;
    TranscriptFields(a, x);
    DigestFields(LABEL_INIT, m);
    DigestFields(LABEL_RESPONSE, m);
    assert TranscriptInput(a, x)[k] == LABEL_TRANSCRIPT[k] == '/' as int % 256;
  }

  function Derive(s: Suite, shared: Bytes, info: Bytes): (r: Bytes)
    ensures |r| == KEY_SIZE
  {
    Hkdf.Derive(s.sha256, None, shared, info, KEY_SIZE)
  }

  function Session(s: Suite, shared: Bytes, remote: PublicIdentity): HandshakeResult
  {
    HandshakeResult(shared, remote, Derive(s, shared, LABEL_I2R), Derive(s, shared, LABEL_R2I))
  }

  /** The first twelve bytes of a label, padded with zeros. */
  function HandshakeNonce(name: Bytes): (r: Bytes)
    ensures |r| == NONCE_SIZE
  {
    (name + Zeros(NONCE_SIZE))[..NONCE_SIZE]
  }

  /** The nonce of the responder payload, spelled out. */
  lemma HandshakeNonceBytes()
    ensures HandshakeNonce(NONCE_LABEL) == Ascii("zwing-resp-i")
  {
    assert |NONCE_LABEL| == 13;
  }

  // ---------- the derived keys differ ----------

  /** None of the inputs hashed for one of the three keys collides with one hashed for another. */
  ghost predicate KeysApart(s: Suite, shared: Bytes) {
    var i2r := Hkdf.DeriveInputs(s.sha256, None, shared, LABEL_I2R);
    var r2i := Hkdf.DeriveInputs(s.sha256, None, shared, LABEL_R2I);
    var respId := Hkdf.DeriveInputs(s.sha256, None, shared, LABEL_RESP_ID);
    Apart(s.sha256, i2r, r2i) && Apart(s.sha256, i2r, respId) && Apart(s.sha256, r2i, respId)
  }

  lemma LabelsDiffer()
    ensures LABEL_I2R != LABEL_R2I && LABEL_I2R != LABEL_RESP_ID && LABEL_R2I != LABEL_RESP_ID
  {
    assert LABEL_I2R[13] == 'i' as int % 256 && LABEL_R2I[13] == 'r' as int % 256;
    assert |LABEL_RESP_ID| != |LABEL_I2R| == |LABEL_R2I|;
  }

  lemma LabelBinds(s: Suite, shared: Bytes, x: Bytes, y: Bytes)
    requires x != y
    requires Apart(s.sha256, Hkdf.DeriveInputs(s.sha256, None, shared, x), Hkdf.DeriveInputs(s.sha256, None, shared, y))
    ensures Derive(s, shared, x) != Derive(s, shared, y)
  {
    if Derive(s, shared, x) == Derive(s, shared, y) {
      Hkdf.DeriveBinds(s.sha256, None, shared, x, shared, y, KEY_SIZE);
    }
  }

  /** Without a collision, the two channel keys and the payload key of a session are three keys. */
  lemma SessionKeysDiffer(s: Suite, shared: Bytes)
    requires KeysApart(s, shared)
    ensures Derive(s, shared, LABEL_I2R) != Derive(s, shared, LABEL_R2I)
    ensures Derive(s, shared, LABEL_I2R) != Derive(s, shared, LABEL_RESP_ID)
    ensures Derive(s, shared, LABEL_R2I) != Derive(s, shared, LABEL_RESP_ID)
  {
    LabelsDiffer();
    LabelBinds(s, shared, LABEL_I2R, LABEL_R2I);
    LabelBinds(s, shared, LABEL_I2R, LABEL_RESP_ID);
    LabelBinds(s, shared, LABEL_R2I, LABEL_RESP_ID);
  }

  // ---------- what each role computes ----------

  /** The initiator's first message. */
  function Hello(s: Suite, id: Identity, entropy: Bytes): (r: Bytes)
    requires WellFormed(s, id)
    ensures Framable(r)
  {
    var idPub := Marshal(Public(s, id));
    var sig := Sign(s, id, LABEL_INIT, idPub, entropy);
    assert |idPub| == IDENTITY_SIZE by { PublicWellSized(s, id); MarshalFields(Public(s, id)); }
    assert |sig| == SIGNATURE_SIZE by { SignVerifies(s, id, LABEL_INIT, idPub, entropy); }
    EncodePair(Pair(idPub, sig))
  }

  /** What the initiator has extracted from a response before it checks the signature. */
  datatype Claim = Claim(ct: Bytes, shared: Bytes, remote: PublicIdentity, sig: Bytes)

  function ReadClaim(s: Suite, id: Identity, frame: Bytes): Result<Claim>
  {
    match DecodeResponse(frame)
    case Err(e) => Err(e)
    case Ok(resp) =>
      match Kem.Decapsulate(s, id.xwing, resp.first)
      case Err(e) => Err(e)
      case Ok(shared) =>
        match s.aead.open(Derive(s, shared, LABEL_RESP_ID), HandshakeNonce(NONCE_LABEL), resp.second, resp.first)
        case None => Err(CiphertextCorrupted)
        case Some(plaintext) =>
          match DecodePair(plaintext)
          case Err(e) => Err(e)
          case Ok(p) =>
            match Parse(s, p.first)
            case Err(e) => Err(e)
            case Ok(remote) => Ok(Claim(resp.first, shared, remote, p.second))
  }

  /** The initiator's verdict on a response frame. */
  function Conclude(s: Suite, id: Identity, pin: Option<PublicIdentity>, frame: Bytes): Result<HandshakeResult>
  {
    match ReadClaim(s, id, frame)
    case Err(e) => Err(e)
    case Ok(c) =>
      var transcript := s.sha256(TranscriptInput(Marshal(Public(s, id)), c.ct));
      match Verify(s, c.remote, LABEL_RESPONSE, transcript, c.sig)
      case Some(e) => Err(e)
      case None =>
        if pin.Some? && !Equal(Some(c.remote), pin) then Err(IdentityMismatch)
        else Ok(Session(s, c.shared, c.remote))
  }

  /** A responder that got as far as signing: what it saw, what it holds, what it will send. */
  datatype Reply = Reply(initPub: Bytes, remote: PublicIdentity, ct: Bytes, shared: Bytes, message: Bytes)

  function Respond(s: Suite, id: Identity, pin: Option<PublicIdentity>, frame: Bytes, entropy: Bytes, sigEntropy: Bytes)
    : (r: Result<Reply>)
    requires WellFormed(s, id)
    ensures r.Ok? ==> Framable(r.value.message)
  {
    match DecodePair(frame)
    case Err(e) => Err(e)
    case Ok(init) =>
      match Parse(s, init.first)
      case Err(e) => Err(e)
      case Ok(remote) =>
        match Verify(s, remote, LABEL_INIT, init.first, init.second)
        case Some(e) => Err(e)
        case None =>
          if pin.Some? && !Equal(Some(remote), pin) then Err(IdentityMismatch)
          else
            match Kem.Encapsulate(s, remote.xwing, entropy)
            case Err(e) => Err(e)
            case Ok(enc) =>
              Kem.EncapsulationSize(s, remote.xwing, entropy);
              Ok(Reply(init.first, remote, enc.ct, enc.shared, ReplyMessage(s, id, init.first, enc, sigEntropy)))
  }

  /** The plaintext the responder seals: its identity and its signature over the transcript. */
  function ReplyPayload(s: Suite, id: Identity, initPub: Bytes, ct: Bytes, sigEntropy: Bytes): (p: Pair)
    requires WellFormed(s, id)
    ensures |p.first| == IDENTITY_SIZE && |p.second| == SIGNATURE_SIZE
  {
    var transcript := s.sha256(TranscriptInput(initPub, ct));
    PublicWellSized(s, id);
    MarshalFields(Public(s, id));
    SignVerifies(s, id, LABEL_RESPONSE, transcript, sigEntropy);
    Pair(Marshal(Public(s, id)), Sign(s, id, LABEL_RESPONSE, transcript, sigEntropy))
  }

  function ReplyMessage(s: Suite, id: Identity, initPub: Bytes, enc: Kem.Encapsulation, sigEntropy: Bytes): (r: Bytes)
    requires WellFormed(s, id) && |enc.ct| == CIPHERTEXT_SIZE
    ensures Framable(r)
  {
    var plaintext := EncodePair(ReplyPayload(s, id, initPub, enc.ct, sigEntropy));
    var sealed := s.aead.seal(Derive(s, enc.shared, LABEL_RESP_ID), HandshakeNonce(NONCE_LABEL), plaintext, enc.ct);
    assert |sealed| == |plaintext| + TAG_SIZE;
    EncodeResponse(Pair(enc.ct, sealed))
  }

  // ---------- exactly what each role accepts ----------

  /** Both schemes accept their half of the signature over the digest of context and message. */
  ghost predicate SignedBy(s: Suite, pub: PublicIdentity, ctx: Bytes, message: Bytes, sig: Bytes) {
    var digest := s.sha256(DigestInput(ctx, message));
    && |sig| == ED_SIGNATURE_SIZE + DSA_SIGNATURE_SIZE
    && s.ed.verify(pub.ed, digest, [], sig[..ED_SIGNATURE_SIZE])
    && s.dsa.verify(pub.dsa, digest, DOMAIN, sig[ED_SIGNATURE_SIZE..])
  }

  /**
   A response an initiator ends with as `res`: a ciphertext of its own key, and a payload
   sealed under the payload key with that ciphertext as associated data, which names the
   peer and carries its signature over this initiator and this ciphertext.
   */
  ghost predicate AcceptedAs(s: Suite, id: Identity, pin: Option<PublicIdentity>, frame: Bytes, res: HandshakeResult,
                             ct: Bytes, sealed: Bytes, sig: Bytes) {
    && ResponseFits(Pair(ct, sealed)) && frame == EncodeResponse(Pair(ct, sealed))
    && Kem.Decapsulate(s, id.xwing, ct) == Ok(res.shared)
    && WellSized(res.remote) && s.mlkem.validPublic(res.remote.xwing.mlkem)
    && PairFits(Pair(Marshal(res.remote), sig))
    && s.aead.open(Hkdf.Derive(s.sha256, None, res.shared, Ascii("lux.zwing.v1/resp-id"), 32), Ascii("zwing-resp-i"), sealed, ct)
         == Some(EncodePair(Pair(Marshal(res.remote), sig)))
    && SignedBy(s, res.remote, Ascii("lux.zwing.v1/handshake-response"), s.sha256(TranscriptInput(Marshal(Public(s, id)), ct)), sig)
    && PinAllows(pin, res.remote)
    && res.keyI2R == Hkdf.Derive(s.sha256, None, res.shared, Ascii("lux.zwing.v1/i2r"), 32)
    && res.keyR2I == Hkdf.Derive(s.sha256, None, res.shared, Ascii("lux.zwing.v1/r2i"), 32)
  }

  lemma ConcludeSound(s: Suite, id: Identity, pin: Option<PublicIdentity>, frame: Bytes, res: HandshakeResult)
    returns (ct: Bytes, sealed: Bytes, sig: Bytes)
    requires Conclude(s, id, pin, frame) == Ok(res)
    ensures AcceptedAs(s, id, pin, frame, res, ct, sealed, sig)
  {
    var resp := DecodeResponse(frame).value;
    ct, sealed := resp.first, resp.second;
    ResponseCodecCanonical(frame, resp);
    HandshakeNonceBytes();
    var plaintext := s.aead.open(Derive(s, res.shared, LABEL_RESP_ID), HandshakeNonce(NONCE_LABEL), sealed, ct).value;
    var payload := DecodePair(plaintext).value;
    sig := payload.second;
    PairCodecCanonical(plaintext, payload);
    CodecCanonical(s, payload.first, res.remote);
    ParsedKey(s, payload.first, res.remote);
  }

  lemma ParsedKey(s: Suite, data: Bytes, pub: PublicIdentity)
    requires Parse(s, data) == Ok(pub)
    ensures s.mlkem.validPublic(pub.xwing.mlkem)
  {
  }

  lemma ConcludeComplete(s: Suite, id: Identity, pin: Option<PublicIdentity>, frame: Bytes, res: HandshakeResult,
                         ct: Bytes, sealed: Bytes, sig: Bytes)
    requires AcceptedAs(s, id, pin, frame, res, ct, sealed, sig)
    ensures Conclude(s, id, pin, frame) == Ok(res)
  {
    ResponseCodecCanonical([], Pair(ct, sealed));
    HandshakeNonceBytes();
    PairCodecCanonical([], Pair(Marshal(res.remote), sig));
    CodecCanonical(s, [], res.remote);
  }

  /** An initiator ends with `res` if and only if the frame is such a response. */
  lemma ConcludeExact(s: Suite, id: Identity, pin: Option<PublicIdentity>, frame: Bytes, res: HandshakeResult)
    ensures Conclude(s, id, pin, frame) == Ok(res) <==>
            exists ct, sealed, sig :: AcceptedAs(s, id, pin, frame, res, ct, sealed, sig)
  {
    if Conclude(s, id, pin, frame) == Ok(res) {
      var ct, sealed, sig := ConcludeSound(s, id, pin, frame, res);
    }
    forall ct, sealed, sig | AcceptedAs(s, id, pin, frame, res, ct, sealed, sig) ensures Conclude(s, id, pin, frame) == Ok(res) {
      ConcludeComplete(s, id, pin, frame, res, ct, sealed, sig);
    }
  }

  /** A first message a responder answers with `r`: an identity that signed itself, and a payload bound to the ciphertext. */
  ghost predicate AnsweredBy(s: Suite, id: Identity, pin: Option<PublicIdentity>, frame: Bytes, entropy: Bytes,
                             sigEntropy: Bytes, r: Reply, sig: Bytes)
    requires WellFormed(s, id)
  {
    && PairFits(Pair(r.initPub, sig)) && frame == EncodePair(Pair(r.initPub, sig))
    && WellSized(r.remote) && s.mlkem.validPublic(r.remote.xwing.mlkem) && r.initPub == Marshal(r.remote)
    && SignedBy(s, r.remote, Ascii("lux.zwing.v1/handshake-init"), r.initPub, sig)
    && PinAllows(pin, r.remote)
    && Kem.Encapsulate(s, r.remote.xwing, entropy) == Ok(Kem.Encapsulation(r.ct, r.shared))
    && SealedReply(s, id, r, sigEntropy)
  }

  /** The reply is the ciphertext and the seal, with the ciphertext as associated data, of the responder's identity and signature. */
  ghost predicate SealedReply(s: Suite, id: Identity, r: Reply, sigEntropy: Bytes)
  {
    var transcript := s.sha256(TranscriptInput(r.initPub, r.ct));
    var payload := Pair(Marshal(Public(s, id)), Sign(s, id, Ascii("lux.zwing.v1/handshake-response"), transcript, sigEntropy));
    && PairFits(payload)
    && var key := Hkdf.Derive(s.sha256, None, r.shared, Ascii("lux.zwing.v1/resp-id"), 32);
       var sealed := s.aead.seal(key, Ascii("zwing-resp-i"), EncodePair(payload), r.ct);
       ResponseFits(Pair(r.ct, sealed)) && r.message == EncodeResponse(Pair(r.ct, sealed))
  }

  lemma ReplySealed(s: Suite, id: Identity, r: Reply, sigEntropy: Bytes)
    requires WellFormed(s, id) && |r.ct| == CIPHERTEXT_SIZE
    ensures SealedReply(s, id, r, sigEntropy) <==>
            r.message == ReplyMessage(s, id, r.initPub, Kem.Encapsulation(r.ct, r.shared), sigEntropy)
  {
    HandshakeNonceBytes();
    var payload := ReplyPayload(s, id, r.initPub, r.ct, sigEntropy);
    var sealed := s.aead.seal(Derive(s, r.shared, LABEL_RESP_ID), HandshakeNonce(NONCE_LABEL), EncodePair(payload), r.ct);
    assert |sealed| == |EncodePair(payload)| + TAG_SIZE;
  }

  lemma RespondSound(s: Suite, id: Identity, pin: Option<PublicIdentity>, frame: Bytes, entropy: Bytes, sigEntropy: Bytes, r: Reply)
    returns (sig: Bytes)
    requires WellFormed(s, id) && Respond(s, id, pin, frame, entropy, sigEntropy) == Ok(r)
    ensures AnsweredBy(s, id, pin, frame, entropy, sigEntropy, r, sig)
  {
    var init := DecodePair(frame).value;
    sig := init.second;
    PairCodecCanonical(frame, init);
    CodecCanonical(s, init.first, r.remote);
    ParsedKey(s, init.first, r.remote);
    Kem.EncapsulationSize(s, r.remote.xwing, entropy);
    ReplySealed(s, id, r, sigEntropy);
  }

  lemma RespondComplete(s: Suite, id: Identity, pin: Option<PublicIdentity>, frame: Bytes, entropy: Bytes, sigEntropy: Bytes,
                        r: Reply, sig: Bytes)
    requires WellFormed(s, id) && AnsweredBy(s, id, pin, frame, entropy, sigEntropy, r, sig)
    ensures Respond(s, id, pin, frame, entropy, sigEntropy) == Ok(r)
  {
    PairCodecCanonical([], Pair(r.initPub, sig));
    CodecCanonical(s, [], r.remote);
    Kem.EncapsulationSize(s, r.remote.xwing, entropy);
    ReplySealed(s, id, r, sigEntropy);
  }

  /** A responder replies with `r` if and only if the frame is such a first message and `r` such a reply. */
  lemma RespondExact(s: Suite, id: Identity, pin: Option<PublicIdentity>, frame: Bytes, entropy: Bytes, sigEntropy: Bytes, r: Reply)
    requires WellFormed(s, id)
    ensures Respond(s, id, pin, frame, entropy, sigEntropy) == Ok(r) <==>
            exists sig :: AnsweredBy(s, id, pin, frame, entropy, sigEntropy, r, sig)
  {
    if Respond(s, id, pin, frame, entropy, sigEntropy) == Ok(r) {
      var sig := RespondSound(s, id, pin, frame, entropy, sigEntropy, r);
    }
    forall sig | AnsweredBy(s, id, pin, frame, entropy, sigEntropy, r, sig)
      ensures Respond(s, id, pin, frame, entropy, sigEntropy) == Ok(r)
    {
      RespondComplete(s, id, pin, frame, entropy, sigEntropy, r, sig);
    }
  }

  /** A pin only filters: a mismatch is reported only of a peer whose response passed every other check. */
  lemma PinFilters(s: Suite, id: Identity, pin: Option<PublicIdentity>, frame: Bytes)
    ensures Conclude(s, id, pin, frame) ==
            match Conclude(s, id, None, frame)
            case Err(e) => Err(e)
            case Ok(res) => if PinAllows(pin, res.remote) then Ok(res) else Err(IdentityMismatch)
  {
  }

  // ---------- the roles as they drive a connection ----------

  /** The initiator up to the point where it waits. */
  method InitiatorSend(s: Suite, conn: Duplex, id: Identity, entropy: Bytes) returns (err: Option<Error>)
    requires WellFormed(s, id)
    modifies conn`sent, conn`plan
    ensures var e := EmitFrame(Hello(s, id, entropy), old(conn.plan));
            err == e.err && conn.sent == old(conn.sent) + e.bytes && conn.plan == e.plan
  {
    var idPub := MarshalBinary(Public(s, id));
    var sig := Sign(s, id, LABEL_INIT, idPub, entropy);
    assert PairFits(Pair(idPub, sig)) && Hello(s, id, entropy) == EncodePair(Pair(idPub, sig)) by {
      PublicWellSized(s, id);
      MarshalFields(Public(s, id));
      SignVerifies(s, id, LABEL_INIT, idPub, entropy);
    }
    var message := MarshalPair(Pair(idPub, sig));
    err := WriteFrame(conn, message);
  }

  /** The initiator from the response on. */
  method InitiatorReceive(s: Suite, conn: Duplex, id: Identity, pin: Option<PublicIdentity>)
    returns (r: Result<HandshakeResult>)
    modifies conn`incoming
    ensures var t := TakeFrame(old(conn.incoming));
            && conn.incoming == t.rest
            && r == match t.result case Err(e) => Err(e) case Ok(frame) => Conclude(s, id, pin, frame)
  {
    var frame := ReadFrame(conn);
    if frame.Err? {
      return Err(frame.error);
    }
    var resp := ParseResponse(frame.value);
    if resp.Err? {
      return Err(resp.error);
    }
    var ct := resp.value.first;
    var shared := Kem.XWingDecapsulate(s, id.xwing, ct);
    if shared.Err? {
      return Err(shared.error);
    }
    var idKey := Derive(s, shared.value, LABEL_RESP_ID);
    var plaintext := s.aead.open(idKey, HandshakeNonce(NONCE_LABEL), resp.value.second, ct);
    if plaintext.None? {
      return Err(CiphertextCorrupted);
    }
    var payload := ParsePair(plaintext.value);
    if payload.Err? {
      return Err(payload.error);
    }
    var remote := ParseIdentityPublic(s, payload.value.first);
    if remote.Err? {
      return Err(remote.error);
    }
    var transcript := TranscriptHash(s, Marshal(Public(s, id)), ct);
    var bad := Verify(s, remote.value, LABEL_RESPONSE, transcript, payload.value.second);
    if bad.Some? {
      return Err(bad.value);
    }
    if pin.Some? && !Equal(Some(remote.value), pin) {
      return Err(IdentityMismatch);
    }
    r := Ok(Session(s, shared.value, remote.value));
  }

  /** runInitiator: nothing is read unless the first message left whole. */
  method RunInitiator(s: Suite, conn: Duplex, cfg: Option<Config>, entropy: Bytes) returns (r: Result<HandshakeResult>)
    requires cfg.Some? && cfg.value.local.Some? ==> WellFormed(s, cfg.value.local.value)
    modifies conn
    ensures cfg.None? || cfg.value.local.None? ==> r == Err(ConfigMissingID) && unchanged(conn)
    ensures cfg.Some? && cfg.value.local.Some? ==>
              var id := cfg.value.local.value;
              var e := EmitFrame(Hello(s, id, entropy), old(conn.plan));
              var t := TakeFrame(old(conn.incoming));
              && conn.sent == old(conn.sent) + e.bytes && conn.plan == e.plan
              && if e.err.Some? then r == Err(e.err.value) && conn.incoming == old(conn.incoming)
                 else && conn.incoming == t.rest
                      && r == match t.result
                              case Err(x) => Err(x)
                              case Ok(frame) => Conclude(s, id, cfg.value.expected, frame)
  {
    if cfg.None? || cfg.value.local.None? {
      return Err(ConfigMissingID);
    }
    var err := InitiatorSend(s, conn, cfg.value.local.value, entropy);
    if err.Some? {
      return Err(err.value);
    }
    r := InitiatorReceive(s, conn, cfg.value.local.value, cfg.value.expected);
  }

  method RunResponder(s: Suite, conn: Duplex, cfg: Option<Config>, entropy: Bytes, sigEntropy: Bytes)
    returns (r: Result<HandshakeResult>)
    requires cfg.Some? && cfg.value.local.Some? ==> WellFormed(s, cfg.value.local.value)
    modifies conn
    ensures cfg.None? || cfg.value.local.None? ==> r == Err(ConfigMissingID) && unchanged(conn)
    ensures cfg.Some? && cfg.value.local.Some? ==>
              var t := TakeFrame(old(conn.incoming));
              && conn.incoming == t.rest
              && match ReplyTo(s, cfg.value.local.value, cfg.value.expected, t.result, entropy, sigEntropy)
                 case Err(x) => r == Err(x) && conn.sent == old(conn.sent) && conn.plan == old(conn.plan)
                 case Ok(reply) =>
                   var e := EmitFrame(reply.message, old(conn.plan));
                   && conn.sent == old(conn.sent) + e.bytes && conn.plan == e.plan
                   && r == if e.err.Some? then Err(e.err.value) else Ok(Session(s, reply.shared, reply.remote))
  {
    if cfg.None? || cfg.value.local.None? {
      return Err(ConfigMissingID);
    }
    var id := cfg.value.local.value;
    var frame := ReadFrame(conn);
    if frame.Err? {
      return Err(frame.error);
    }
    var init := ParsePair(frame.value);
    if init.Err? {
      return Err(init.error);
    }
    var initPub := init.value.first;
    var remote := ParseIdentityPublic(s, initPub);
    if remote.Err? {
      return Err(remote.error);
    }
    var bad := Verify(s, remote.value, LABEL_INIT, initPub, init.value.second);
    if bad.Some? {
      return Err(bad.value);
    }
    if cfg.value.expected.Some? && !Equal(Some(remote.value), cfg.value.expected) {
      return Err(IdentityMismatch);
    }
    var reader := new Kem.Source(entropy);
    var enc := Kem.XWingEncapsulate(s, reader, remote.value.xwing);
    if enc.Err? {
      return Err(enc.error);
    }
    Kem.EncapsulationSize(s, remote.value.xwing, entropy);
    var message := BuildReply(s, id, initPub, enc.value, sigEntropy);
    var err := WriteFrame(conn, message);
    if err.Some? {
      return Err(err.value);
    }
    r := Ok(Session(s, enc.value.shared, remote.value));
  }

  /** The responder's answer to what readFrame gave it. */
  function ReplyTo(s: Suite, id: Identity, pin: Option<PublicIdentity>, frame: Result<Bytes>, entropy: Bytes, sigEntropy: Bytes)
    : Result<Reply>
    requires WellFormed(s, id)
  {
    match frame
    case Err(e) => Err(e)
    case Ok(f) => Respond(s, id, pin, f, entropy, sigEntropy)
  }

  /** Steps 3 of runResponder: sign the transcript, seal the payload, encode the response. */
  method BuildReply(s: Suite, id: Identity, initPub: Bytes, enc: Kem.Encapsulation, sigEntropy: Bytes) returns (message: Bytes)
    requires WellFormed(s, id) && |enc.ct| == CIPHERTEXT_SIZE
    ensures message == ReplyMessage(s, id, initPub, enc, sigEntropy)
  {
    var idPub := MarshalBinary(Public(s, id));
    var transcript := TranscriptHash(s, initPub, enc.ct);
    var sig := Sign(s, id, LABEL_RESPONSE, transcript, sigEntropy);
    assert Pair(idPub, sig) == ReplyPayload(s, id, initPub, enc.ct, sigEntropy);
    var plaintext := MarshalPair(Pair(idPub, sig));
    var idKey := Derive(s, enc.shared, LABEL_RESP_ID);
    var sealed := s.aead.seal(idKey, HandshakeNonce(NONCE_LABEL), plaintext, enc.ct);
    assert |sealed| == |plaintext| + TAG_SIZE;
    message := MarshalResponse(Pair(enc.ct, sealed));
  }

  // ---------- honest runs ----------

  predicate PinAllows(pin: Option<PublicIdentity>, remote: PublicIdentity) {
    pin.Some? ==> Equal(Some(remote), pin)
  }

  /** An honest hello is answered whenever encapsulation succeeds and the pin allows the initiator. */
  lemma HonestReply(s: Suite, i: Identity, r: Identity, pin: Option<PublicIdentity>, hello: Bytes, entropy: Bytes, sigEntropy: Bytes)
    requires WellFormed(s, i) && WellFormed(s, r)
    requires PinAllows(pin, Public(s, i))
    requires Kem.Encapsulate(s, Public(s, i).xwing, entropy).Ok?
    ensures var enc := Kem.Encapsulate(s, Public(s, i).xwing, entropy).value;
            var idPub := Marshal(Public(s, i));
            && |enc.ct| == CIPHERTEXT_SIZE
            && Respond(s, r, pin, Hello(s, i, hello), entropy, sigEntropy) ==
                 Ok(Reply(idPub, Public(s, i), enc.ct, enc.shared, ReplyMessage(s, r, idPub, enc, sigEntropy)))
  {
    var pub := Public(s, i);
    var idPub := Marshal(pub);
    PublicWellSized(s, i);
    MarshalFields(pub);
    SignVerifies(s, i, LABEL_INIT, idPub, hello);
    PairCodecCanonical([], Pair(idPub, Sign(s, i, LABEL_INIT, idPub, hello)));
    CodecCanonical(s, [], pub);
    Kem.EncapsulationSize(s, pub.xwing, entropy);
  }

  /** The initiator reads out of an honest reply what the responder put in, and the responder's secret. */
  lemma HonestClaim(s: Suite, i: Identity, r: Identity, initPub: Bytes, entropy: Bytes, sigEntropy: Bytes)
    requires WellFormed(s, i) && WellFormed(s, r)
    requires Kem.Encapsulate(s, Public(s, i).xwing, entropy).Ok?
    ensures var enc := Kem.Encapsulate(s, Public(s, i).xwing, entropy).value;
            && |enc.ct| == CIPHERTEXT_SIZE
            && ReadClaim(s, i, ReplyMessage(s, r, initPub, enc, sigEntropy)) ==
                 Ok(Claim(enc.ct, enc.shared, Public(s, r), ReplyPayload(s, r, initPub, enc.ct, sigEntropy).second))
  {
    var enc := Kem.Encapsulate(s, Public(s, i).xwing, entropy).value;
    Kem.Agreement(s, i.xwing, entropy);
    var payload := ReplyPayload(s, r, initPub, enc.ct, sigEntropy);
    var plaintext := EncodePair(payload);
    var key := Derive(s, enc.shared, LABEL_RESP_ID);
    var sealed := s.aead.seal(key, HandshakeNonce(NONCE_LABEL), plaintext, enc.ct);
    assert |sealed| == |plaintext| + TAG_SIZE;
    assert s.aead.open(key, HandshakeNonce(NONCE_LABEL), sealed, enc.ct) == Some(plaintext);
    ResponseCodecCanonical([], Pair(enc.ct, sealed));
    PairCodecCanonical([], payload);
    PublicWellSized(s, r);
    CodecCanonical(s, [], Public(s, r));
  }

  /** The initiator accepts the honest reply to its own identity and derives the responder's secret. */
  lemma HonestConclusion(s: Suite, i: Identity, r: Identity, pin: Option<PublicIdentity>, entropy: Bytes, sigEntropy: Bytes)
    requires WellFormed(s, i) && WellFormed(s, r)
    requires PinAllows(pin, Public(s, r))
    requires Kem.Encapsulate(s, Public(s, i).xwing, entropy).Ok?
    ensures var enc := Kem.Encapsulate(s, Public(s, i).xwing, entropy).value;
            && |enc.ct| == CIPHERTEXT_SIZE
            && Conclude(s, i, pin, ReplyMessage(s, r, Marshal(Public(s, i)), enc, sigEntropy)) ==
                 Ok(Session(s, enc.shared, Public(s, r)))
  {
    var enc := Kem.Encapsulate(s, Public(s, i).xwing, entropy).value;
    var idPub := Marshal(Public(s, i));
    HonestClaim(s, i, r, idPub, entropy, sigEntropy);
    SignVerifies(s, r, LABEL_RESPONSE, s.sha256(TranscriptInput(idPub, enc.ct)), sigEntropy);
  }

  lemma HonestOutcome(s: Suite, i: Identity, r: Identity, pinI: Option<PublicIdentity>, pinR: Option<PublicIdentity>,
                      helloEntropy: Bytes, entropy: Bytes, sigEntropy: Bytes)
    requires WellFormed(s, i) && WellFormed(s, r)
    requires PinAllows(pinI, Public(s, r)) && PinAllows(pinR, Public(s, i))
    requires Kem.Encapsulate(s, Public(s, i).xwing, entropy).Ok?
    ensures var answer := Respond(s, r, pinR, Hello(s, i, helloEntropy), entropy, sigEntropy);
            && answer.Ok?
            && answer.value.shared == Kem.Encapsulate(s, Public(s, i).xwing, entropy).value.shared
            && answer.value.remote == Public(s, i)
            && Conclude(s, i, pinI, answer.value.message) == Ok(Session(s, answer.value.shared, Public(s, r)))
  {
    HonestReply(s, i, r, pinR, helloEntropy, entropy, sigEntropy);
    HonestConclusion(s, i, r, pinI, entropy, sigEntropy);
  }

  lemma CleanFrame(p: Bytes)
    requires Framable(p)
    ensures EmitFrame(p, []) == Emission(Frame(p), None, [])
    ensures TakeFrame(Frame(p)) == Taken(Ok(p), [])
  {
    TakeFrameExact(Frame(p), p, []);
  }

  method HelloTurn(s: Suite, i: Identity, entropy: Bytes) returns (conn: Duplex)
    requires WellFormed(s, i)
    ensures fresh(conn) && conn.sent == Frame(Hello(s, i, entropy))
  {
    CleanFrame(Hello(s, i, entropy));
    conn := new Duplex([], []);
    var err := InitiatorSend(s, conn, i, entropy);
  }

  /** The responder on a connection that carries one honest hello and accepts every write. */
  method ResponderTurn(s: Suite, conn: Duplex, i: Identity, r: Identity,
                       ghost pinI: Option<PublicIdentity>, pinR: Option<PublicIdentity>,
                       ghost helloEntropy: Bytes, entropy: Bytes, sigEntropy: Bytes)
    returns (at: Result<HandshakeResult>, ghost message: Bytes)
    requires WellFormed(s, i) && WellFormed(s, r)
    requires PinAllows(pinI, Public(s, r)) && PinAllows(pinR, Public(s, i))
    requires Kem.Encapsulate(s, Public(s, i).xwing, entropy).Ok?
    requires conn.incoming == Frame(Hello(s, i, helloEntropy)) && conn.sent == [] && conn.plan == []
    modifies conn
    ensures at == Ok(Session(s, Kem.Encapsulate(s, Public(s, i).xwing, entropy).value.shared, Public(s, i)))
    ensures Framable(message) && conn.incoming == [] && conn.sent == Frame(message)
    ensures Conclude(s, i, pinI, message) == Ok(Session(s, at.value.shared, Public(s, r)))
  {
    HonestOutcome(s, i, r, pinI, pinR, helloEntropy, entropy, sigEntropy);
    ghost var hello := Hello(s, i, helloEntropy);
    message := Respond(s, r, pinR, hello, entropy, sigEntropy).value.message;
    CleanFrame(hello);
    CleanFrame(message);
    at := RunResponder(s, conn, Some(Config(Some(r), pinR)), entropy, sigEntropy);
  }

  method InitiatorTurn(s: Suite, conn: Duplex, i: Identity, pin: Option<PublicIdentity>, ghost frame: Bytes)
    returns (at: Result<HandshakeResult>)
    requires Framable(frame) && conn.incoming == Frame(frame)
    modifies conn
    ensures at == Conclude(s, i, pin, frame) && conn.incoming == []
  {
    CleanFrame(frame);
    at := InitiatorReceive(s, conn, i, pin);
  }

  /**
   Both roles over a reliable connection: whatever identities and randomness, if
   encapsulation succeeds and the pins allow the peers, both succeed, nothing is
   left on the wire, both hold the same secret and keys, and each names the other.
   */
  method HonestSession(s: Suite, i: Identity, r: Identity, pinI: Option<PublicIdentity>, pinR: Option<PublicIdentity>,
                       helloEntropy: Bytes, entropy: Bytes, sigEntropy: Bytes)
    returns (atI: Result<HandshakeResult>, atR: Result<HandshakeResult>, connI: Duplex, connR: Duplex)
    requires WellFormed(s, i) && WellFormed(s, r)
    requires PinAllows(pinI, Public(s, r)) && PinAllows(pinR, Public(s, i))
    requires Kem.Encapsulate(s, Public(s, i).xwing, entropy).Ok?
    ensures atI.Ok? && atR.Ok?
    ensures atI.value.shared == atR.value.shared == Kem.Encapsulate(s, Public(s, i).xwing, entropy).value.shared
    ensures atI.value.keyI2R == Derive(s, atI.value.shared, LABEL_I2R) && atI.value.keyR2I == Derive(s, atI.value.shared, LABEL_R2I)
    ensures atI.value.keyI2R == atR.value.keyI2R && atI.value.keyR2I == atR.value.keyR2I
    ensures |atI.value.keyI2R| == KEY_SIZE && |atI.value.keyR2I| == KEY_SIZE
    ensures atI.value.remote == Public(s, r) && atR.value.remote == Public(s, i)
    ensures connI.incoming == [] && connR.incoming == []
  {
    connI := HelloTurn(s, i, helloEntropy);
    connR := new Duplex(connI.sent, []);
    ghost var message;
    atR, message := ResponderTurn(s, connR, i, r, pinI, pinR, helloEntropy, entropy, sigEntropy);
    connI.incoming := connR.sent;
    atI := InitiatorTurn(s, connI, i, pinI, message);
  }
}
