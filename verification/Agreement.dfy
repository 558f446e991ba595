/**
 Many handshakes at once over a network that may present any frame to anyone.  A trace
 lists what honest parties do; the adversary is whatever chose the frames.
 */
module Agreement {
  import opened ByteStrings
  import opened Primitives
  import opened Identities
  import opened Handshake
  import Kem
  import Codecs

  /** An initiator's first message, a responder's whole run, or an initiator's second half, each on any frame. */
  datatype Event =
    | Greet(id: Identity, entropy: Bytes)
    | Answer(id: Identity, pin: Option<PublicIdentity>, frame: Bytes, kemEntropy: Bytes, sigEntropy: Bytes)
    | Finish(id: Identity, pin: Option<PublicIdentity>, frame: Bytes)

  type Trace = seq<Event>

  ghost predicate Honest(s: Suite, trace: Trace) {
    forall i :: 0 <= i < |trace| ==> WellFormed(s, trace[i].id)
  }

  // ---------- the log of signatures ----------

  /** The two signature schemes behind an identity signature. */
  datatype Half = Ed | Dsa

  function KeyOf(half: Half, pub: PublicIdentity): Bytes {
    if half == Ed then pub.ed else pub.dsa
  }

  /** What one half of the signature check accepts. */
  predicate HalfAccepts(s: Suite, half: Half, key: Bytes, digest: Bytes, sig: Bytes) {
    |sig| == SIGNATURE_SIZE &&
    if half == Ed then s.ed.verify(key, digest, [], sig[..ED_SIGNATURE_SIZE])
    else s.dsa.verify(key, digest, DOMAIN, sig[ED_SIGNATURE_SIZE..])
  }

  /** The reply of a responder event that got as far as signing. */
  function ReplyOf(s: Suite, e: Event): Result<Reply>
    requires WellFormed(s, e.id)
  {
    if e.Answer? then Respond(s, e.id, e.pin, e.frame, e.kemEntropy, e.sigEntropy) else Err(InvalidWireFormat)
  }

  /** The digest input an event signs, if it signs. */
  function SignedInput(s: Suite, e: Event): Option<Bytes>
    requires WellFormed(s, e.id)
  {
    match e
    case Greet(id, _) => Some(DigestInput(LABEL_INIT, Marshal(Public(s, id))))
    case Answer(_, _, _, _, _) =>
      (match ReplyOf(s, e)
       case Err(_) => None
       case Ok(r) => Some(DigestInput(LABEL_RESPONSE, s.sha256(TranscriptInput(r.initPub, r.ct)))))
    case Finish(_, _, _) => None
  }

  /** The log holds this digest under this key: an event signed it as the key's holder. */
  ghost predicate Logged(s: Suite, half: Half, key: Bytes, digest: Bytes, e: Event)
    requires WellFormed(s, e.id)
  {
    KeyOf(half, Public(s, e.id)) == key && SignedInput(s, e).Some? && s.sha256(SignedInput(s, e).value) == digest
  }

  // ---------- idealised primitives, as hypotheses about one trace ----------

  /** The digest input an initiator checks the responder's signature against. */
  function CheckedInput(s: Suite, id: Identity, ct: Bytes): Bytes {
    DigestInput(LABEL_RESPONSE, s.sha256(TranscriptInput(Marshal(Public(s, id)), ct)))
  }

  /** The check of event k, under an honest key, accepts only a digest the key's holder signed earlier. */
  ghost predicate UnforgedAt(s: Suite, half: Half, honest: set<Bytes>, trace: Trace, k: nat)
    requires Honest(s, trace) && k < |trace| && trace[k].Finish?
  {
    match ReadClaim(s, trace[k].id, trace[k].frame)
    case Err(_) => true
    case Ok(c) =>
      var key := KeyOf(half, c.remote);
      var digest := s.sha256(CheckedInput(s, trace[k].id, c.ct));
      key in honest && HalfAccepts(s, half, key, digest, c.sig) ==>
        exists j :: 0 <= j < k && Logged(s, half, key, digest, trace[j])
  }

  /** The same for the responder's check of a first message. */
  ghost predicate HelloUnforgedAt(s: Suite, half: Half, honest: set<Bytes>, trace: Trace, k: nat)
    requires Honest(s, trace) && k < |trace| && trace[k].Answer?
  {
    match Codecs.DecodePair(trace[k].frame)
    case Err(_) => true
    case Ok(init) =>
      match Parse(s, init.first)
      case Err(_) => true
      case Ok(remote) =>
        var key := KeyOf(half, remote);
        var digest := s.sha256(DigestInput(LABEL_INIT, init.first));
        key in honest && HalfAccepts(s, half, key, digest, init.second) ==>
          exists j :: 0 <= j < k && Logged(s, half, key, digest, trace[j])
  }

  /** One half is ideal for the honest keys, throughout the trace. */
  ghost predicate Unforged(s: Suite, half: Half, honest: set<Bytes>, trace: Trace)
    requires Honest(s, trace)
  {
    && (forall k: nat :: k < |trace| && trace[k].Finish? ==> UnforgedAt(s, half, honest, trace, k))
    && (forall k: nat :: k < |trace| && trace[k].Answer? ==> HelloUnforgedAt(s, half, honest, trace, k))
  }

  /** Everything an event feeds to SHA-256 as a transcript or a signed digest. */
  function Hashed(s: Suite, e: Event): set<Bytes>
    requires WellFormed(s, e.id)
  {
    match e
    case Greet(id, _) => {DigestInput(LABEL_INIT, Marshal(Public(s, id)))}
    case Answer(_, _, _, _, _) =>
      (match ReplyOf(s, e)
       case Err(_) => {}
       case Ok(r) =>
         {DigestInput(LABEL_INIT, r.initPub),
          TranscriptInput(r.initPub, r.ct),
          DigestInput(LABEL_RESPONSE, s.sha256(TranscriptInput(r.initPub, r.ct)))})
    case Finish(id, _, frame) =>
      (match ReadClaim(s, id, frame)
       case Err(_) => {}
       case Ok(c) => {TranscriptInput(Marshal(Public(s, id)), c.ct), CheckedInput(s, id, c.ct)})
  }

  ghost predicate NoCollisionBetween(s: Suite, e: Event, f: Event)
    requires WellFormed(s, e.id) && WellFormed(s, f.id)
  {
    forall x, y :: x in Hashed(s, e) && y in Hashed(s, f) ==> (s.sha256(x) == s.sha256(y) ==> x == y)
  }

  /** No two inputs hashed in this trace collide. */
  ghost predicate NoCollision(s: Suite, trace: Trace)
    requires Honest(s, trace)
  {
    forall i, j :: 0 <= i < |trace| && 0 <= j < |trace| ==> NoCollisionBetween(s, trace[i], trace[j])
  }

  // ---------- agreement ----------

  /** A responder run that answered exactly this initiator with exactly this ciphertext, and holds this session. */
  ghost predicate Matches(s: Suite, half: Half, id: Identity, ct: Bytes, res: HandshakeResult, e: Event)
    requires WellFormed(s, e.id)
  {
    && e.Answer?
    && KeyOf(half, Public(s, e.id)) == KeyOf(half, res.remote)
    && ReplyOf(s, e).Ok?
    && var r := ReplyOf(s, e).value;
       && r.initPub == Marshal(Public(s, id))
       && r.remote == Public(s, id)
       && r.ct == ct
       && r.shared == res.shared
       && Derive(s, r.shared, LABEL_I2R) == res.keyI2R
       && Derive(s, r.shared, LABEL_R2I) == res.keyR2I
  }

  /** A completed initiator has verified both halves of the responder's signature on its own transcript. */
  lemma ConcludeVerifies(s: Suite, half: Half, id: Identity, pin: Option<PublicIdentity>, frame: Bytes)
    requires Conclude(s, id, pin, frame).Ok?
    ensures var c := ReadClaim(s, id, frame);
            && c.Ok?
            && Conclude(s, id, pin, frame).value == Session(s, c.value.shared, c.value.remote)
            && HalfAccepts(s, half, KeyOf(half, c.value.remote), s.sha256(CheckedInput(s, id, c.value.ct)), c.value.sig)
  {
  }

  /** A logged digest of the response kind can only come from a responder with the same transcript. */
  lemma LoggedIsAnswer(s: Suite, half: Half, key: Bytes, f: Event, ct: Bytes, e: Event)
    requires WellFormed(s, e.id) && WellFormed(s, f.id) && NoCollisionBetween(s, e, f)
    requires f.Finish? && ReadClaim(s, f.id, f.frame).Ok? && ReadClaim(s, f.id, f.frame).value.ct == ct
    requires Logged(s, half, key, s.sha256(CheckedInput(s, f.id, ct)), e)
    ensures e.Answer? && ReplyOf(s, e).Ok?
    ensures ReplyOf(s, e).value.initPub == Marshal(Public(s, f.id)) && ReplyOf(s, e).value.ct == ct
  {
    var id := f.id;
    var idPub := Marshal(Public(s, id));
    var x := SignedInput(s, e).value;
    assert x in Hashed(s, e) && CheckedInput(s, id, ct) in Hashed(s, f);
    assert x == CheckedInput(s, id, ct);
    if e.Greet? {
      RolesSeparated(Marshal(Public(s, e.id)), s.sha256(TranscriptInput(idPub, ct)));
      assert false;
    }
    var r := ReplyOf(s, e).value;
    assert TranscriptInput(r.initPub, r.ct) in Hashed(s, e) && TranscriptInput(idPub, ct) in Hashed(s, f);
    DigestInputInjective(LABEL_RESPONSE, s.sha256(TranscriptInput(r.initPub, r.ct)),
                         LABEL_RESPONSE, s.sha256(TranscriptInput(idPub, ct)));
    AnswerSize(s, e);
    PublicWellSized(s, id);
    MarshalFields(Public(s, id));
    TranscriptInputInjective(r.initPub, r.ct, idPub, ct);
  }

  /** A responder that signed has parsed an identity of the fixed size and encapsulated to its X-Wing key. */
  lemma AnswerSize(s: Suite, e: Event)
    requires WellFormed(s, e.id) && ReplyOf(s, e).Ok?
    ensures var r := ReplyOf(s, e).value;
            && Parse(s, r.initPub) == Ok(r.remote) && |r.initPub| == IDENTITY_SIZE
            && Kem.Encapsulate(s, r.remote.xwing, e.kemEntropy) == Ok(Kem.Encapsulation(r.ct, r.shared))
  {
  }

  /** The same identity bytes and ciphertext give both sides the same secret. */
  lemma SameSecret(s: Suite, id: Identity, e: Event)
    requires WellFormed(s, e.id) && WellFormed(s, id) && ReplyOf(s, e).Ok?
    requires ReplyOf(s, e).value.initPub == Marshal(Public(s, id))
    ensures ReplyOf(s, e).value.remote == Public(s, id)
    ensures Kem.Decapsulate(s, id.xwing, ReplyOf(s, e).value.ct) == Ok(ReplyOf(s, e).value.shared)
  {
    AnswerSize(s, e);
    PublicWellSized(s, id);
    CodecCanonical(s, [], Public(s, id));
    Kem.Agreement(s, id.xwing, e.kemEntropy);
  }

  /** What the matching run of a completed initiator looks like once its log entry is found. */
  lemma MatchFound(s: Suite, half: Half, f: Event, e: Event)
    requires WellFormed(s, e.id) && WellFormed(s, f.id) && NoCollisionBetween(s, e, f)
    requires f.Finish? && Conclude(s, f.id, f.pin, f.frame).Ok?
    requires ReadClaim(s, f.id, f.frame).Ok?
    requires var c := ReadClaim(s, f.id, f.frame).value;
             Logged(s, half, KeyOf(half, c.remote), s.sha256(CheckedInput(s, f.id, c.ct)), e)
    ensures Matches(s, half, f.id, ReadClaim(s, f.id, f.frame).value.ct, Conclude(s, f.id, f.pin, f.frame).value, e)
  {
    var c := ReadClaim(s, f.id, f.frame).value;
    LoggedIsAnswer(s, half, KeyOf(half, c.remote), f, c.ct, e);
    SameSecret(s, f.id, e);
    ClaimSecret(s, f);
  }

  lemma ClaimSecret(s: Suite, f: Event)
    requires f.Finish? && Conclude(s, f.id, f.pin, f.frame).Ok?
    ensures var c := ReadClaim(s, f.id, f.frame);
            && c.Ok? && Kem.Decapsulate(s, f.id.xwing, c.value.ct) == Ok(c.value.shared)
            && Conclude(s, f.id, f.pin, f.frame).value == Session(s, c.value.shared, c.value.remote)
  {
  }

  /**
   In every trace, on any network, with only one of the two schemes ideal: when an
   initiator completes with a peer whose key in that scheme is honest, an earlier
   responder run by a holder of that key signed exactly this initiator's identity and
   this ciphertext, and derived the same secret and both channel keys.
   */
  lemma InitiatorAgreement(s: Suite, half: Half, honest: set<Bytes>, trace: Trace, k: nat)
    requires Honest(s, trace) && Unforged(s, half, honest, trace) && NoCollision(s, trace)
    requires k < |trace| && trace[k].Finish?
    requires Conclude(s, trace[k].id, trace[k].pin, trace[k].frame).Ok?
    requires KeyOf(half, Conclude(s, trace[k].id, trace[k].pin, trace[k].frame).value.remote) in honest
    ensures var res := Conclude(s, trace[k].id, trace[k].pin, trace[k].frame).value;
            var ct := ReadClaim(s, trace[k].id, trace[k].frame).value.ct;
            exists j :: 0 <= j < k && Matches(s, half, trace[k].id, ct, res, trace[j])
  {
    var f := trace[k];
    ConcludeVerifies(s, half, f.id, f.pin, f.frame);
    var c := ReadClaim(s, f.id, f.frame).value;
    assert UnforgedAt(s, half, honest, trace, k);
    var j :| 0 <= j < k && Logged(s, half, KeyOf(half, c.remote), s.sha256(CheckedInput(s, f.id, c.ct)), trace[j]);
    assert NoCollisionBetween(s, trace[j], f);
    MatchFound(s, half, f, trace[j]);
  }

  /** A responder that signed has verified both halves of the initiator's signature on the identity it parsed. */
  lemma RespondVerifies(s: Suite, half: Half, e: Event)
    requires WellFormed(s, e.id) && ReplyOf(s, e).Ok?
    ensures var r := ReplyOf(s, e).value;
            && Codecs.DecodePair(e.frame).Ok?
            && Codecs.DecodePair(e.frame).value.first == r.initPub
            && Parse(s, r.initPub) == Ok(r.remote)
            && HalfAccepts(s, half, KeyOf(half, r.remote), s.sha256(DigestInput(LABEL_INIT, r.initPub)),
                           Codecs.DecodePair(e.frame).value.second)
  {
  }

  /** A logged digest of the init kind can only come from an initiator with the same identity bytes. */
  lemma LoggedIsGreeting(s: Suite, half: Half, key: Bytes, f: Event, e: Event)
    requires WellFormed(s, e.id) && WellFormed(s, f.id) && NoCollisionBetween(s, e, f)
    requires ReplyOf(s, f).Ok?
    requires Logged(s, half, key, s.sha256(DigestInput(LABEL_INIT, ReplyOf(s, f).value.initPub)), e)
    ensures e.Greet? && Marshal(Public(s, e.id)) == ReplyOf(s, f).value.initPub
  {
    var r := ReplyOf(s, f).value;
    var x := SignedInput(s, e).value;
    assert x in Hashed(s, e) && DigestInput(LABEL_INIT, r.initPub) in Hashed(s, f);
    assert x == DigestInput(LABEL_INIT, r.initPub);
    if e.Answer? {
      var q := ReplyOf(s, e).value;
      RolesSeparated(r.initPub, s.sha256(TranscriptInput(q.initPub, q.ct)));
      assert false;
    }
    DigestInputInjective(LABEL_INIT, Marshal(Public(s, e.id)), LABEL_INIT, r.initPub);
  }

  /**
   The other direction, under the same hypotheses: when a responder answers an initiator
   whose key in the ideal scheme is honest, the holder of exactly that identity, X-Wing
   key included, has greeted before, and its key opens this ciphertext to this secret.
   */
  lemma ResponderAgreement(s: Suite, half: Half, honest: set<Bytes>, trace: Trace, k: nat)
    requires Honest(s, trace) && Unforged(s, half, honest, trace) && NoCollision(s, trace)
    requires k < |trace| && trace[k].Answer? && ReplyOf(s, trace[k]).Ok?
    requires KeyOf(half, ReplyOf(s, trace[k]).value.remote) in honest
    ensures var r := ReplyOf(s, trace[k]).value;
            exists j :: 0 <= j < k && trace[j].Greet?
                     && Public(s, trace[j].id) == r.remote
                     && Kem.Decapsulate(s, trace[j].id.xwing, r.ct) == Ok(r.shared)
  {
    var f := trace[k];
    var r := ReplyOf(s, f).value;
    RespondVerifies(s, half, f);
    assert HelloUnforgedAt(s, half, honest, trace, k);
    var j :| 0 <= j < k && Logged(s, half, KeyOf(half, r.remote), s.sha256(DigestInput(LABEL_INIT, r.initPub)), trace[j]);
    assert NoCollisionBetween(s, trace[j], f);
    LoggedIsGreeting(s, half, KeyOf(half, r.remote), f, trace[j]);
    SameSecret(s, trace[j].id, f);
  }

  // ---------- the hypothesis on signatures holds of honest traces ----------

  /** One undisturbed handshake: greeting, answer to it, and the end on that answer. */
  ghost predicate Undisturbed(s: Suite, trace: Trace, i: Identity, hello: Bytes)
    requires Honest(s, trace)
  {
    && |trace| == 3
    && trace[0] == Greet(i, hello)
    && trace[1].Answer? && trace[1].pin == None && trace[1].frame == Hello(s, i, hello)
    && ReplyOf(s, trace[1]).Ok?
    && trace[2] == Finish(i, None, ReplyOf(s, trace[1]).value.message)
  }

  lemma Places(trace: Trace, k: nat)
    requires |trace| == 3 && trace[0].Greet? && trace[1].Answer? && trace[2].Finish? && k < 3
    ensures trace[k].Answer? <==> k == 1
    ensures trace[k].Finish? <==> k == 2
  {
  }

  /** The responder's check is of what the greeting signed. */
  lemma GreetingLogged(s: Suite, half: Half, i: Identity, hello: Bytes)
    requires WellFormed(s, i)
    ensures var init := Codecs.Pair(Marshal(Public(s, i)), Sign(s, i, LABEL_INIT, Marshal(Public(s, i)), hello));
            && Codecs.DecodePair(Hello(s, i, hello)) == Ok(init)
            && Parse(s, init.first) == Ok(Public(s, i))
            && Logged(s, half, KeyOf(half, Public(s, i)), s.sha256(DigestInput(LABEL_INIT, init.first)), Greet(i, hello))
  {
    var pub := Public(s, i);
    PublicWellSized(s, i);
    MarshalFields(pub);
    SignVerifies(s, i, LABEL_INIT, Marshal(pub), hello);
    Codecs.PairCodecCanonical([], Codecs.Pair(Marshal(pub), Sign(s, i, LABEL_INIT, Marshal(pub), hello)));
    CodecCanonical(s, [], pub);
  }

  lemma HelloFine(s: Suite, half: Half, honest: set<Bytes>, trace: Trace, i: Identity, hello: Bytes)
    requires Honest(s, trace) && Undisturbed(s, trace, i, hello)
    ensures HelloUnforgedAt(s, half, honest, trace, 1)
  {
    assert WellFormed(s, trace[0].id);
    GreetingLogged(s, half, i, hello);
  }

  /** What the answer to an honest greeting is made of. */
  lemma AnswerToGreeting(s: Suite, i: Identity, e: Event, hello: Bytes)
    requires WellFormed(s, i) && WellFormed(s, e.id) && e.Answer? && e.frame == Hello(s, i, hello)
    requires ReplyOf(s, e).Ok?
    ensures var r := ReplyOf(s, e).value;
            && r.initPub == Marshal(Public(s, i))
            && Kem.Encapsulate(s, Public(s, i).xwing, e.kemEntropy) == Ok(Kem.Encapsulation(r.ct, r.shared))
            && |r.ct| == Codecs.CIPHERTEXT_SIZE
            && r.message == ReplyMessage(s, e.id, r.initPub, Kem.Encapsulation(r.ct, r.shared), e.sigEntropy)
  {
    GreetingLogged(s, Ed, i, hello);
    Kem.EncapsulationSize(s, Public(s, i).xwing, e.kemEntropy);
  }

  /** The initiator's check is of what the answer signed. */
  lemma AnswerLogged(s: Suite, half: Half, i: Identity, e: Event, hello: Bytes)
    requires WellFormed(s, i) && WellFormed(s, e.id) && e.Answer? && e.frame == Hello(s, i, hello)
    requires ReplyOf(s, e).Ok?
    ensures var c := ReadClaim(s, i, ReplyOf(s, e).value.message);
            && c.Ok?
            && Logged(s, half, KeyOf(half, c.value.remote), s.sha256(CheckedInput(s, i, c.value.ct)), e)
  {
    AnswerToGreeting(s, i, e, hello);
    HonestClaim(s, i, e.id, ReplyOf(s, e).value.initPub, e.kemEntropy, e.sigEntropy);
  }

  /** The end on the answer to one's own greeting succeeds. */
  lemma AnswerConcluded(s: Suite, i: Identity, e: Event, hello: Bytes)
    requires WellFormed(s, i) && WellFormed(s, e.id) && e.Answer? && e.frame == Hello(s, i, hello)
    requires ReplyOf(s, e).Ok?
    ensures Conclude(s, i, None, ReplyOf(s, e).value.message).Ok?
  {
    AnswerToGreeting(s, i, e, hello);
    HonestConclusion(s, i, e.id, None, e.kemEntropy, e.sigEntropy);
  }

  lemma ReplyFine(s: Suite, half: Half, honest: set<Bytes>, trace: Trace, i: Identity, hello: Bytes)
    requires Honest(s, trace) && Undisturbed(s, trace, i, hello)
    ensures UnforgedAt(s, half, honest, trace, 2)
  {
    assert WellFormed(s, trace[0].id);
    AnswerLogged(s, half, i, trace[1], hello);
  }

  /** Every undisturbed handshake meets the hypothesis on signatures, whatever keys count as honest. */
  lemma UndisturbedUnforged(s: Suite, half: Half, honest: set<Bytes>, trace: Trace, i: Identity, hello: Bytes)
    requires Honest(s, trace) && Undisturbed(s, trace, i, hello)
    ensures Unforged(s, half, honest, trace)
  {
    forall k: nat | k < |trace| && trace[k].Finish? ensures UnforgedAt(s, half, honest, trace, k) {
      Places(trace, k);
      ReplyFine(s, half, honest, trace, i, hello);
    }
    forall k: nat | k < |trace| && trace[k].Answer? ensures HelloUnforgedAt(s, half, honest, trace, k) {
      Places(trace, k);
      HelloFine(s, half, honest, trace, i, hello);
    }
  }

  // ---------- pins ----------

  lemma ClaimParsed(s: Suite, f: Event)
    requires f.Finish? && ReadClaim(s, f.id, f.frame).Ok?
    ensures WellSized(ReadClaim(s, f.id, f.frame).value.remote)
  {
    var c := ReadClaim(s, f.id, f.frame).value;
    var resp := Codecs.DecodeResponse(f.frame).value;
    var key := Derive(s, c.shared, LABEL_RESP_ID);
    var plaintext := s.aead.open(key, HandshakeNonce(NONCE_LABEL), resp.second, resp.first).value;
    CodecCanonical(s, Codecs.DecodePair(plaintext).value.first, c.remote);
  }

  /** A pinned initiator that completes names exactly the pinned identity, X-Wing key included; so does a pinned responder. */
  lemma PinHolds(s: Suite, e: Event, p: PublicIdentity)
    requires WellFormed(s, e.id) && WellSized(p) && !e.Greet? && e.pin == Some(p)
    ensures e.Finish? && Conclude(s, e.id, e.pin, e.frame).Ok? ==> Conclude(s, e.id, e.pin, e.frame).value.remote == p
    ensures e.Answer? && ReplyOf(s, e).Ok? ==> ReplyOf(s, e).value.remote == p
  {
    if e.Finish? && Conclude(s, e.id, e.pin, e.frame).Ok? {
      var remote := ReadClaim(s, e.id, e.frame).value.remote;
      ClaimParsed(s, e);
      EqualIsByteEquality(remote, p);
    }
    if e.Answer? && ReplyOf(s, e).Ok? {
      var r := ReplyOf(s, e).value;
      AnswerSize(s, e);
      CodecCanonical(s, r.initPub, r.remote);
      EqualIsByteEquality(r.remote, p);
    }
  }
}
