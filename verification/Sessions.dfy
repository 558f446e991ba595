/**
 Whole sessions on a hostile network: two endpoints, any sequence of Write and Read
 calls, writes that may fail half-way, and reads fed with whatever bytes the
 network chooses.  A log records every seal, the handshake's included.
 */
module Sessions {
  import opened ByteStrings
  import opened Primitives
  import opened Wire
  import opened Records
  import Handshake
  import Identities
  import Kem
  import Codecs

  /** One call of the AEAD's seal. */
  datatype Entry = Entry(key: Bytes, nonce: Bytes, aad: Bytes, plain: Bytes, cipher: Bytes)

  type Counter = n: nat | n <= MAX_SEQ

  /** A Conn, with what it has sealed and what its Reads have returned so far. */
  datatype Endpoint = Endpoint(txKey: Bytes, rxKey: Bytes, writeSeq: Counter, reader: Reader,
                               sealed: seq<Bytes>, delivered: Bytes)

  datatype Side = Left | Right

  datatype World = World(left: Endpoint, right: Endpoint, log: seq<Entry>)
  {
    function At(side: Side): Endpoint {
      if side == Left then left else right
    }

    function With(side: Side, e: Endpoint): World {
      if side == Left then this.(left := e) else this.(right := e)
    }
  }

  function Other(side: Side): Side {
    if side == Left then Right else Left
  }

  /** A call of Write with its data and the transport's behaviour, or of Read with the bytes the network presents. */
  datatype Event = Write(side: Side, data: Bytes, plan: seq<Outcome>) | Read(side: Side, incoming: Bytes, cap: nat)

  /** The log entries of consecutive records. */
  function Entries(a: Aead, key: Bytes, n: nat, ps: seq<Bytes>): (r: seq<Entry>)
    ensures |r| == |ps|
  {
    seq(|ps|, i requires 0 <= i < |ps| => Entry(key, NonceFor(n + i), [], ps[i], Seal(a, key, n + i, ps[i])))
  }

  function AfterWrite(a: Aead, w: World, side: Side, data: Bytes, plan: seq<Outcome>): World {
    var p := w.At(side);
    var r := Send(a, p.txKey, p.writeSeq, plan, data);
    WriteAccounting(a, p.txKey, p.writeSeq, plan, data);
    w.With(side, p.(writeSeq := r.n, sealed := p.sealed + r.sealed))
    .(log := w.log + Entries(a, p.txKey, p.writeSeq, r.sealed))
  }

  function AfterRead(a: Aead, w: World, side: Side, incoming: Bytes, cap: nat): World {
    var p := w.At(side);
    var d := ReadStep(a, p.rxKey, p.reader, incoming, cap);
    var got := if d.result.Ok? then d.result.value else [];
    w.With(side, p.(reader := d.reader, delivered := p.delivered + got))
  }

  function Step(a: Aead, w: World, e: Event): World {
    match e
    case Write(side, data, plan) => AfterWrite(a, w, side, data, plan)
    case Read(side, incoming, cap) => AfterRead(a, w, side, incoming, cap)
  }

  function Run(a: Aead, w: World, es: seq<Event>): World {
    if es == [] then w else Step(a, Run(a, w, es[..|es| - 1]), es[|es| - 1])
  }

  /** Two fresh connections with mirrored keys, after a handshake that sealed `hs`. */
  function Start(keyI2R: Bytes, keyR2I: Bytes, hs: Entry): World {
    World(Endpoint(keyI2R, keyR2I, 0, Reader(0, []), [], []),
          Endpoint(keyR2I, keyI2R, 0, Reader(0, []), [], []),
          [hs])
  }

  /** The entry is the very call of the AEAD it names. */
  ghost predicate IsSeal(a: Aead, e: Entry) {
    e.cipher == a.seal(e.key, e.nonce, e.plain, e.aad)
  }

  ghost predicate AllSeals(a: Aead, log: seq<Entry>) {
    forall j :: 0 <= j < |log| ==> IsSeal(a, log[j])
  }

  /** The handshake's one seal is made under the handshake nonce. */
  ghost predicate HandshakeEntry(a: Aead, hs: Entry) {
    hs.nonce == Handshake.HandshakeNonce(Handshake.NONCE_LABEL) && IsSeal(a, hs)
  }

  /** The seal of a responder's identity and signature. */
  function HandshakeSeal(s: Suite, id: Identities.Identity, initPub: Bytes, enc: Kem.Encapsulation, sigEntropy: Bytes): Entry
    requires Identities.WellFormed(s, id)
  {
    var key := Handshake.Derive(s, enc.shared, Handshake.LABEL_RESP_ID);
    var nonce := Handshake.HandshakeNonce(Handshake.NONCE_LABEL);
    var plain := Codecs.EncodePair(Handshake.ReplyPayload(s, id, initPub, enc.ct, sigEntropy));
    Entry(key, nonce, enc.ct, plain, s.aead.seal(key, nonce, plain, enc.ct))
  }

  /** That seal is what the responder's message carries after the ciphertext. */
  lemma ReplyCarriesSeal(s: Suite, id: Identities.Identity, initPub: Bytes, enc: Kem.Encapsulation, sigEntropy: Bytes)
    requires Identities.WellFormed(s, id) && |enc.ct| == Codecs.CIPHERTEXT_SIZE
    ensures var hs := HandshakeSeal(s, id, initPub, enc, sigEntropy);
            && HandshakeEntry(s.aead, hs)
            && Codecs.ResponseFits(Codecs.Pair(enc.ct, hs.cipher))
            && Handshake.ReplyMessage(s, id, initPub, enc, sigEntropy) == Codecs.EncodeResponse(Codecs.Pair(enc.ct, hs.cipher))
  {
    var hs := HandshakeSeal(s, id, initPub, enc, sigEntropy);
    assert |hs.cipher| == |hs.plain| + TAG_SIZE;
  }

  /** The log entries of a call are true, and what the call puts on the wire are their ciphertexts, framed. */
  lemma WriteIsLogged(a: Aead, w: World, side: Side, data: Bytes, plan: seq<Outcome>)
    ensures var p := w.At(side);
            var r := Send(a, p.txKey, p.writeSeq, plan, data);
            var more := Entries(a, p.txKey, p.writeSeq, r.sealed);
            && AfterWrite(a, w, side, data, plan).log == w.log + more
            && AllSeals(a, more)
            && r.bytes <= FrameAll(Ciphers(more))
            && (r.err != Some(Transport) ==> r.bytes == FrameAll(Ciphers(more)))
  {
    var p := w.At(side);
    var r := Send(a, p.txKey, p.writeSeq, plan, data);
    WriteAccounting(a, p.txKey, p.writeSeq, plan, data);
    EntriesAreSeals(a, p.txKey, p.writeSeq, r.sealed);
  }

  function Ciphers(es: seq<Entry>): (cs: seq<Bytes>)
    ensures |cs| == |es|
  {
    seq(|es|, i requires 0 <= i < |es| => es[i].cipher)
  }

  lemma EntriesAreSeals(a: Aead, key: Bytes, n: nat, ps: seq<Bytes>)
    ensures AllSeals(a, Entries(a, key, n, ps))
    ensures Ciphers(Entries(a, key, n, ps)) == SealAll(a, key, n, ps)
  {
    forall i | 0 <= i < |ps| ensures IsSeal(a, Entries(a, key, n, ps)[i]) && Entries(a, key, n, ps)[i].cipher == SealAll(a, key, n, ps)[i] {
      SealAllAt(a, key, n, ps, i);
    }
  }

  // ---------- idealised AEAD ----------

  /** The record a Read hands to the AEAD, if it gets that far. */
  function Presented(w: World, e: Event): Option<Bytes> {
    if e.Read? && w.At(e.side).reader.buf == [] && w.At(e.side).reader.n != MAX_SEQ && TakeFrame(e.incoming).result.Ok?
    then Some(TakeFrame(e.incoming).result.value)
    else None
  }

  /** If the AEAD opens it, then that very ciphertext was sealed under that key and nonce before. */
  ghost predicate Genuine(a: Aead, w: World, e: Event) {
    var c := Presented(w, e);
    c.Some? ==>
      var p := w.At(e.side);
      Open(a, p.rxKey, p.reader.n, c.value).Some? ==>
        exists j :: 0 <= j < |w.log| && w.log[j].key == p.rxKey && w.log[j].nonce == NonceFor(p.reader.n)
                 && w.log[j].aad == [] && w.log[j].cipher == c.value
  }

  /** No Read of the run accepts a forgery. */
  ghost predicate NoForgery(a: Aead, w: World, es: seq<Event>) {
    forall i :: 0 <= i < |es| ==> Genuine(a, Run(a, w, es[..i]), es[i])
  }

  // ---------- what every run keeps ----------

  /** Every record in the log under an endpoint's sending key is one it sealed, at its own position. */
  ghost predicate LogOwned(a: Aead, p: Endpoint, log: seq<Entry>) {
    && p.writeSeq == |p.sealed|
    && forall j, n: Counter :: 0 <= j < |log| && log[j].key == p.txKey && log[j].nonce == NonceFor(n) ==>
         n < |p.sealed| && log[j].cipher == Seal(a, p.txKey, n, p.sealed[n])
  }

  /** What a reader has delivered or buffered is what its counter has passed. */
  ghost predicate Delivered(writer: Endpoint, reader: Endpoint) {
    && reader.reader.n <= |writer.sealed|
    && reader.delivered + reader.reader.buf == Concat(writer.sealed[..reader.reader.n])
  }

  ghost predicate Inv(a: Aead, w: World) {
    && w.left.txKey == w.right.rxKey && w.right.txKey == w.left.rxKey && w.left.txKey != w.right.txKey
    && LogOwned(a, w.left, w.log) && LogOwned(a, w.right, w.log)
    && Delivered(w.left, w.right) && Delivered(w.right, w.left)
  }

  lemma HandshakeNonceApart(n: nat)
    ensures Handshake.HandshakeNonce(Handshake.NONCE_LABEL) != NonceFor(n)
  {
    assert Handshake.HandshakeNonce(Handshake.NONCE_LABEL)[0] == Handshake.NONCE_LABEL[0] == 'z' as int % 256;
    assert NonceFor(n)[0] == 0;
  }

  lemma InvStart(a: Aead, keyI2R: Bytes, keyR2I: Bytes, hs: Entry)
    requires keyI2R != keyR2I && HandshakeEntry(a, hs)
    ensures Inv(a, Start(keyI2R, keyR2I, hs))
  {
    forall n: nat ensures hs.nonce != NonceFor(n) { HandshakeNonceApart(n); }
  }

  /** Entries of one call, seen from the endpoint that made it. */
  lemma OwnEntries(a: Aead, p: Endpoint, log: seq<Entry>, ps: seq<Bytes>, q: Endpoint)
    requires LogOwned(a, p, log)
    requires q.txKey == p.txKey && q.sealed == p.sealed + ps && q.writeSeq == |q.sealed|
    ensures LogOwned(a, q, log + Entries(a, p.txKey, p.writeSeq, ps))
  {
    var more := Entries(a, p.txKey, p.writeSeq, ps);
    var all := log + more;
    forall j, n: Counter | 0 <= j < |all| && all[j].key == q.txKey && all[j].nonce == NonceFor(n)
      ensures n < |q.sealed| && all[j].cipher == Seal(a, q.txKey, n, q.sealed[n])
    {
      if j >= |log| {
        var i := j - |log|;
        assert all[j] == more[i];
        NonceInjective(n, p.writeSeq + i);
      }
    }
  }

  lemma OtherEntries(a: Aead, p: Endpoint, log: seq<Entry>, key: Bytes, n: nat, ps: seq<Bytes>)
    requires LogOwned(a, p, log) && key != p.txKey
    ensures LogOwned(a, p, log + Entries(a, key, n, ps))
  {
  }

  lemma DeliveredStays(writer: Endpoint, reader: Endpoint, ps: seq<Bytes>, writer': Endpoint)
    requires Delivered(writer, reader) && writer'.sealed == writer.sealed + ps
    ensures Delivered(writer', reader)
  {
    assert (writer.sealed + ps)[..reader.reader.n] == writer.sealed[..reader.reader.n];
  }

  /** Sealing more plaintexts at the writer's own counter. */
  lemma InvSeal(a: Aead, w: World, side: Side, ps: seq<Bytes>, n: Counter, w': World)
    requires Inv(a, w) && n == w.At(side).writeSeq + |ps|
    requires w' == w.With(side, w.At(side).(writeSeq := n, sealed := w.At(side).sealed + ps))
                   .(log := w.log + Entries(a, w.At(side).txKey, w.At(side).writeSeq, ps))
    ensures Inv(a, w')
  {
    var p, o := w.At(side), w.At(Other(side));
    OwnEntries(a, p, w.log, ps, w'.At(side));
    OtherEntries(a, o, w.log, p.txKey, p.writeSeq, ps);
    DeliveredStays(p, o, ps, w'.At(side));
  }

  lemma InvWrite(a: Aead, w: World, side: Side, data: Bytes, plan: seq<Outcome>)
    requires Inv(a, w)
    ensures Inv(a, AfterWrite(a, w, side, data, plan))
  {
    var p := w.At(side);
    var r := Send(a, p.txKey, p.writeSeq, plan, data);
    WriteAccounting(a, p.txKey, p.writeSeq, plan, data);
    InvSeal(a, w, side, r.sealed, r.n, AfterWrite(a, w, side, data, plan));
  }

  /** The heart of the matter: a record that opens can only be the one the counter is waiting for. */
  lemma OpensOnlyTheNext(a: Aead, w: World, side: Side, incoming: Bytes, cap: nat)
    requires Inv(a, w) && Genuine(a, w, Read(side, incoming, cap))
    requires w.At(side).reader.buf == []
    requires Receive(a, w.At(side).rxKey, w.At(side).reader.n, incoming).result.Ok?
    ensures var p, o := w.At(side), w.At(Other(side));
            var got := Receive(a, p.rxKey, p.reader.n, incoming);
            p.reader.n < |o.sealed| && got.result.value == o.sealed[p.reader.n] && got.n == p.reader.n + 1
  {
    var p, o := w.At(side), w.At(Other(side));
    assert Presented(w, Read(side, incoming, cap)).Some?;
    OpenSeal(a, p.rxKey, p.reader.n, o.sealed[p.reader.n]);
  }

  /** Handing over buffered bytes, or a part of the next record. */
  lemma DeliverMore(writer: Endpoint, p: Endpoint, got: Bytes, reader: Reader)
    requires Delivered(writer, p)
    requires || (reader.n == p.reader.n && got + reader.buf == p.reader.buf)
             || (p.reader.buf == [] && p.reader.n < |writer.sealed| && reader.n == p.reader.n + 1
                 && got + reader.buf == writer.sealed[p.reader.n])
    ensures Delivered(writer, p.(reader := reader, delivered := p.delivered + got))
  {
    var n := p.reader.n;
    Assoc(p.delivered, got, reader.buf);
    if reader.n != n {
      ConcatSnoc(writer.sealed[..n], writer.sealed[n]);
      assert writer.sealed[..n + 1] == writer.sealed[..n] + [writer.sealed[n]];
    }
  }

  lemma ReadDelivers(a: Aead, w: World, side: Side, incoming: Bytes, cap: nat)
    requires Inv(a, w) && Genuine(a, w, Read(side, incoming, cap))
    ensures Delivered(w.At(Other(side)), AfterRead(a, w, side, incoming, cap).At(side))
  {
    var p, o := w.At(side), w.At(Other(side));
    var d := ReadStep(a, p.rxKey, p.reader, incoming, cap);
    var got := if d.result.Ok? then d.result.value else [];
    ReadSplits(a, p.rxKey, p.reader, incoming, cap);
    if d.result.Ok? && p.reader.buf == [] {
      OpensOnlyTheNext(a, w, side, incoming, cap);
    }
    DeliverMore(o, p, got, d.reader);
  }

  lemma InvRead(a: Aead, w: World, side: Side, incoming: Bytes, cap: nat)
    requires Inv(a, w) && Genuine(a, w, Read(side, incoming, cap))
    ensures Inv(a, AfterRead(a, w, side, incoming, cap))
  {
    ReadDelivers(a, w, side, incoming, cap);
  }

  lemma {:induction false} InvRun(a: Aead, w: World, es: seq<Event>)
    requires Inv(a, w) && NoForgery(a, w, es)
    ensures Inv(a, Run(a, w, es))
  {
    if es != [] {
      var front, e := es[..|es| - 1], es[|es| - 1];
      forall i | 0 <= i < |front| ensures Genuine(a, Run(a, w, front[..i]), front[i]) {
        assert front[..i] == es[..i];
      }
      InvRun(a, w, front);
      assert Genuine(a, Run(a, w, es[..|es| - 1]), e);
      match e
      case Write(side, data, plan) => InvWrite(a, Run(a, w, front), side, data, plan);
      case Read(side, incoming, cap) => InvRead(a, Run(a, w, front), side, incoming, cap);
    }
  }

  // ---------- prefix safety ----------

  /** Each side has read a prefix of what the other side sealed. */
  ghost predicate Safe(w: World) {
    w.right.delivered <= Concat(w.left.sealed) && w.left.delivered <= Concat(w.right.sealed)
  }

  lemma DeliveredIsPrefix(writer: Endpoint, reader: Endpoint)
    requires Delivered(writer, reader)
    ensures reader.delivered <= Concat(writer.sealed)
  {
    var n := reader.reader.n;
    ConcatAppend(writer.sealed[..n], writer.sealed[n..]);
    assert writer.sealed == writer.sealed[..n] + writer.sealed[n..];
  }

  /** On any network, with any failures: reads return a prefix of what the peer's writes sealed. */
  lemma PrefixSafety(a: Aead, keyI2R: Bytes, keyR2I: Bytes, hs: Entry, es: seq<Event>)
    requires keyI2R != keyR2I && HandshakeEntry(a, hs)
    requires NoForgery(a, Start(keyI2R, keyR2I, hs), es)
    ensures Safe(Run(a, Start(keyI2R, keyR2I, hs), es))
  {
    InvStart(a, keyI2R, keyR2I, hs);
    InvRun(a, Start(keyI2R, keyR2I, hs), es);
    var w := Run(a, Start(keyI2R, keyR2I, hs), es);
    DeliveredIsPrefix(w.left, w.right);
    DeliveredIsPrefix(w.right, w.left);
  }

  /** With one key for both directions the network can hand a side its own record back. */
  lemma Reflection(a: Aead, key: Bytes, hs: Entry)
    ensures var c := Seal(a, key, 0, [7]);
            var es := [Write(Left, [7], []), Read(Left, Frame(c), 1)];
            NoForgery(a, Start(key, key, hs), es) && !Safe(Run(a, Start(key, key, hs), es))
  {
    var c := Seal(a, key, 0, [7]);
    var write, read := Write(Left, [7], []), Read(Left, Frame(c), 1);
    var es := [write, read];
    var w0 := Start(key, key, hs);
    var w1 := OneWrite(a, w0, Left);
    assert es[..1] == [write] && es[..0] == [] && [write][..0] == [];
    assert Run(a, w0, [write]) == w1;
    TakeFrameExact(Frame(c), c, []);
    OpenSeal(a, key, 0, [7]);
    assert w1.log[1].cipher == c;
    assert Genuine(a, w1, read);
    assert Run(a, w0, es) == Step(a, w1, read);
    assert Run(a, w0, es).left.delivered == [7];
    assert Concat(Run(a, w0, es).right.sealed) == [];
  }

  /** The first write of one byte by a fresh endpoint. */
  lemma OneWrite(a: Aead, w: World, side: Side) returns (w': World)
    requires w.At(side).writeSeq == 0 && w.At(side).sealed == []
    ensures w' == Step(a, w, Write(side, [7], []))
    ensures var p := w.At(side);
            w' == w.With(side, p.(writeSeq := 1, sealed := [[7]]))
                  .(log := w.log + [Entry(p.txKey, NonceFor(0), [], [7], Seal(a, p.txKey, 0, [7]))])
  {
    var p := w.At(side);
    w' := Step(a, w, Write(side, [7], []));
    var r := Send(a, p.txKey, 0, [], [7]);
    EmitFramePrefix(Seal(a, p.txKey, 0, [7]), []);
    var b: Bytes := [7];
    assert b[..1] == b && b[1..] == [];
    assert r.sealed == [[7]] && r.n == 1;
    assert Entries(a, p.txKey, 0, [[7]]) == [Entry(p.txKey, NonceFor(0), [], [7], Seal(a, p.txKey, 0, [7]))];
  }

  ghost predicate AlwaysSafe(a: Aead, keyI2R: Bytes, keyR2I: Bytes, hs: Entry) {
    forall es :: NoForgery(a, Start(keyI2R, keyR2I, hs), es) ==> Safe(Run(a, Start(keyI2R, keyR2I, hs), es))
  }

  /** Prefix safety holds of every run exactly when the two directions have different keys. */
  lemma PrefixSafetyExact(a: Aead, keyI2R: Bytes, keyR2I: Bytes, hs: Entry)
    requires HandshakeEntry(a, hs)
    ensures AlwaysSafe(a, keyI2R, keyR2I, hs) <==> keyI2R != keyR2I
  {
    if keyI2R == keyR2I {
      Reflection(a, keyI2R, hs);
    } else {
      forall es | NoForgery(a, Start(keyI2R, keyR2I, hs), es)
        ensures Safe(Run(a, Start(keyI2R, keyR2I, hs), es))
      {
        PrefixSafety(a, keyI2R, keyR2I, hs, es);
      }
    }
  }

  // ---------- nonce freshness ----------

  /** No key and nonce are used for two seals. */
  ghost predicate Fresh(log: seq<Entry>) {
    forall i, j :: 0 <= i < j < |log| ==> log[i].key != log[j].key || log[i].nonce != log[j].nonce
  }

  /** Every entry after the handshake's is a record of one side, at a counter that side has passed. */
  ghost predicate Numbered(w: World, e: Entry) {
    exists side: Side, n: Counter ::
      e.key == w.At(side).txKey && n < w.At(side).writeSeq && e.nonce == NonceFor(n)
  }

  ghost predicate NonceInv(a: Aead, w: World) {
    && w.left.txKey != w.right.txKey
    && |w.log| >= 1 && HandshakeEntry(a, w.log[0])
    && AllSeals(a, w.log)
    && (forall j :: 1 <= j < |w.log| ==> Numbered(w, w.log[j]))
    && Fresh(w.log)
  }

  lemma NumberedStays(w: World, w': World)
    requires w'.left.txKey == w.left.txKey && w'.left.writeSeq >= w.left.writeSeq
    requires w'.right.txKey == w.right.txKey && w'.right.writeSeq >= w.right.writeSeq
    ensures forall e :: Numbered(w, e) ==> Numbered(w', e)
  {
    forall e | Numbered(w, e) ensures Numbered(w', e) {
      var s: Side, n: Counter :| e.key == w.At(s).txKey && n < w.At(s).writeSeq && e.nonce == NonceFor(n);
      assert e.key == w'.At(s).txKey && n < w'.At(s).writeSeq;
    }
  }

  lemma NumberedNew(a: Aead, w: World, side: Side, n: nat, ps: seq<Bytes>)
    requires n + |ps| <= w.At(side).writeSeq
    ensures forall e :: e in Entries(a, w.At(side).txKey, n, ps) ==> Numbered(w, e)
  {
    var more := Entries(a, w.At(side).txKey, n, ps);
    forall k | 0 <= k < |more| ensures Numbered(w, more[k]) {
      var m: Counter := n + k;
      assert more[k].key == w.At(side).txKey && m < w.At(side).writeSeq && more[k].nonce == NonceFor(m);
    }
  }

  lemma NonceInvWrite(a: Aead, w: World, side: Side, data: Bytes, plan: seq<Outcome>)
    requires NonceInv(a, w)
    ensures NonceInv(a, AfterWrite(a, w, side, data, plan))
  {
    var p := w.At(side);
    var r := Send(a, p.txKey, p.writeSeq, plan, data);
    WriteAccounting(a, p.txKey, p.writeSeq, plan, data);
    var more := Entries(a, p.txKey, p.writeSeq, r.sealed);
    var w' := AfterWrite(a, w, side, data, plan);
    NumberedStays(w, w');
    NumberedNew(a, w', side, p.writeSeq, r.sealed);
    FreshAppend(a, w, side, r.sealed);
    EntriesAreSeals(a, p.txKey, p.writeSeq, r.sealed);
  }

  lemma FreshAppend(a: Aead, w: World, side: Side, ps: seq<Bytes>)
    requires NonceInv(a, w) && w.At(side).writeSeq + |ps| <= MAX_SEQ
    ensures Fresh(w.log + Entries(a, w.At(side).txKey, w.At(side).writeSeq, ps))
  {
    var more := Entries(a, w.At(side).txKey, w.At(side).writeSeq, ps);
    var all := w.log + more;
    forall i, j | 0 <= i < j < |all| ensures all[i].key != all[j].key || all[i].nonce != all[j].nonce {
      if j >= |w.log| {
        FreshAgainst(w, side, more, i, j - |w.log|, a, ps);
      }
    }
  }

  /** A new record never meets an older entry, nor an earlier record of its own call. */
  lemma FreshAgainst(w: World, side: Side, more: seq<Entry>, i: nat, k: nat, a: Aead, ps: seq<Bytes>)
    requires NonceInv(a, w) && more == Entries(a, w.At(side).txKey, w.At(side).writeSeq, ps)
    requires w.At(side).writeSeq + |ps| <= MAX_SEQ && k < |more| && i < |w.log| + k
    ensures var x := (w.log + more)[i]; x.key != more[k].key || x.nonce != more[k].nonce
  {
    var n := w.At(side).writeSeq + k;
    var x := (w.log + more)[i];
    if x.nonce == more[k].nonce && x.key == more[k].key {
      if i == 0 {
        HandshakeNonceApart(n);
      } else if i < |w.log| {
        assert Numbered(w, w.log[i]);
        var s: Side, m: Counter :| x.key == w.At(s).txKey && m < w.At(s).writeSeq && x.nonce == NonceFor(m);
        NonceInjective(m, n);
      } else {
        assert x == more[i - |w.log|];
        NonceInjective(w.At(side).writeSeq + (i - |w.log|), n);
      }
      assert false;
    }
  }

  lemma {:induction false} NonceInvRun(a: Aead, w: World, es: seq<Event>)
    requires NonceInv(a, w)
    ensures NonceInv(a, Run(a, w, es))
  {
    if es != [] {
      NonceInvRun(a, w, es[..|es| - 1]);
      var v := Run(a, w, es[..|es| - 1]);
      match es[|es| - 1]
      case Write(side, data, plan) => NonceInvWrite(a, v, side, data, plan);
      case Read(side, incoming, cap) =>
        NumberedStays(v, AfterRead(a, v, side, incoming, cap));
    }
  }

  /** Equal direction keys meet at counter zero. */
  lemma NonceReuse(a: Aead, key: Bytes, hs: Entry)
    ensures var es := [Write(Left, [7], []), Write(Right, [7], [])];
            !Fresh(Run(a, Start(key, key, hs), es).log)
  {
    var w0 := Start(key, key, hs);
    var es := [Write(Left, [7], []), Write(Right, [7], [])];
    var w1 := OneWrite(a, w0, Left);
    var w2 := OneWrite(a, w1, Right);
    assert es[..1] == [es[0]] && [es[0]][..0] == [];
    assert Run(a, w0, [es[0]]) == w1;
    assert Run(a, w0, es) == w2;
    assert w2.log[1].nonce == w2.log[2].nonce;
  }

  /** No two calls of the AEAD's seal have the same key and nonce, and the log is those calls. */
  ghost predicate SealsFresh(a: Aead, log: seq<Entry>) {
    AllSeals(a, log) && Fresh(log)
  }

  lemma NonceFreshness(a: Aead, keyI2R: Bytes, keyR2I: Bytes, hs: Entry, es: seq<Event>)
    requires keyI2R != keyR2I && HandshakeEntry(a, hs)
    ensures SealsFresh(a, Run(a, Start(keyI2R, keyR2I, hs), es).log)
  {
    NonceInvRun(a, Start(keyI2R, keyR2I, hs), es);
  }

  /** No key and nonce are ever reused, in any run and whatever fails, exactly when the direction keys differ. */
  lemma NonceFreshnessExact(a: Aead, keyI2R: Bytes, keyR2I: Bytes, hs: Entry)
    requires HandshakeEntry(a, hs)
    ensures (forall es :: SealsFresh(a, Run(a, Start(keyI2R, keyR2I, hs), es).log)) <==> keyI2R != keyR2I
  {
    if keyI2R == keyR2I {
      NonceReuse(a, keyI2R, hs);
    } else {
      forall es ensures SealsFresh(a, Run(a, Start(keyI2R, keyR2I, hs), es).log) {
        NonceFreshness(a, keyI2R, keyR2I, hs, es);
      }
    }
  }

  /** Counters stop at the last value, which is never used as a nonce. */
  lemma LastCounterUnused(a: Aead, keyI2R: Bytes, keyR2I: Bytes, hs: Entry, es: seq<Event>)
    requires keyI2R != keyR2I && HandshakeEntry(a, hs)
    ensures var w := Run(a, Start(keyI2R, keyR2I, hs), es);
            && w.left.writeSeq <= MAX_SEQ && w.right.writeSeq <= MAX_SEQ
            && AllSeals(a, w.log)
            && forall j :: 0 <= j < |w.log| ==> w.log[j].nonce != NonceFor(MAX_SEQ)
  {
    var w := Run(a, Start(keyI2R, keyR2I, hs), es);
    NonceInvRun(a, Start(keyI2R, keyR2I, hs), es);
    forall j | 0 <= j < |w.log| ensures w.log[j].nonce != NonceFor(MAX_SEQ) {
      if j == 0 {
        HandshakeNonceApart(MAX_SEQ);
      } else {
        assert Numbered(w, w.log[j]);
        var s: Side, n: Counter :| w.log[j].key == w.At(s).txKey && n < w.At(s).writeSeq && w.log[j].nonce == NonceFor(n);
        if w.log[j].nonce == NonceFor(MAX_SEQ) { NonceInjective(n, MAX_SEQ); }
      }
    }
  }
}
