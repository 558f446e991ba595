/** The record layer (channel.go, js/channel.ts, py/channel.py). */
module Records {
  import opened ByteStrings
  import opened Primitives
  import opened Wire
  import Kem

  const MAX_PLAIN: nat := MAX_FRAME - TAG_SIZE
  const MAX_SEQ: nat := 0xFFFF_FFFF_FFFF_FFFF

  // ---------- nonces ----------

  /** Four zero bytes and the 64-bit big-endian counter. */
  function NonceFor(n: nat): (r: Bytes)
    ensures |r| == NONCE_SIZE
  {
    Zeros(4) + BigEndian(n, 8)
  }

  lemma NonceInjective(m: nat, n: nat)
    requires m <= MAX_SEQ && n <= MAX_SEQ
    requires NonceFor(m) == NonceFor(n)
    ensures m == n
  {
    Pow256Values();
    assert NonceFor(m)[4..] == BigEndian(m, 8);
    assert NonceFor(n)[4..] == BigEndian(n, 8);
    BigEndianInjective(m, n, 8);
  }

  /** Four zero bytes, then eight bytes whose big-endian value is the counter. */
  lemma NonceLayout(n: nat)
    requires n <= MAX_SEQ
    ensures NonceFor(n)[..4] == [0, 0, 0, 0] && Value(NonceFor(n)[4..]) == n
  {
    Pow256Values();
    assert NonceFor(n)[4..] == BigEndian(n, 8);
    ValueOfBigEndian(n, 8);
  }

  /** nonceFor of the TypeScript port: the shift loop fills the same bytes. */
  method NonceForTs(n: nat) returns (r: Bytes)
    ensures r == NonceFor(n)
  {
    var out := new byte[NONCE_SIZE](i => 0);
    for i := 0 to 8
      invariant forall j :: 0 <= j < 4 ==> out[j] == 0
      invariant forall j :: NONCE_SIZE - i <= j < NONCE_SIZE ==> out[j] == NonceFor(n)[j]
    {
      NonceDigit(n, i);
      out[NONCE_SIZE - 1 - i] := n / Pow256(i) % 256;
    }
    r := out[..];
    assert forall j :: 0 <= j < 4 ==> NonceFor(n)[j] == 0;
  }

  lemma NonceDigit(n: nat, i: nat)
    requires i < 8
    ensures NonceFor(n)[NONCE_SIZE - 1 - i] == n / Pow256(i) % 256
  {
    assert NonceFor(n)[NONCE_SIZE - 1 - i] == BigEndian(n, 8)[7 - i];
  }

  // ---------- sealing and sending ----------

  function Seal(a: Aead, key: Bytes, n: nat, p: Bytes): (c: Bytes)
    ensures |c| == |p| + TAG_SIZE
  {
    a.seal(key, NonceFor(n), p, [])
  }

  function Open(a: Aead, key: Bytes, n: nat, c: Bytes): Option<Bytes> {
    a.open(key, NonceFor(n), c, [])
  }

  lemma OpenSeal(a: Aead, key: Bytes, n: nat, p: Bytes)
    ensures Open(a, key, n, Seal(a, key, n, p)) == Some(p)
  {
  }

  /** The records of a list of plaintexts under consecutive counters. */
  function SealAll(a: Aead, key: Bytes, n: nat, ps: seq<Bytes>): (cs: seq<Bytes>)
    ensures |cs| == |ps|
    decreases |ps|
  {
    if ps == [] then [] else [Seal(a, key, n, ps[0])] + SealAll(a, key, n + 1, ps[1..])
  }

  /** Record `i` is the AEAD's seal of plaintext `i` under the nonce of its own counter, without associated data. */
  lemma {:induction false} SealAllAt(a: Aead, key: Bytes, n: nat, ps: seq<Bytes>, i: nat)
    requires i < |ps|
    ensures SealAll(a, key, n, ps)[i] == Seal(a, key, n + i, ps[i])
    ensures SealAll(a, key, n, ps)[i] == a.seal(key, NonceFor(n + i), ps[i], [])
    decreases i
  {
    if i > 0 { SealAllAt(a, key, n + 1, ps[1..], i - 1); }
  }

  lemma {:induction false} SealAllAppend(a: Aead, key: Bytes, n: nat, ps: seq<Bytes>, qs: seq<Bytes>)
    ensures SealAll(a, key, n, ps + qs) == SealAll(a, key, n, ps) + SealAll(a, key, n + |ps|, qs)
    decreases |ps|
  {
    if ps == [] {
      assert ps + qs == qs;
    } else {
      assert (ps + qs)[1..] == ps[1..] + qs;
      SealAllAppend(a, key, n + 1, ps[1..], qs);
    }
  }

  /** Every plaintext the splitter makes fits a frame once sealed. */
  ghost predicate Chunked(ps: seq<Bytes>) {
    forall i :: 0 <= i < |ps| ==> 1 <= |ps[i]| <= MAX_PLAIN
  }

  /** No record of the splitter is refused by writeFrame, or by the peer's zero and maximum length checks. */
  lemma RecordsFramable(a: Aead, key: Bytes, n: nat, ps: seq<Bytes>)
    requires Chunked(ps)
    ensures AllFramable(SealAll(a, key, n, ps))
  {
    forall i | 0 <= i < |ps| ensures Framable(SealAll(a, key, n, ps)[i]) {
      SealAllAt(a, key, n, ps, i);
    }
  }

  /** What one Write does: counter afterwards, bytes that left, plaintexts sealed, and what it returns. */
  datatype Sent = Sent(n: nat, bytes: Bytes, plan: seq<Outcome>, sealed: seq<Bytes>, written: nat, err: Option<Error>)

  function Send(a: Aead, key: Bytes, n: nat, plan: seq<Outcome>, b: Bytes): Sent
    requires n <= MAX_SEQ
    decreases |b|
  {
    if b == [] then Sent(n, [], plan, [], 0, None)
    else if n == MAX_SEQ then Sent(n, [], plan, [], 0, Some(SequenceExhausted))
    else
      var k := Min(MAX_PLAIN, |b|);
      var e := EmitFrame(Seal(a, key, n, b[..k]), plan);
      if e.err.Some? then Sent(n + 1, e.bytes, e.plan, [b[..k]], 0, e.err)
      else Then([b[..k]], e.bytes, Send(a, key, n + 1, e.plan, b[k..]))
  }

  /** Records framed without error, followed by the rest of the call. */
  function Then(framed: seq<Bytes>, bytes: Bytes, rest: Sent): Sent {
    Sent(rest.n, bytes + rest.bytes, rest.plan, framed + rest.sealed, |Concat(framed)| + rest.written, rest.err)
  }

  /** The plaintexts of a call whose records left whole. */
  function Framed(r: Sent): seq<Bytes> {
    if r.err == Some(Transport) && r.sealed != [] then r.sealed[..|r.sealed| - 1] else r.sealed
  }

  function CeilDiv(x: nat, y: nat): nat
    requires y > 0
  {
    (x + y - 1) / y
  }

  /** The count of full chunks never depends on how the rest of the call ends. */
  lemma CeilStep(x: nat)
    ensures CeilDiv(MAX_PLAIN + x, MAX_PLAIN) == 1 + CeilDiv(x, MAX_PLAIN)
  {
  }

  /**
   Write accounting, on every exit: the returned count covers exactly the records
   framed without error; the counter grew by one for each record sealed, which is
   the ceiling of count over chunk size, plus one exactly on a transport error; no
   record was ever too large; and the sealed bytes are always a prefix of the caller's.
   */
  ghost predicate Accounted(n: nat, b: Bytes, r: Sent) {
    && r.written <= |b|
    && (r.err == None <==> r.written == |b|)
    && r.err in {None, Some(SequenceExhausted), Some(Transport)}
    && (r.err == Some(SequenceExhausted) ==> r.n == MAX_SEQ)
    && Chunked(r.sealed)
    && (r.err == Some(Transport) ==> r.sealed != [])
    && Concat(Framed(r)) == b[..r.written]
    && Concat(r.sealed) <= b
    && r.n == n + |r.sealed| <= MAX_SEQ
    && |Framed(r)| == CeilDiv(r.written, MAX_PLAIN)
  }

  /** What left is the framed records and a piece of the failing one. */
  ghost predicate OnTheWire(a: Aead, key: Bytes, n: nat, r: Sent) {
    FrameAll(SealAll(a, key, n, Framed(r))) <= r.bytes <= FrameAll(SealAll(a, key, n, r.sealed))
  }

  lemma {:induction false} WriteAccounting(a: Aead, key: Bytes, n: nat, plan: seq<Outcome>, b: Bytes)
    requires n <= MAX_SEQ
    ensures var r := Send(a, key, n, plan, b);
            Accounted(n, b, r) && OnTheWire(a, key, n, r)
    decreases |b|
  {
    if b != [] && n < MAX_SEQ {
      var k := Min(MAX_PLAIN, |b|);
      var chunk := b[..k];
      var c := Seal(a, key, n, chunk);
      var e := EmitFrame(c, plan);
      EmitFramePrefix(c, plan);
      ConcatOne(chunk);
      OneFrame(a, key, n, chunk);
      if e.err == None {
        var rest := Send(a, key, n + 1, e.plan, b[k..]);
        WriteAccounting(a, key, n + 1, e.plan, b[k..]);
        AccountedStep(n, b, k, Frame(c), rest);
        WireStep(a, key, n, chunk, rest);
      }
    }
  }

  lemma OneFrame(a: Aead, key: Bytes, n: nat, p: Bytes)
    ensures FrameAll(SealAll(a, key, n, [p])) == Frame(Seal(a, key, n, p))
    ensures FrameAll(SealAll(a, key, n, [])) == []
  {
    var c := Seal(a, key, n, p);
    assert SealAll(a, key, n, [p]) == [c];
    assert FrameAll([c]) == Frame(c) + FrameAll([]);
  }

  lemma AccountedStep(n: nat, b: Bytes, k: nat, frame: Bytes, rest: Sent)
    requires n < MAX_SEQ && b != [] && k == Min(MAX_PLAIN, |b|)
    requires Accounted(n + 1, b[k..], rest)
    ensures Accounted(n, b, Then([b[..k]], frame, rest))
  {
    var chunk := b[..k];
    var r := Then([chunk], frame, rest);
    ConcatOne(chunk);
    assert Framed(r) == [chunk] + Framed(rest);
    ConcatAppend([chunk], Framed(rest));
    ConcatAppend([chunk], rest.sealed);
    assert b == chunk + b[k..];
    assert b[..r.written] == chunk + b[k..][..rest.written];
    if k == MAX_PLAIN {
      CeilStep(rest.written);
    }
  }

  lemma WireStep(a: Aead, key: Bytes, n: nat, chunk: Bytes, rest: Sent)
    requires OnTheWire(a, key, n + 1, rest)
    requires rest.err == Some(Transport) ==> rest.sealed != []
    ensures OnTheWire(a, key, n, Then([chunk], Frame(Seal(a, key, n, chunk)), rest))
  {
    var r := Then([chunk], Frame(Seal(a, key, n, chunk)), rest);
    assert Framed(r) == [chunk] + Framed(rest);
    FramesOfCons(a, key, n, chunk, Framed(rest));
    FramesOfCons(a, key, n, chunk, rest.sealed);
  }

  lemma FramesOfCons(a: Aead, key: Bytes, n: nat, p: Bytes, ps: seq<Bytes>)
    ensures FrameAll(SealAll(a, key, n, [p] + ps)) == Frame(Seal(a, key, n, p)) + FrameAll(SealAll(a, key, n + 1, ps))
  {
    assert ([p] + ps)[1..] == ps;
    var cs := SealAll(a, key, n, [p] + ps);
    assert cs[0] == Seal(a, key, n, p);
    assert cs[1..] == SealAll(a, key, n + 1, ps);
  }

  lemma ThenNothing(rest: Sent)
    ensures Then([], [], rest) == rest
  {
    assert [] + rest.bytes == rest.bytes && [] + rest.sealed == rest.sealed;
  }

  lemma ThenThen(x: seq<Bytes>, p: Bytes, y: seq<Bytes>, q: Bytes, rest: Sent)
    ensures Then(x, p, Then(y, q, rest)) == Then(x + y, p + q, rest)
  {
    ConcatAppend(x, y);
    Assoc(p, q, rest.bytes);
    assert x + (y + rest.sealed) == x + y + rest.sealed;
  }

  /** One turn of the splitting loop, seen from the whole call. */
  lemma SendUnfold(a: Aead, key: Bytes, n: nat, plan: seq<Outcome>, b: Bytes, w: nat, end: nat, chunk: Bytes, e: Emission,
                   sealed: seq<Bytes>, out: Bytes)
    requires w < |b| && n < MAX_SEQ && end == Min(w + MAX_PLAIN, |b|) && chunk == b[w..end]
    requires e == EmitFrame(Seal(a, key, n, chunk), plan)
    ensures e.err == None ==>
              Then(sealed, out, Send(a, key, n, plan, b[w..])) ==
              Then(sealed + [chunk], out + e.bytes, Send(a, key, n + 1, e.plan, b[end..]))
    ensures e.err != None ==>
              Then(sealed, out, Send(a, key, n, plan, b[w..])) ==
              Sent(n + 1, out + e.bytes, e.plan, sealed + [chunk], |Concat(sealed)|, e.err)
  {
    SendTurn(a, key, n, plan, b, w, end, chunk, e);
    if e.err == None {
      ThenThen(sealed, out, [chunk], e.bytes, Send(a, key, n + 1, e.plan, b[end..]));
    }
  }

  lemma SendTurn(a: Aead, key: Bytes, n: nat, plan: seq<Outcome>, b: Bytes, w: nat, end: nat, chunk: Bytes, e: Emission)
    requires w < |b| && n < MAX_SEQ && end == Min(w + MAX_PLAIN, |b|) && chunk == b[w..end]
    requires e == EmitFrame(Seal(a, key, n, chunk), plan)
    ensures Send(a, key, n, plan, b[w..]) ==
            if e.err == None then Then([chunk], e.bytes, Send(a, key, n + 1, e.plan, b[end..]))
            else Sent(n + 1, e.bytes, e.plan, [chunk], 0, e.err)
  {
    var rest := b[w..];
    assert rest[..end - w] == chunk && rest[end - w..] == b[end..];
  }

  /**
   A call started at (m, q) has framed `sealed`, sent `out`, and stands at (n, plan)
   with `w` bytes done: however the rest goes, the whole call is that followed by the rest.
   */
  ghost predicate Reached(a: Aead, key: Bytes, m: nat, q: seq<Outcome>, b: Bytes,
                          n: nat, plan: seq<Outcome>, w: nat, sealed: seq<Bytes>, out: Bytes)
    requires m <= MAX_SEQ && n <= MAX_SEQ && w <= |b|
  {
    forall rest :: rest == Send(a, key, n, plan, b[w..]) ==>
      w == |Concat(sealed)| && Send(a, key, m, q, b) == Then(sealed, out, rest)
  }

  lemma ReachedStart(a: Aead, key: Bytes, m: nat, q: seq<Outcome>, b: Bytes)
    requires m <= MAX_SEQ
    ensures Reached(a, key, m, q, b, m, q, 0, [], [])
  {
    assert b[0..] == b;
    ThenNothing(Send(a, key, m, q, b));
  }

  lemma ReachedStop(a: Aead, key: Bytes, m: nat, q: seq<Outcome>, b: Bytes,
                    n: nat, plan: seq<Outcome>, w: nat, sealed: seq<Bytes>, out: Bytes)
    requires m <= MAX_SEQ && n <= MAX_SEQ && w <= |b|
    requires Reached(a, key, m, q, b, n, plan, w, sealed, out)
    ensures w == |b| ==> Send(a, key, m, q, b) == Sent(n, out, plan, sealed, w, None)
    ensures w < |b| && n == MAX_SEQ ==>
              Send(a, key, m, q, b) == Sent(n, out, plan, sealed, w, Some(SequenceExhausted))
  {
    var rest := Send(a, key, n, plan, b[w..]);
    var whole := Then(sealed, out, rest);
    assert (w == |b| || n == MAX_SEQ) ==> out + rest.bytes == out && sealed + rest.sealed == sealed;
  }

  lemma ReachedStep(a: Aead, key: Bytes, m: nat, q: seq<Outcome>, b: Bytes,
                    n: nat, plan: seq<Outcome>, w: nat, sealed: seq<Bytes>, out: Bytes) returns (e: Emission)
    requires m <= MAX_SEQ && n < MAX_SEQ && w < |b|
    requires Reached(a, key, m, q, b, n, plan, w, sealed, out)
    ensures var end := Min(w + MAX_PLAIN, |b|);
            var chunk := b[w..end];
            && e == EmitFrame(Seal(a, key, n, chunk), plan)
            && (e.err == None ==>
                  Reached(a, key, m, q, b, n + 1, e.plan, end, sealed + [chunk], out + e.bytes))
            && (e.err != None ==>
                  Send(a, key, m, q, b) == Sent(n + 1, out + e.bytes, e.plan, sealed + [chunk], w, e.err))
  {
    var end := Min(w + MAX_PLAIN, |b|);
    var chunk := b[w..end];
    e := EmitFrame(Seal(a, key, n, chunk), plan);
    var whole := Then(sealed, out, Send(a, key, n, plan, b[w..]));
    SendUnfold(a, key, n, plan, b, w, end, chunk, e, sealed, out);
    ConcatSnoc(sealed, chunk);
  }

  // ---------- receiving ----------

  datatype Received = Received(result: Result<Bytes>, n: nat, rest: Bytes)

  /** One record off the stream; the counter moves only when a record opens. */
  function Receive(a: Aead, key: Bytes, n: nat, incoming: Bytes): Received {
    var t := TakeFrame(incoming);
    match t.result
    case Err(e) => Received(Err(e), n, t.rest)
    case Ok(frame) =>
      if n == MAX_SEQ then Received(Err(SequenceExhausted), n, t.rest)
      else
        match Open(a, key, n, frame)
        case None => Received(Err(CiphertextCorrupted), n, t.rest)
        case Some(p) => Received(Ok(p), n + 1, t.rest)
  }

  /**
   Exactly when a receive ends how: a record is delivered if and only if a whole frame
   is there, the counter is not exhausted and the AEAD opens it under the counter's nonce.
   */
  lemma ReceiveExact(a: Aead, key: Bytes, n: nat, incoming: Bytes, c: Bytes, rest: Bytes)
    requires Framable(c) && incoming == Frame(c) + rest
    ensures var plain := a.open(key, NonceFor(n), c, []);
            Receive(a, key, n, incoming) ==
            if n == MAX_SEQ then Received(Err(SequenceExhausted), n, rest)
            else if plain == None then Received(Err(CiphertextCorrupted), n, rest)
            else Received(Ok(plain.value), n + 1, rest)
  {
    TakeFrameExact(incoming, c, rest);
  }

  /** Without a whole frame at its head, a stream gives the framing error and the counter stays. */
  lemma ReceiveNothing(a: Aead, key: Bytes, n: nat, incoming: Bytes)
    requires forall c, rest :: Framable(c) ==> incoming != Frame(c) + rest
    ensures var t := TakeFrame(incoming);
            t.result.Err? && Receive(a, key, n, incoming) == Received(Err(t.result.error), n, t.rest)
  {
    var t := TakeFrame(incoming);
    if t.result.Ok? {
      TakeFrameExact(incoming, t.result.value, t.rest);
    }
  }

  datatype Reader = Reader(n: nat, buf: Bytes)

  datatype ReadDone = ReadDone(reader: Reader, result: Result<Bytes>, rest: Bytes)

  /** One Read with room for `cap` bytes: the overflow buffer first, else one record. */
  function ReadStep(a: Aead, key: Bytes, r: Reader, incoming: Bytes, cap: nat): ReadDone {
    if r.buf != [] then
      var k := Min(cap, |r.buf|);
      ReadDone(r.(buf := r.buf[k..]), Ok(r.buf[..k]), incoming)
    else
      var got := Receive(a, key, r.n, incoming);
      match got.result
      case Err(e) => ReadDone(r, Err(e), got.rest)
      case Ok(p) =>
        var k := Min(cap, |p|);
        ReadDone(Reader(got.n, p[k..]), Ok(p[..k]), got.rest)
  }

  /** What a Read returns and what it keeps are together the buffer or one record. */
  lemma ReadSplits(a: Aead, key: Bytes, r: Reader, incoming: Bytes, cap: nat)
    ensures var d := ReadStep(a, key, r, incoming, cap);
            var got := Receive(a, key, r.n, incoming);
            && (d.result.Err? ==> d.reader == r && r.buf == [])
            && (d.result.Ok? && r.buf != [] ==>
                  d.result.value + d.reader.buf == r.buf && d.reader.n == r.n && d.rest == incoming)
            && (r.buf == [] ==> (d.result.Ok? <==> got.result.Ok?) && d.rest == got.rest)
            && (d.result.Ok? && r.buf == [] ==>
                  d.result.value + d.reader.buf == got.result.value && d.reader.n == got.n)
  {
    var got := Receive(a, key, r.n, incoming);
    if r.buf != [] {
      assert r.buf[..Min(cap, |r.buf|)] + r.buf[Min(cap, |r.buf|)..] == r.buf;
    } else if got.result.Ok? {
      var p := got.result.value;
      assert p[..Min(cap, |p|)] + p[Min(cap, |p|)..] == p;
    }
  }

  /**
   A Read, whole: buffered bytes come first and then the stream is left alone, else one
   receive decides result, counter and stream; nothing is lost or invented; the caller
   gets as much as it has room for, and an error leaves the reader as it was.
   */
  lemma ReadKeepsBytes(a: Aead, key: Bytes, r: Reader, incoming: Bytes, cap: nat)
    ensures var d := ReadStep(a, key, r, incoming, cap);
            var source := if r.buf != [] then Received(Ok(r.buf), r.n, incoming) else Receive(a, key, r.n, incoming);
            && d.rest == source.rest && d.reader.n == source.n
            && match source.result
               case Err(e) => d.result == Err(e) && d.reader == r
               case Ok(p) => && d.result.Ok? && d.result.value + d.reader.buf == p
                             && |d.result.value| == Min(cap, |p|)
  {
    ReadSplits(a, key, r, incoming, cap);
  }

  // ---------- the Go connection ----------

  /** Conn: the keys are private copies, as the AEAD objects hold them. */
  class Conn<Remote> {
    const aead: Aead
    const raw: Duplex
    const remote: Remote
    const readKey: Bytes
    const writeKey: Bytes
    var readSeq: nat
    var readBuf: Bytes
    var writeSeq: nat

    ghost predicate Valid()
      reads this
    {
      readSeq <= MAX_SEQ && writeSeq <= MAX_SEQ
    }

    /** newConn: the direction keys by role, and they survive the zeroing of the arrays they came from. */
    constructor (aead: Aead, raw: Duplex, remote: Remote, keyI2R: array<byte>, keyR2I: array<byte>, initiator: bool)
      requires keyI2R.Length == KEY_SIZE && keyR2I.Length == KEY_SIZE
      modifies keyI2R, keyR2I
      ensures Valid() && this.aead == aead && this.raw == raw && this.remote == remote
      ensures writeKey == old(if initiator then keyI2R[..] else keyR2I[..])
      ensures readKey == old(if initiator then keyR2I[..] else keyI2R[..])
      ensures readSeq == 0 && writeSeq == 0 && readBuf == []
      ensures keyI2R[..] == Zeros(KEY_SIZE) && keyR2I[..] == Zeros(KEY_SIZE)
    {
      this.aead, this.raw, this.remote := aead, raw, remote;
      if initiator {
        writeKey, readKey := keyI2R[..], keyR2I[..];
      } else {
        writeKey, readKey := keyR2I[..], keyI2R[..];
      }
      readSeq, readBuf, writeSeq := 0, [], 0;
      new;
      Kem.Zero(keyI2R);
      Kem.Zero(keyR2I);
    }

    method Write(b: Bytes) returns (written: nat, err: Option<Error>)
      requires Valid()
      modifies this`writeSeq, raw`sent, raw`plan
      ensures Valid()
      ensures var r := Send(aead, writeKey, old(writeSeq), old(raw.plan), b);
              && written == r.written && err == r.err && writeSeq == r.n
              && raw.sent == old(raw.sent) + r.bytes && raw.plan == r.plan
    {
      ghost var sealed: seq<Bytes>, out: Bytes := [], [];
      written, err := 0, None;
      ReachedStart(aead, writeKey, writeSeq, raw.plan, b);
      while written < |b|
        invariant written <= |b| && writeSeq <= MAX_SEQ && err == None
        invariant raw.sent == old(raw.sent) + out
        invariant Reached(aead, writeKey, old(writeSeq), old(raw.plan), b, writeSeq, raw.plan, written, sealed, out)
      {
        var end := Min(written + MAX_PLAIN, |b|);
        var chunk := b[written..end];
        ReachedStop(aead, writeKey, old(writeSeq), old(raw.plan), b, writeSeq, raw.plan, written, sealed, out);
        if writeSeq == MAX_SEQ {
          err := Some(SequenceExhausted);
          return;
        }
        ghost var e := ReachedStep(aead, writeKey, old(writeSeq), old(raw.plan), b, writeSeq, raw.plan, written, sealed, out);
        var ciphertext := Seal(aead, writeKey, writeSeq, chunk);
        writeSeq := writeSeq + 1;
        err := WriteFrame(raw, ciphertext);
        Assoc(old(raw.sent), out, e.bytes);
        if err.Some? {
          return;
        }
        sealed, out := sealed + [chunk], out + e.bytes;
        written := written + |chunk|;
      }
      ReachedStop(aead, writeKey, old(writeSeq), old(raw.plan), b, writeSeq, raw.plan, written, sealed, out);
    }

    method Read(b: array<byte>) returns (k: nat, err: Option<Error>)
      requires Valid()
      modifies this`readSeq, this`readBuf, raw`incoming, b
      ensures Valid() && k <= b.Length
      ensures b[k..] == old(b[k..])
      ensures var r := ReadStep(aead, readKey, Reader(old(readSeq), old(readBuf)), old(raw.incoming), b.Length);
              && Reader(readSeq, readBuf) == r.reader && raw.incoming == r.rest
              && match r.result
                 case Err(e) => err == Some(e) && k == 0
                 case Ok(got) => err == None && b[..k] == got
    {
      if |readBuf| > 0 {
        k := Copy(b, readBuf);
        readBuf := readBuf[k..];
        return k, None;
      }
      var frame := ReadFrame(raw);
      if frame.Err? {
        return 0, Some(frame.error);
      }
      if readSeq == MAX_SEQ {
        return 0, Some(SequenceExhausted);
      }
      var plaintext := Open(aead, readKey, readSeq, frame.value);
      if plaintext.None? {
        return 0, Some(CiphertextCorrupted);
      }
      readSeq := readSeq + 1;
      k := Copy(b, plaintext.value);
      readBuf := plaintext.value[k..];
      err := None;
    }
  }

  /** The built-in copy: as many bytes as both sides have. */
  method Copy(b: array<byte>, src: Bytes) returns (k: nat)
    modifies b
    ensures k == Min(b.Length, |src|)
    ensures b[..k] == src[..k] && b[k..] == old(b[k..])
  {
    k := Min(b.Length, |src|);
    for i := 0 to k
      invariant b[..i] == src[..i]
      invariant b[i..] == old(b[i..])
    {
      b[i] := src[i];
      assert b[i + 1..] == old(b[i..])[1..];
    }
  }

  // ---------- the TypeScript and Python channel ----------

  /** Channel of the two ports: no count on failure, and one whole record per receive. */
  class Channel {
    const aead: Aead
    const inner: Duplex
    const rxKey: Bytes
    const txKey: Bytes
    var rxSeq: nat
    var txSeq: nat
    var rxOverflow: Option<Bytes>

    ghost predicate Valid()
      reads this
    {
      rxSeq <= MAX_SEQ && txSeq <= MAX_SEQ
    }

    constructor (aead: Aead, inner: Duplex, keyI2R: Bytes, keyR2I: Bytes, initiator: bool)
      ensures Valid() && this.aead == aead && this.inner == inner
      ensures txKey == (if initiator then keyI2R else keyR2I)
      ensures rxKey == (if initiator then keyR2I else keyI2R)
      ensures rxSeq == 0 && txSeq == 0 && rxOverflow == None
    {
      this.aead, this.inner := aead, inner;
      txKey := if initiator then keyI2R else keyR2I;
      rxKey := if initiator then keyR2I else keyI2R;
      rxSeq, txSeq, rxOverflow := 0, 0, None;
    }

    method SendAll(plaintext: Bytes) returns (err: Option<Error>)
      requires Valid()
      modifies this`txSeq, inner`sent, inner`plan
      ensures Valid()
      ensures var r := Send(aead, txKey, old(txSeq), old(inner.plan), plaintext);
              && err == r.err && txSeq == r.n
              && inner.sent == old(inner.sent) + r.bytes && inner.plan == r.plan
    {
      ghost var sealed: seq<Bytes>, out: Bytes := [], [];
      var written := 0;
      ReachedStart(aead, txKey, txSeq, inner.plan, plaintext);
      while written < |plaintext|
        invariant written <= |plaintext| && txSeq <= MAX_SEQ
        invariant inner.sent == old(inner.sent) + out
        invariant Reached(aead, txKey, old(txSeq), old(inner.plan), plaintext, txSeq, inner.plan, written, sealed, out)
      {
        var end := Min(written + MAX_PLAIN, |plaintext|);
        var chunk := plaintext[written..end];
        ReachedStop(aead, txKey, old(txSeq), old(inner.plan), plaintext, txSeq, inner.plan, written, sealed, out);
        if txSeq >= MAX_SEQ {
          return Some(SequenceExhausted);
        }
        ghost var e := ReachedStep(aead, txKey, old(txSeq), old(inner.plan), plaintext, txSeq, inner.plan, written, sealed, out);
        var ct := Seal(aead, txKey, txSeq, chunk);
        txSeq := txSeq + 1;
        err := WriteFrame(inner, ct);
        Assoc(old(inner.sent), out, e.bytes);
        if err.Some? {
          return;
        }
        sealed, out := sealed + [chunk], out + e.bytes;
        written := end;
      }
      ReachedStop(aead, txKey, old(txSeq), old(inner.plan), plaintext, txSeq, inner.plan, written, sealed, out);
      err := None;
    }

    method Recv() returns (r: Result<Bytes>)
      requires Valid()
      modifies this`rxSeq, this`rxOverflow, inner`incoming
      ensures Valid() && rxOverflow == None
      ensures old(rxOverflow).Some? ==>
                r == Ok(old(rxOverflow).value) && rxSeq == old(rxSeq) && inner.incoming == old(inner.incoming)
      ensures old(rxOverflow).None? ==>
                Received(r, rxSeq, inner.incoming) == Receive(aead, rxKey, old(rxSeq), old(inner.incoming))
    {
      if rxOverflow.Some? {
        r := Ok(rxOverflow.value);
        rxOverflow := None;
        return;
      }
      var frame := ReadFrame(inner);
      if frame.Err? {
        return Err(frame.error);
      }
      if rxSeq >= MAX_SEQ {
        return Err(SequenceExhausted);
      }
      var pt := Open(aead, rxKey, rxSeq, frame.value);
      if pt.None? {
        return Err(CiphertextCorrupted);
      }
      rxSeq := rxSeq + 1;
      r := Ok(pt.value);
    }
  }
}
