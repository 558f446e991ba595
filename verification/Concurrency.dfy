/**
 Concurrent callers of one direction: any number of threads calling Write at one end
 and Read at the other, interleaved at the granularity of seal, header, payload and
 open, over a wire without errors.  Only the mutexes order them.
 */
module Concurrency {
  import opened ByteStrings
  import opened Primitives
  import opened Wire
  import opened Records
  import Streams

  /** Where a thread is inside Write: `w` bytes done, `chunk` sealed as `c`. */
  datatype Writer =
    | WWait(b: Bytes)
    | WLoop(b: Bytes, w: nat)
    | WSealed(b: Bytes, w: nat, chunk: Bytes, c: Bytes)
    | WHeader(b: Bytes, w: nat, chunk: Bytes, c: Bytes)
    | WExit(written: nat, err: Option<Error>)
    | WDone(written: nat, err: Option<Error>)

  /** Where a thread is inside Read: header of length `n` taken, or frame `c` taken. */
  datatype Caller =
    | RWait(cap: nat)
    | RLocked(cap: nat)
    | RHeader(cap: nat, n: nat)
    | RFrame(cap: nat, c: Bytes)
    | RExit(result: Result<Bytes>)
    | RDone(result: Result<Bytes>)

  /**
   The fields of both connections and the wire, and four histories: the data of all
   Writes and the results of all Reads, each concatenated in lock order, the
   plaintext of every record sealed, and their concatenation.
   */
  datatype Shared = Shared(
    writeMu: Option<nat>, writeSeq: nat, wire: Bytes,
    readMu: Option<nat>, readSeq: nat, readBuf: Bytes,
    written: Bytes, returned: Bytes, sealed: seq<Bytes>, stream: Bytes)

  datatype System = System(shared: Shared, writers: map<nat, Writer>, callers: map<nat, Caller>)

  /** A thread starts a call, or takes its next step. */
  datatype Event = CallWrite(t: nat, b: Bytes) | CallRead(t: nat, cap: nat) | WriterMoves(t: nat) | CallerMoves(t: nat)

  const INITIAL: System := System(Shared(None, 0, [], None, 0, [], [], [], [], []), map[], map[])

  predicate WInside(pc: Writer) {
    !pc.WWait? && !pc.WDone?
  }

  predicate RInside(pc: Caller) {
    !pc.RWait? && !pc.RDone?
  }

  // ---------- the code of the two calls, one step at a time ----------

  datatype WMove = WMove(shared: Shared, pc: Writer)

  function WriterStep(a: Aead, key: Bytes, t: nat, s: Shared, pc: Writer): WMove {
    match pc
    case WWait(b) =>
      if s.writeMu.Some? then WMove(s, pc)
      else WMove(s.(writeMu := Some(t), written := s.written + b), WLoop(b, 0))
    case WLoop(b, w) =>
      if w >= |b| then WMove(s, WExit(w, None))
      else if s.writeSeq == MAX_SEQ then WMove(s, WExit(w, Some(SequenceExhausted)))
      else
        var chunk := b[w..Min(w + MAX_PLAIN, |b|)];
        WMove(s.(writeSeq := s.writeSeq + 1, sealed := s.sealed + [chunk], stream := s.stream + chunk),
              WSealed(b, w, chunk, Seal(a, key, s.writeSeq, chunk)))
    case WSealed(b, w, chunk, c) =>
      if |c| > MAX_FRAME then WMove(s, WExit(w, Some(MessageTooLarge)))
      else WMove(s.(wire := s.wire + BigEndian(|c|, 4)), WHeader(b, w, chunk, c))
    case WHeader(b, w, chunk, c) => WMove(s.(wire := s.wire + c), WLoop(b, w + |chunk|))
    case WExit(written, err) => WMove(s.(writeMu := None), WDone(written, err))
    case WDone(_, _) => WMove(s, pc)
  }

  datatype RMove = RMove(shared: Shared, pc: Caller)

  /** A step that needs more bytes than the wire holds waits. */
  function CallerStep(a: Aead, key: Bytes, t: nat, s: Shared, pc: Caller): RMove {
    match pc
    case RWait(cap) =>
      if s.readMu.Some? then RMove(s, pc) else RMove(s.(readMu := Some(t)), RLocked(cap))
    case RLocked(cap) =>
      if s.readBuf != [] then
        var k := Min(cap, |s.readBuf|);
        RMove(s.(readBuf := s.readBuf[k..], returned := s.returned + s.readBuf[..k]), RExit(Ok(s.readBuf[..k])))
      else if |s.wire| < 4 then RMove(s, pc)
      else
        var n := Value(s.wire[..4]);
        var s' := s.(wire := s.wire[4..]);
        if n > MAX_FRAME then RMove(s', RExit(Err(MessageTooLarge)))
        else if n == 0 then RMove(s', RExit(Err(InvalidWireFormat)))
        else RMove(s', RHeader(cap, n))
    case RHeader(cap, n) =>
      if |s.wire| < n then RMove(s, pc)
      else RMove(s.(wire := s.wire[n..]), RFrame(cap, s.wire[..n]))
    case RFrame(cap, c) =>
      if s.readSeq == MAX_SEQ then RMove(s, RExit(Err(SequenceExhausted)))
      else
        (match Open(a, key, s.readSeq, c)
         case None => RMove(s, RExit(Err(CiphertextCorrupted)))
         case Some(p) =>
           var k := Min(cap, |p|);
           RMove(s.(readSeq := s.readSeq + 1, readBuf := p[k..], returned := s.returned + p[..k]), RExit(Ok(p[..k]))))
    case RExit(result) => RMove(s.(readMu := None), RDone(result))
    case RDone(_) => RMove(s, pc)
  }

  /** A thread may start a call when it is not inside one. */
  function Step(a: Aead, key: Bytes, s: System, e: Event): System {
    match e
    case CallWrite(t, b) =>
      if t in s.writers && !s.writers[t].WDone? then s else s.(writers := s.writers[t := WWait(b)])
    case CallRead(t, cap) =>
      if t in s.callers && !s.callers[t].RDone? then s else s.(callers := s.callers[t := RWait(cap)])
    case WriterMoves(t) =>
      if t !in s.writers then s
      else
        var m := WriterStep(a, key, t, s.shared, s.writers[t]);
        s.(shared := m.shared, writers := s.writers[t := m.pc])
    case CallerMoves(t) =>
      if t !in s.callers then s
      else
        var m := CallerStep(a, key, t, s.shared, s.callers[t]);
        s.(shared := m.shared, callers := s.callers[t := m.pc])
  }

  function Run(a: Aead, key: Bytes, es: seq<Event>): System {
    if es == [] then INITIAL else Step(a, key, Run(a, key, es[..|es| - 1]), es[|es| - 1])
  }

  // ---------- mutual exclusion ----------

  /** The mutex names exactly the thread inside the critical section. */
  ghost predicate Exclusive(s: System) {
    && (forall t :: t in s.writers && WInside(s.writers[t]) ==> s.shared.writeMu == Some(t))
    && (s.shared.writeMu.Some? ==> s.shared.writeMu.value in s.writers && WInside(s.writers[s.shared.writeMu.value]))
    && (forall t :: t in s.callers && RInside(s.callers[t]) ==> s.shared.readMu == Some(t))
    && (s.shared.readMu.Some? ==> s.shared.readMu.value in s.callers && RInside(s.callers[s.shared.readMu.value]))
  }

  /** The thread inside Write, or an idle one. */
  function ActiveWriter(s: System): Writer {
    if s.shared.writeMu.Some? && s.shared.writeMu.value in s.writers then s.writers[s.shared.writeMu.value]
    else WDone(0, None)
  }

  function ActiveCaller(s: System): Caller {
    if s.shared.readMu.Some? && s.shared.readMu.value in s.callers then s.callers[s.shared.readMu.value]
    else RDone(Ok([]))
  }

  // ---------- what the lock holders keep ----------

  predicate MidCall(pc: Writer) {
    pc.WLoop? || pc.WSealed? || pc.WHeader?
  }

  /** A record sealed whose last byte is not yet on the wire. */
  predicate Pending(pc: Writer) {
    pc.WSealed? || pc.WHeader?
  }

  /** The bytes of the current call that are sealed already. */
  function Position(pc: Writer): nat
    requires MidCall(pc)
  {
    if pc.WLoop? then pc.w else pc.w + |pc.chunk|
  }

  /** How much of the Writes' data the calls so far should have sealed: all but the rest of the current call. */
  function Due(written: Bytes, pc: Writer): int {
    if MidCall(pc) then |written| - |pc.b| + Position(pc) else |written|
  }

  /** Calls are sealed one after the other, without gaps, until the counter is exhausted. */
  ghost predicate Contiguous(written: Bytes, stream: Bytes, writeSeq: nat, pc: Writer) {
    && (MidCall(pc) ==> |pc.b| <= |written| && written[|written| - |pc.b|..] == pc.b && Position(pc) <= |pc.b|)
    && stream <= written && |stream| <= Due(written, pc)
    && (writeSeq < MAX_SEQ || Pending(pc) ==> |stream| == Due(written, pc))
  }

  /** The sealed records, and that their bytes are the stream. */
  ghost predicate SealedOk(a: Aead, key: Bytes, sealed: seq<Bytes>, stream: Bytes, writeSeq: nat, pc: Writer) {
    && Chunked(sealed)
    && writeSeq == |sealed| <= MAX_SEQ
    && (forall all :: all == sealed ==> stream == Concat(all))
    && (Pending(pc) ==>
          sealed != [] && pc.chunk == sealed[|sealed| - 1] && pc.c == Seal(a, key, |sealed| - 1, pc.chunk))
  }

  /** Records whose last byte is on the wire. */
  function Complete(sealed: seq<Bytes>, pc: Writer): seq<Bytes> {
    if Pending(pc) && sealed != [] then sealed[..|sealed| - 1] else sealed
  }

  /** The part of an unfinished record that is on the wire. */
  function Partial(pc: Writer): Bytes {
    if pc.WHeader? then BigEndian(|pc.c|, 4) else []
  }

  /** The part of the current record the reader has taken off. */
  function TakenOff(pc: Caller): Bytes {
    match pc
    case RHeader(_, n) => BigEndian(n, 4)
    case RFrame(_, c) => Frame(c)
    case _ => []
  }

  /**
   What the reader has off the wire and what is still on it are the complete records
   from its counter on, and the header of an unfinished one.
   */
  ghost predicate WireOk(a: Aead, key: Bytes, done: seq<Bytes>, partial: Bytes, n: nat, wire: Bytes, r: Caller) {
    && Chunked(done) && n <= |done|
    && (forall flying :: flying == done[n..] ==>
          TakenOff(r) + wire == FrameAll(SealAll(a, key, n, flying)) + partial)
    && (r.RHeader? ==> 1 <= r.n <= MAX_FRAME)
    && (r.RFrame? ==> n < |done| && r.c == Seal(a, key, n, done[n]))
  }

  /** What Reads have returned and buffered are the records the counter has passed, and no Read has failed. */
  ghost predicate ReadOk(sealed: seq<Bytes>, n: nat, returned: Bytes, buf: Bytes, r: Caller) {
    && n <= |sealed|
    && (forall past :: past == sealed[..n] ==> returned + buf == Concat(past))
    && (r.RHeader? || r.RFrame? ==> buf == [])
    && (r.RExit? || r.RDone? ==> r.result.Ok?)
  }

  ghost predicate SharedInv(a: Aead, key: Bytes, s: Shared, w: Writer, r: Caller) {
    && Contiguous(s.written, s.stream, s.writeSeq, w)
    && SealedOk(a, key, s.sealed, s.stream, s.writeSeq, w)
    && WireOk(a, key, Complete(s.sealed, w), Partial(w), s.readSeq, s.wire, r)
    && ReadOk(s.sealed, s.readSeq, s.returned, s.readBuf, r)
  }

  // ---------- writer steps ----------

  lemma ContiguousLock(written: Bytes, stream: Bytes, writeSeq: nat, pc: Writer, b: Bytes)
    requires Contiguous(written, stream, writeSeq, pc) && !MidCall(pc)
    ensures Contiguous(written + b, stream, writeSeq, WLoop(b, 0))
  {
    assert (written + b)[|written|..] == b;
    assert written <= written + b;
  }

  lemma ContiguousSeal(written: Bytes, stream: Bytes, writeSeq: nat, pc: Writer, chunk: Bytes, c: Bytes)
    requires Contiguous(written, stream, writeSeq, pc) && pc.WLoop? && pc.w < |pc.b| && writeSeq < MAX_SEQ
    requires chunk == pc.b[pc.w..Min(pc.w + MAX_PLAIN, |pc.b|)]
    ensures Contiguous(written, stream + chunk, writeSeq + 1, WSealed(pc.b, pc.w, chunk, c))
  {
    var at := |written| - |pc.b|;
    assert chunk == written[at..][pc.w..pc.w + |chunk|] == written[|stream|..|stream| + |chunk|];
    assert stream + chunk == written[..|stream| + |chunk|];
  }

  lemma SealedSeal(a: Aead, key: Bytes, sealed: seq<Bytes>, stream: Bytes, writeSeq: nat, pc: Writer, b: Bytes, k: nat, chunk: Bytes)
    requires SealedOk(a, key, sealed, stream, writeSeq, pc) && writeSeq < MAX_SEQ && 1 <= |chunk| <= MAX_PLAIN
    ensures SealedOk(a, key, sealed + [chunk], stream + chunk, writeSeq + 1, WSealed(b, k, chunk, Seal(a, key, writeSeq, chunk)))
  {
    ConcatSnoc(sealed, chunk);
  }

  /** Sealing more leaves what was read a prefix. */
  lemma ReadGrows(sealed: seq<Bytes>, chunk: Bytes, n: nat, returned: Bytes, buf: Bytes, r: Caller)
    requires ReadOk(sealed, n, returned, buf, r)
    ensures ReadOk(sealed + [chunk], n, returned, buf, r)
  {
    assert (sealed + [chunk])[..n] == sealed[..n];
  }

  lemma WireHeader(a: Aead, key: Bytes, done: seq<Bytes>, n: nat, wire: Bytes, r: Caller, header: Bytes)
    requires WireOk(a, key, done, [], n, wire, r)
    ensures WireOk(a, key, done, header, n, wire + header, r)
  {
    var records := SealAll(a, key, n, done[n..]);
    assert FrameAll(records) + [] == FrameAll(records);
    Assoc(TakenOff(r), wire, header);
  }

  lemma WirePayload(a: Aead, key: Bytes, done: seq<Bytes>, sealed: seq<Bytes>, partial: Bytes, n: nat, wire: Bytes, r: Caller,
                    chunk: Bytes, c: Bytes)
    requires 1 <= |chunk| <= MAX_PLAIN && sealed == done + [chunk]
    requires c == Seal(a, key, |done|, chunk) && partial == BigEndian(|c|, 4)
    requires WireOk(a, key, done, partial, n, wire, r)
    ensures WireOk(a, key, sealed, [], n, wire + c, r)
  {
    var frames := FrameAll(SealAll(a, key, n, done[n..]));
    Assoc(TakenOff(r), wire, c);
    Assoc(frames, partial, c);
    Streams.FlyMore(a, key, n, done, [chunk]);
    OneFrame(a, key, |done|, chunk);
    assert Frame(c) == partial + c;
  }

  lemma CompleteSeal(sealed: seq<Bytes>, chunk: Bytes, b: Bytes, k: nat, c: Bytes)
    ensures Complete(sealed + [chunk], WSealed(b, k, chunk, c)) == sealed
  {
  }

  lemma WriterSeals(a: Aead, key: Bytes, s: Shared, w: Writer, r: Caller, t: nat)
    requires SharedInv(a, key, s, w, r) && w.WLoop? && w.w < |w.b| && s.writeSeq < MAX_SEQ
    ensures var m := WriterStep(a, key, t, s, w); SharedInv(a, key, m.shared, m.pc, r)
  {
    var chunk := w.b[w.w..Min(w.w + MAX_PLAIN, |w.b|)];
    var c := Seal(a, key, s.writeSeq, chunk);
    ContiguousSeal(s.written, s.stream, s.writeSeq, w, chunk, c);
    SealedSeal(a, key, s.sealed, s.stream, s.writeSeq, w, w.b, w.w, chunk);
    ReadGrows(s.sealed, chunk, s.readSeq, s.returned, s.readBuf, r);
    CompleteSeal(s.sealed, chunk, w.b, w.w, c);
  }

  lemma WriterHeads(a: Aead, key: Bytes, s: Shared, w: Writer, r: Caller, t: nat)
    requires SharedInv(a, key, s, w, r) && w.WSealed?
    ensures var m := WriterStep(a, key, t, s, w); m.pc.WHeader? && SharedInv(a, key, m.shared, m.pc, r)
  {
    WireHeader(a, key, Complete(s.sealed, w), s.readSeq, s.wire, r, BigEndian(|w.c|, 4));
  }

  lemma PaidWriter(a: Aead, key: Bytes, s: Shared, w: Writer)
    requires w.WHeader? && Contiguous(s.written, s.stream, s.writeSeq, w)
    requires SealedOk(a, key, s.sealed, s.stream, s.writeSeq, w)
    ensures Contiguous(s.written, s.stream, s.writeSeq, WLoop(w.b, w.w + |w.chunk|))
    ensures SealedOk(a, key, s.sealed, s.stream, s.writeSeq, WLoop(w.b, w.w + |w.chunk|))
    ensures Complete(s.sealed, w) + [w.chunk] == s.sealed
  {
  }

  lemma WriterPays(a: Aead, key: Bytes, s: Shared, w: Writer, r: Caller, t: nat)
    requires SharedInv(a, key, s, w, r) && w.WHeader?
    ensures var m := WriterStep(a, key, t, s, w); SharedInv(a, key, m.shared, m.pc, r)
  {
    PaidWriter(a, key, s, w);
    WirePayload(a, key, Complete(s.sealed, w), s.sealed, Partial(w), s.readSeq, s.wire, r, w.chunk, w.c);
  }

  lemma WriterKeeps(a: Aead, key: Bytes, s: Shared, w: Writer, r: Caller, t: nat)
    requires SharedInv(a, key, s, w, r) && WInside(w)
    ensures var m := WriterStep(a, key, t, s, w); SharedInv(a, key, m.shared, m.pc, r)
  {
    if w.WLoop? && w.w < |w.b| && s.writeSeq < MAX_SEQ {
      WriterSeals(a, key, s, w, r, t);
    } else if w.WSealed? {
      WriterHeads(a, key, s, w, r, t);
    } else if w.WHeader? {
      WriterPays(a, key, s, w, r, t);
    }
  }

  // ---------- reader steps ----------

  lemma FrontRecord(a: Aead, key: Bytes, n: nat, flying: seq<Bytes>, partial: Bytes)
    requires flying != []
    ensures FrameAll(SealAll(a, key, n, flying)) + partial ==
            Frame(Seal(a, key, n, flying[0])) + (FrameAll(SealAll(a, key, n + 1, flying[1..])) + partial)
  {
    assert flying == [flying[0]] + flying[1..];
    FramesOfCons(a, key, n, flying[0], flying[1..]);
    Assoc(Frame(Seal(a, key, n, flying[0])), FrameAll(SealAll(a, key, n + 1, flying[1..])), partial);
  }

  /** The four bytes at the head of the wire are the length of a record. */
  lemma HeadIsLength(a: Aead, key: Bytes, n: nat, flying: seq<Bytes>, partial: Bytes, wire: Bytes)
    requires wire == FrameAll(SealAll(a, key, n, flying)) + partial && |wire| >= 4
    requires Chunked(flying) && (partial == [] || exists len: nat :: 1 <= len <= MAX_FRAME && partial == BigEndian(len, 4))
    ensures 1 <= Value(wire[..4]) <= MAX_FRAME
    ensures BigEndian(Value(wire[..4]), 4) + wire[4..] == wire
  {
    Pow256Values();
    BigEndianOfValue(wire[..4]);
    if flying == [] {
      assert wire == partial;
      var len: nat :| 1 <= len <= MAX_FRAME && partial == BigEndian(len, 4);
      assert wire[..4] == BigEndian(len, 4);
      ValueOfBigEndian(len, 4);
    } else {
      var c := Seal(a, key, n, flying[0]);
      FrontRecord(a, key, n, flying, partial);
      assert wire[..4] == BigEndian(|c|, 4);
      ValueOfBigEndian(|c|, 4);
    }
  }

  lemma WireTakeHeader(a: Aead, key: Bytes, done: seq<Bytes>, w: Writer, n: nat, wire: Bytes, cap: nat)
    requires WireOk(a, key, done, Partial(w), n, wire, RLocked(cap)) && |wire| >= 4
    requires w.WHeader? ==> 1 <= |w.c| <= MAX_FRAME
    ensures 1 <= Value(wire[..4]) <= MAX_FRAME
    ensures WireOk(a, key, done, Partial(w), n, wire[4..], RHeader(cap, Value(wire[..4])))
  {
    var records := SealAll(a, key, n, done[n..]);
    assert [] + wire == wire;
    HeadIsLength(a, key, n, done[n..], Partial(w), wire);
  }

  lemma SameLength(len: nat, wire: Bytes, c: Bytes, tail: Bytes)
    requires len <= MAX_FRAME && |c| <= MAX_FRAME
    requires BigEndian(len, 4) + wire == Frame(c) + tail
    ensures len == |c| && wire == c + tail
  {
    Pow256Values();
    Assoc(BigEndian(|c|, 4), c, tail);
    assert (BigEndian(len, 4) + wire)[..4] == BigEndian(len, 4);
    assert (BigEndian(|c|, 4) + (c + tail))[..4] == BigEndian(|c|, 4);
    BigEndianInjective(len, |c|, 4);
    assert (BigEndian(len, 4) + wire)[4..] == wire;
    assert (BigEndian(len, 4) + (c + tail))[4..] == c + tail;
  }

  /** Once the payload is there, it is the payload of the record the counter waits for. */
  lemma WireTakePayload(a: Aead, key: Bytes, done: seq<Bytes>, partial: Bytes, n: nat, wire: Bytes, cap: nat, len: nat)
    requires WireOk(a, key, done, partial, n, wire, RHeader(cap, len)) && |wire| >= len && |partial| <= 4
    ensures WireOk(a, key, done, partial, n, wire[len..], RFrame(cap, wire[..len]))
  {
    var flying := done[n..];
    var records := SealAll(a, key, n, flying);
    assert |BigEndian(len, 4) + wire| > |partial|;
    assert flying != [];
    var c := Seal(a, key, n, flying[0]);
    FrontRecord(a, key, n, flying, partial);
    SameLength(len, wire, c, FrameAll(SealAll(a, key, n + 1, flying[1..])) + partial);
    assert wire[..len] == c;
    Assoc(BigEndian(len, 4), c, wire[len..]);
    assert wire == c + wire[len..];
  }

  lemma WireOpen(a: Aead, key: Bytes, done: seq<Bytes>, partial: Bytes, n: nat, wire: Bytes, cap: nat, c: Bytes, res: Result<Bytes>)
    requires WireOk(a, key, done, partial, n, wire, RFrame(cap, c))
    ensures WireOk(a, key, done, partial, n + 1, wire, RExit(res))
  {
    var flying := done[n..];
    var records := SealAll(a, key, n, flying);
    FrontRecord(a, key, n, flying, partial);
    assert flying[1..] == done[n + 1..];
    var rest := FrameAll(SealAll(a, key, n + 1, flying[1..])) + partial;
    assert (Frame(c) + wire)[|Frame(c)|..] == wire;
    assert (Frame(c) + rest)[|Frame(c)|..] == rest;
    assert [] + wire == wire;
  }

  lemma ReadBuffered(sealed: seq<Bytes>, n: nat, returned: Bytes, buf: Bytes, r: Caller, k: nat)
    requires ReadOk(sealed, n, returned, buf, r) && k <= |buf|
    ensures ReadOk(sealed, n, returned + buf[..k], buf[k..], RExit(Ok(buf[..k])))
  {
    Assoc(returned, buf[..k], buf[k..]);
    assert buf[..k] + buf[k..] == buf;
  }

  lemma ReadOpened(sealed: seq<Bytes>, n: nat, returned: Bytes, buf: Bytes, r: Caller, k: nat)
    requires ReadOk(sealed, n, returned, buf, r) && r.RFrame? && n < |sealed| && k <= |sealed[n]|
    ensures ReadOk(sealed, n + 1, returned + sealed[n][..k], sealed[n][k..], RExit(Ok(sealed[n][..k])))
  {
    var p := sealed[n];
    Assoc(returned, p[..k], p[k..]);
    assert p[..k] + p[k..] == p;
    ConcatSnoc(sealed[..n], p);
    assert sealed[..n + 1] == sealed[..n] + [p];
  }

  lemma CallerTakesHeader(a: Aead, key: Bytes, s: Shared, w: Writer, r: Caller, t: nat)
    requires SharedInv(a, key, s, w, r) && r.RLocked? && s.readBuf == [] && |s.wire| >= 4
    ensures var m := CallerStep(a, key, t, s, r); SharedInv(a, key, m.shared, w, m.pc)
  {
    WireTakeHeader(a, key, Complete(s.sealed, w), w, s.readSeq, s.wire, r.cap);
  }

  lemma CallerTakesPayload(a: Aead, key: Bytes, s: Shared, w: Writer, r: Caller, t: nat)
    requires SharedInv(a, key, s, w, r) && r.RHeader? && |s.wire| >= r.n
    ensures var m := CallerStep(a, key, t, s, r); SharedInv(a, key, m.shared, w, m.pc)
  {
    WireTakePayload(a, key, Complete(s.sealed, w), Partial(w), s.readSeq, s.wire, r.cap, r.n);
  }

  lemma CallerOpens(a: Aead, key: Bytes, s: Shared, w: Writer, r: Caller, t: nat)
    requires SharedInv(a, key, s, w, r) && r.RFrame?
    ensures var m := CallerStep(a, key, t, s, r); SharedInv(a, key, m.shared, w, m.pc)
  {
    var done, n := Complete(s.sealed, w), s.readSeq;
    var p := s.sealed[n];
    var k := Min(r.cap, |p|);
    assert CallerStep(a, key, t, s, r) ==
           RMove(s.(readSeq := n + 1, readBuf := p[k..], returned := s.returned + p[..k]), RExit(Ok(p[..k]))) by {
      assert done[n] == p;
      OpenSeal(a, key, n, p);
    }
    ReadOpened(s.sealed, n, s.returned, s.readBuf, r, k);
    WireOpen(a, key, done, Partial(w), n, s.wire, r.cap, r.c, Ok(p[..k]));
  }

  lemma CallerKeeps(a: Aead, key: Bytes, s: Shared, w: Writer, r: Caller, t: nat)
    requires SharedInv(a, key, s, w, r) && RInside(r)
    ensures var m := CallerStep(a, key, t, s, r); SharedInv(a, key, m.shared, w, m.pc)
  {
    if r.RLocked? {
      if s.readBuf != [] {
        ReadBuffered(s.sealed, s.readSeq, s.returned, s.readBuf, r, Min(r.cap, |s.readBuf|));
      } else if |s.wire| >= 4 {
        CallerTakesHeader(a, key, s, w, r, t);
      }
    } else if r.RHeader? {
      if |s.wire| >= r.n {
        CallerTakesPayload(a, key, s, w, r, t);
      }
    } else if r.RFrame? {
      CallerOpens(a, key, s, w, r, t);
    }
  }

  // ---------- every interleaving ----------

  /** No finished Read has an error. */
  ghost predicate AllReadsFine(s: System) {
    forall t :: t in s.callers && s.callers[t].RDone? ==> s.callers[t].result.Ok?
  }

  ghost predicate SystemInv(a: Aead, key: Bytes, s: System) {
    Exclusive(s) && AllReadsFine(s) && SharedInv(a, key, s.shared, ActiveWriter(s), ActiveCaller(s))
  }

  lemma ExclusiveKept(a: Aead, key: Bytes, s: System, e: Event)
    requires Exclusive(s)
    ensures Exclusive(Step(a, key, s, e))
  {
  }

  /** After a step of a thread outside the critical section, or of the one inside, who is active now. */
  lemma WriterActive(a: Aead, key: Bytes, s: System, t: nat)
    requires Exclusive(s) && t in s.writers
    ensures var s' := Step(a, key, s, WriterMoves(t));
            var pc := s.writers[t];
            && ActiveCaller(s') == ActiveCaller(s)
            && (WInside(pc) ==> ActiveWriter(s) == pc)
            && (WInside(pc) && !pc.WExit? ==> ActiveWriter(s') == WriterStep(a, key, t, s.shared, pc).pc)
            && (pc.WExit? ==> ActiveWriter(s') == WDone(0, None))
            && (pc.WWait? && s.shared.writeMu.None? ==> ActiveWriter(s) == WDone(0, None) && ActiveWriter(s') == WLoop(pc.b, 0))
            && (pc.WDone? || (pc.WWait? && s.shared.writeMu.Some?) ==> s' == s)
  {
    assert s.writers[t := s.writers[t]] == s.writers;
  }

  lemma CallerActive(a: Aead, key: Bytes, s: System, t: nat)
    requires Exclusive(s) && t in s.callers
    ensures var s' := Step(a, key, s, CallerMoves(t));
            var pc := s.callers[t];
            && ActiveWriter(s') == ActiveWriter(s)
            && (RInside(pc) ==> ActiveCaller(s) == pc)
            && (RInside(pc) && !pc.RExit? ==> ActiveCaller(s') == CallerStep(a, key, t, s.shared, pc).pc)
            && (pc.RExit? ==> ActiveCaller(s') == RDone(Ok([])))
            && (pc.RWait? && s.shared.readMu.None? ==> ActiveCaller(s') == RLocked(pc.cap) && ActiveCaller(s) == RDone(Ok([])))
            && (pc.RDone? || (pc.RWait? && s.shared.readMu.Some?) ==> s' == s)
  {
    assert s.callers[t := s.callers[t]] == s.callers;
  }

  lemma WriterMovesShared(a: Aead, key: Bytes, s: System, t: nat)
    requires Exclusive(s) && SharedInv(a, key, s.shared, ActiveWriter(s), ActiveCaller(s)) && t in s.writers
    ensures var s' := Step(a, key, s, WriterMoves(t)); SharedInv(a, key, s'.shared, ActiveWriter(s'), ActiveCaller(s'))
  {
    var pc, r := s.writers[t], ActiveCaller(s);
    WriterActive(a, key, s, t);
    if WInside(pc) {
      WriterKeeps(a, key, s.shared, pc, r, t);
    } else if pc.WWait? && s.shared.writeMu.None? {
      ContiguousLock(s.shared.written, s.shared.stream, s.shared.writeSeq, ActiveWriter(s), pc.b);
    }
  }

  lemma WriterMovesKeeps(a: Aead, key: Bytes, s: System, t: nat)
    requires SystemInv(a, key, s) && t in s.writers
    ensures SystemInv(a, key, Step(a, key, s, WriterMoves(t)))
  {
    ExclusiveKept(a, key, s, WriterMoves(t));
    WriterMovesShared(a, key, s, t);
  }

  lemma ReadLockShared(a: Aead, key: Bytes, h: Shared, w: Writer, cap: nat, t: nat)
    requires SharedInv(a, key, h, w, RDone(Ok([])))
    ensures SharedInv(a, key, h.(readMu := Some(t)), w, RLocked(cap))
  {
  }

  lemma ReadUnlockShared(a: Aead, key: Bytes, h: Shared, w: Writer, r: Caller)
    requires SharedInv(a, key, h, w, r) && r.RExit?
    ensures SharedInv(a, key, h.(readMu := None), w, RDone(Ok([])))
  {
  }

  lemma CallerMovesShared(a: Aead, key: Bytes, s: System, t: nat)
    requires Exclusive(s) && SharedInv(a, key, s.shared, ActiveWriter(s), ActiveCaller(s)) && t in s.callers
    ensures var s' := Step(a, key, s, CallerMoves(t)); SharedInv(a, key, s'.shared, ActiveWriter(s'), ActiveCaller(s'))
  {
    var pc, w := s.callers[t], ActiveWriter(s);
    CallerActive(a, key, s, t);
    if pc.RExit? {
      ReadUnlockShared(a, key, s.shared, w, pc);
    } else if RInside(pc) {
      CallerKeeps(a, key, s.shared, w, pc, t);
    } else if pc.RWait? && s.shared.readMu == None {
      ReadLockShared(a, key, s.shared, w, pc.cap, t);
    }
  }

  lemma CallerMovesKeeps(a: Aead, key: Bytes, s: System, t: nat)
    requires SystemInv(a, key, s) && t in s.callers
    ensures SystemInv(a, key, Step(a, key, s, CallerMoves(t)))
  {
    ExclusiveKept(a, key, s, CallerMoves(t));
    CallerMovesShared(a, key, s, t);
    CallerActive(a, key, s, t);
    FineKept(a, key, s, t);
  }

  lemma FineKept(a: Aead, key: Bytes, s: System, t: nat)
    requires Exclusive(s) && AllReadsFine(s) && t in s.callers
    requires s.callers[t].RExit? ==> s.callers[t].result.Ok?
    ensures AllReadsFine(Step(a, key, s, CallerMoves(t)))
  {
  }

  lemma StepKeeps(a: Aead, key: Bytes, s: System, e: Event)
    requires SystemInv(a, key, s)
    ensures SystemInv(a, key, Step(a, key, s, e))
  {
    if e.WriterMoves? {
      if e.t in s.writers { WriterMovesKeeps(a, key, s, e.t); }
    } else if e.CallerMoves? {
      if e.t in s.callers { CallerMovesKeeps(a, key, s, e.t); }
    } else {
      var s' := Step(a, key, s, e);
      assert ActiveWriter(s') == ActiveWriter(s) && ActiveCaller(s') == ActiveCaller(s);
    }
  }

  lemma {:induction false} RunKeeps(a: Aead, key: Bytes, es: seq<Event>)
    ensures SystemInv(a, key, Run(a, key, es))
  {
    if es == [] {
      var none: seq<Bytes> := [];
      assert none[0..] == none && none[..0] == none;
    } else {
      RunKeeps(a, key, es[..|es| - 1]);
      StepKeeps(a, key, Run(a, key, es[..|es| - 1]), es[|es| - 1]);
    }
  }

  lemma ReturnedIsPrefix(sealed: seq<Bytes>, n: nat, returned: Bytes, buf: Bytes, r: Caller)
    requires ReadOk(sealed, n, returned, buf, r)
    ensures returned <= Concat(sealed)
    ensures n == |sealed| && buf == [] ==> returned == Concat(sealed)
  {
    var past := sealed[..n];
    assert returned + buf == Concat(past);
    assert returned <= returned + buf;
    PastIsPrefix(sealed, n, past);
  }

  lemma PastIsPrefix(sealed: seq<Bytes>, n: nat, past: seq<Bytes>)
    requires n <= |sealed| && past == sealed[..n]
    ensures Concat(past) <= Concat(sealed)
    ensures n == |sealed| ==> past == sealed
  {
    ConcatAppend(past, sealed[n..]);
    assert sealed == past + sealed[n..];
  }

  lemma EmptyWire(a: Aead, key: Bytes, done: seq<Bytes>, n: nat, r: Caller)
    requires WireOk(a, key, done, [], n, [], r) && TakenOff(r) == []
    ensures n == |done|
  {
    var records := SealAll(a, key, n, done[n..]);
    assert FrameAll(records) + [] == FrameAll(records);
    assert records == [];
  }

  /** What the invariant of the shared fields says about the two streams. */
  lemma SharedStreams(a: Aead, key: Bytes, h: Shared, w: Writer, r: Caller)
    requires SharedInv(a, key, h, w, r)
    ensures h.stream <= h.written && h.stream == Concat(h.sealed) && h.returned <= h.stream
    ensures !MidCall(w) && h.writeSeq < MAX_SEQ ==> h.stream == h.written
    ensures !MidCall(w) && TakenOff(r) == [] && h.wire == [] && h.readBuf == [] ==> h.returned == h.stream
  {
    assert h.stream == Concat(h.sealed);
    ReturnedIsPrefix(h.sealed, h.readSeq, h.returned, h.readBuf, r);
    if !MidCall(w) && TakenOff(r) == [] && h.wire == [] {
      EmptyWire(a, key, h.sealed, h.readSeq, r);
    }
  }

  /**
   Every interleaving of any number of writers and readers: at most one thread is inside
   each call; the records are the Writes' data in lock order, each Write unbroken; Reads
   in lock order return a prefix of that; no Read fails; and when every call is over and
   the wire and the buffer are empty, everything written has been read.
   */
  lemma ConcurrentCallers(a: Aead, key: Bytes, es: seq<Event>)
    ensures var s := Run(a, key, es);
            var h := s.shared;
            && Exclusive(s) && AllReadsFine(s)
            && h.stream <= h.written && h.stream == Concat(h.sealed)
            && (h.writeMu == None && h.writeSeq < MAX_SEQ ==> h.stream == h.written)
            && h.returned <= h.written
            && (h.writeMu == None && h.readMu == None && h.wire == [] && h.readBuf == [] ==> h.returned == h.stream)
  {
    RunKeeps(a, key, es);
    var s := Run(a, key, es);
    SharedStreams(a, key, s.shared, ActiveWriter(s), ActiveCaller(s));
  }
}
