/** A thread of the step machine that is never interrupted does exactly what the methods of Conn do. */
module Solo {
  import opened ByteStrings
  import opened Primitives
  import opened Wire
  import opened Records
  import opened Concurrency

  function WriterRun(a: Aead, key: Bytes, t: nat, m: WMove, k: nat): WMove
    decreases k
  {
    if k == 0 then m else WriterRun(a, key, t, WriterStep(a, key, t, m.shared, m.pc), k - 1)
  }

  function CallerRun(a: Aead, key: Bytes, t: nat, m: RMove, k: nat): RMove
    decreases k
  {
    if k == 0 then m else CallerRun(a, key, t, CallerStep(a, key, t, m.shared, m.pc), k - 1)
  }

  /** The shared fields once the writer has sent `bytes`, sealing `ps`. */
  function AfterSend(s: Shared, n: nat, bytes: Bytes, ps: seq<Bytes>): Shared {
    s.(writeSeq := n, wire := s.wire + bytes, sealed := s.sealed + ps, stream := s.stream + Concat(ps))
  }

  /** After `k` steps from `w` bytes done, the writer has done exactly `r`. */
  ghost predicate Does(a: Aead, key: Bytes, t: nat, s: Shared, b: Bytes, w: nat, k: nat, r: Sent) {
    WriterRun(a, key, t, WMove(s, WLoop(b, w)), k) ==
    WMove(AfterSend(s, r.n, r.bytes, r.sealed), WExit(w + r.written, r.err))
  }

  /** Seal, header, payload: three steps put one whole record on the wire. */
  lemma OneRecord(a: Aead, key: Bytes, t: nat, s: Shared, b: Bytes, w: nat, chunk: Bytes, k: nat)
    requires w < |b| && s.writeSeq < MAX_SEQ && chunk == b[w..Min(w + MAX_PLAIN, |b|)]
    ensures var s' := AfterSend(s, s.writeSeq + 1, Frame(Seal(a, key, s.writeSeq, chunk)), [chunk]);
            WriterRun(a, key, t, WMove(s, WLoop(b, w)), k + 3) == WriterRun(a, key, t, WMove(s', WLoop(b, w + |chunk|)), k)
  {
    var c := Seal(a, key, s.writeSeq, chunk);
    var s1 := s.(writeSeq := s.writeSeq + 1, sealed := s.sealed + [chunk], stream := s.stream + chunk);
    var s2 := s1.(wire := s.wire + BigEndian(|c|, 4));
    ConcatOne(chunk);
    Assoc(s.wire, BigEndian(|c|, 4), c);
    assert WriterStep(a, key, t, s, WLoop(b, w)) == WMove(s1, WSealed(b, w, chunk, c));
    assert WriterStep(a, key, t, s1, WSealed(b, w, chunk, c)) == WMove(s2, WHeader(b, w, chunk, c));
    NextStep(a, key, t, WMove(s, WLoop(b, w)), k + 3);
    NextStep(a, key, t, WMove(s1, WSealed(b, w, chunk, c)), k + 2);
    NextStep(a, key, t, WMove(s2, WHeader(b, w, chunk, c)), k + 1);
  }

  lemma NextStep(a: Aead, key: Bytes, t: nat, m: WMove, k: nat)
    requires k > 0
    ensures WriterRun(a, key, t, m, k) == WriterRun(a, key, t, WriterStep(a, key, t, m.shared, m.pc), k - 1)
  {
  }

  lemma DoesMore(a: Aead, key: Bytes, t: nat, s: Shared, b: Bytes, w: nat, chunk: Bytes, k: nat, rest: Sent)
    requires w < |b| && s.writeSeq < MAX_SEQ && chunk == b[w..Min(w + MAX_PLAIN, |b|)]
    requires var s' := AfterSend(s, s.writeSeq + 1, Frame(Seal(a, key, s.writeSeq, chunk)), [chunk]);
             Does(a, key, t, s', b, w + |chunk|, k, rest)
    ensures Does(a, key, t, s, b, w, k + 3, Then([chunk], Frame(Seal(a, key, s.writeSeq, chunk)), rest))
  {
    OneRecord(a, key, t, s, b, w, chunk, k);
    AfterBoth(s, s.writeSeq + 1, Frame(Seal(a, key, s.writeSeq, chunk)), [chunk], rest);
    ConcatOne(chunk);
  }

  lemma AfterBoth(s: Shared, n: nat, bytes: Bytes, ps: seq<Bytes>, rest: Sent)
    ensures AfterSend(AfterSend(s, n, bytes, ps), rest.n, rest.bytes, rest.sealed)
         == AfterSend(s, rest.n, bytes + rest.bytes, ps + rest.sealed)
  {
    Assoc(s.wire, bytes, rest.bytes);
    assert s.sealed + ps + rest.sealed == s.sealed + (ps + rest.sealed);
    ConcatAppend(ps, rest.sealed);
    Assoc(s.stream, Concat(ps), Concat(rest.sealed));
  }

  lemma DoesNothing(a: Aead, key: Bytes, t: nat, s: Shared, b: Bytes, w: nat)
    requires w == |b| || (w < |b| && s.writeSeq == MAX_SEQ)
    ensures Does(a, key, t, s, b, w, 1, Sent(s.writeSeq, [], [], [], 0, if w == |b| then None else Some(SequenceExhausted)))
  {
    assert AfterSend(s, s.writeSeq, [], []) == s;
    var m := WMove(s, WLoop(b, w));
    assert WriterRun(a, key, t, m, 1) == WriterRun(a, key, t, WriterStep(a, key, t, s, WLoop(b, w)), 0);
  }

  /** What Write does with the bytes from `w` on, when nothing fails. */
  ghost predicate Rest(a: Aead, key: Bytes, n: nat, b: Bytes, w: nat, r: Sent)
    requires n <= MAX_SEQ && w <= |b|
  {
    forall tail :: tail == b[w..] ==> r == Send(a, key, n, [], tail)
  }

  /** Write without transport errors, unfolded once. */
  lemma RestTurn(a: Aead, key: Bytes, n: nat, b: Bytes, w: nat, chunk: Bytes, r: Sent) returns (rest: Sent)
    requires w < |b| && n < MAX_SEQ && chunk == b[w..Min(w + MAX_PLAIN, |b|)] && Rest(a, key, n, b, w, r)
    ensures Rest(a, key, n + 1, b, w + |chunk|, rest) && r == Then([chunk], Frame(Seal(a, key, n, chunk)), rest)
  {
    var c, end := Seal(a, key, n, chunk), w + |chunk|;
    rest := Send(a, key, n + 1, [], b[end..]);
    EmitFramePrefix(c, []);
    SendTurn(a, key, n, [], b, w, end, chunk, EmitFrame(c, []));
  }

  lemma RestStop(a: Aead, key: Bytes, n: nat, b: Bytes, w: nat, r: Sent)
    requires n <= MAX_SEQ && w <= |b| && (w == |b| || n == MAX_SEQ) && Rest(a, key, n, b, w, r)
    ensures r == Sent(n, [], [], [], 0, if w == |b| then None else Some(SequenceExhausted))
  {
    assert r == Send(a, key, n, [], b[w..]);
  }

  lemma {:induction false} SoloLoop(a: Aead, key: Bytes, t: nat, s: Shared, b: Bytes, w: nat, r: Sent) returns (k: nat)
    requires w <= |b| && s.writeSeq <= MAX_SEQ && Rest(a, key, s.writeSeq, b, w, r)
    ensures Does(a, key, t, s, b, w, k, r)
    decreases |b| - w
  {
    if w == |b| || s.writeSeq == MAX_SEQ {
      k := 1;
      RestStop(a, key, s.writeSeq, b, w, r);
      DoesNothing(a, key, t, s, b, w);
    } else {
      var chunk := b[w..Min(w + MAX_PLAIN, |b|)];
      var s' := AfterSend(s, s.writeSeq + 1, Frame(Seal(a, key, s.writeSeq, chunk)), [chunk]);
      var rest := RestTurn(a, key, s.writeSeq, b, w, chunk, r);
      var j := SoloLoop(a, key, t, s', b, w + |chunk|, rest);
      DoesMore(a, key, t, s, b, w, chunk, j, rest);
      k := j + 3;
    }
  }

  /** The writer's steps, uninterrupted, do what Write does in one call. */
  lemma SoloWrite(a: Aead, key: Bytes, t: nat, s: Shared, b: Bytes) returns (k: nat)
    requires s.writeSeq <= MAX_SEQ
    ensures Does(a, key, t, s, b, 0, k, Send(a, key, s.writeSeq, [], b))
  {
    assert b[0..] == b;
    k := SoloLoop(a, key, t, s, b, 0, Send(a, key, s.writeSeq, [], b));
  }

  /** The reader's steps, uninterrupted, do what Read does in one call, whenever Read would not run out of stream. */
  lemma SoloRead(a: Aead, key: Bytes, t: nat, s: Shared, cap: nat) returns (k: nat)
    requires ReadStep(a, key, Reader(s.readSeq, s.readBuf), s.wire, cap).result != Err(EndOfStream)
    ensures var d := ReadStep(a, key, Reader(s.readSeq, s.readBuf), s.wire, cap);
            var got := if d.result.Ok? then d.result.value else [];
            CallerRun(a, key, t, RMove(s, RLocked(cap)), k) ==
            RMove(s.(readSeq := d.reader.n, readBuf := d.reader.buf, wire := d.rest, returned := s.returned + got), RExit(d.result))
  {
    var s1, pc1 := CallerStep(a, key, t, s, RLocked(cap)).shared, CallerStep(a, key, t, s, RLocked(cap)).pc;
    var m1 := RMove(s1, pc1);
    assert CallerRun(a, key, t, RMove(s, RLocked(cap)), 1) == CallerRun(a, key, t, m1, 0) == m1;
    assert s.returned + [] == s.returned;
    if pc1.RExit? {
      k := 1;
    } else {
      var n := Value(s.wire[..4]);
      var m2 := CallerStep(a, key, t, s1, pc1);
      var m3 := CallerStep(a, key, t, m2.shared, m2.pc);
      assert CallerRun(a, key, t, m1, 2) == CallerRun(a, key, t, m2, 1) == m3;
      assert s.wire[4..][..n] == s.wire[4..4 + n] && s.wire[4..][n..] == s.wire[4 + n..];
      k := 3;
    }
  }

  lemma {:induction false} LastStep(a: Aead, key: Bytes, t: nat, m: WMove, k: nat)
    ensures var n := WriterRun(a, key, t, m, k);
            WriterRun(a, key, t, m, k + 1) == WriterStep(a, key, t, n.shared, n.pc)
    decreases k
  {
    if k > 0 {
      LastStep(a, key, t, WriterStep(a, key, t, m.shared, m.pc), k - 1);
    } else {
      NextStep(a, key, t, m, 1);
    }
  }

  lemma {:induction false} LastReadStep(a: Aead, key: Bytes, t: nat, m: RMove, k: nat)
    ensures var n := CallerRun(a, key, t, m, k);
            CallerRun(a, key, t, m, k + 1) == CallerStep(a, key, t, n.shared, n.pc)
    decreases k
  {
    if k > 0 {
      LastReadStep(a, key, t, CallerStep(a, key, t, m.shared, m.pc), k - 1);
    } else {
      assert CallerRun(a, key, t, m, 1) == CallerRun(a, key, t, CallerStep(a, key, t, m.shared, m.pc), 0);
    }
  }

  /** From a free lock to a free lock: the whole Write, with its count and error. */
  lemma WholeWrite(a: Aead, key: Bytes, t: nat, s: Shared, b: Bytes) returns (k: nat)
    requires s.writeSeq <= MAX_SEQ && s.writeMu == None
    ensures var r := Send(a, key, s.writeSeq, [], b);
            WriterRun(a, key, t, WMove(s, WWait(b)), k) ==
            WMove(AfterSend(s.(written := s.written + b), r.n, r.bytes, r.sealed), WDone(r.written, r.err))
  {
    var s1 := s.(writeMu := Some(t), written := s.written + b);
    var j := SoloWrite(a, key, t, s1, b);
    NextStep(a, key, t, WMove(s, WWait(b)), j + 1);
    LastStep(a, key, t, WMove(s, WWait(b)), j + 1);
    k := j + 2;
  }

  /** The same for a Read that would not run out of stream. */
  lemma WholeRead(a: Aead, key: Bytes, t: nat, s: Shared, cap: nat) returns (k: nat)
    requires s.readMu == None
    requires ReadStep(a, key, Reader(s.readSeq, s.readBuf), s.wire, cap).result != Err(EndOfStream)
    ensures var d := ReadStep(a, key, Reader(s.readSeq, s.readBuf), s.wire, cap);
            var got := if d.result.Ok? then d.result.value else [];
            CallerRun(a, key, t, RMove(s, RWait(cap)), k) ==
            RMove(s.(readSeq := d.reader.n, readBuf := d.reader.buf, wire := d.rest, returned := s.returned + got), RDone(d.result))
  {
    var s1 := s.(readMu := Some(t));
    var j := SoloRead(a, key, t, s1, cap);
    assert CallerRun(a, key, t, RMove(s, RWait(cap)), j + 1) == CallerRun(a, key, t, RMove(s1, RLocked(cap)), j);
    LastReadStep(a, key, t, RMove(s, RWait(cap)), j + 1);
    k := j + 2;
  }
}
