/** One direction of a connection over a wire that delivers every byte in order. */
module Streams {
  import opened ByteStrings
  import opened Primitives
  import opened Wire
  import opened Records

  // ---------- buffered reads and record-at-a-time receives ----------

  /** The state, the stream and the bytes obtained after some calls. */
  datatype Progress = Progress(reader: Reader, rest: Bytes, got: Bytes)

  /** Go: a list of Reads with the given buffer sizes, carrying on after errors. */
  function Reads(a: Aead, key: Bytes, r: Reader, incoming: Bytes, caps: seq<nat>): Progress
    decreases |caps|
  {
    if caps == [] then Progress(r, incoming, [])
    else
      var d := ReadStep(a, key, r, incoming, caps[0]);
      var more := Reads(a, key, d.reader, d.rest, caps[1..]);
      more.(got := (if d.result.Ok? then d.result.value else []) + more.got)
  }

  /** TypeScript and Python: `k` receives, carrying on after errors. */
  function Recvs(a: Aead, key: Bytes, n: nat, incoming: Bytes, k: nat): Progress
    decreases k
  {
    if k == 0 then Progress(Reader(n, []), incoming, [])
    else
      var r := Receive(a, key, n, incoming);
      var more := Recvs(a, key, r.n, r.rest, k - 1);
      more.(got := (if r.result.Ok? then r.result.value else []) + more.got)
  }

  /**
   On every stream, hostile ones included, and for all buffer sizes: the bytes Go's
   Reads have returned or buffered are those of some number of whole-record receives,
   which leave the same counter and the same stream.
   */
  lemma {:induction false} BufferedEqualsRecordwise(a: Aead, key: Bytes, r: Reader, incoming: Bytes, caps: seq<nat>)
    returns (k: nat)
    ensures k <= |caps|
    ensures var x, y := Reads(a, key, r, incoming, caps), Recvs(a, key, r.n, incoming, k);
            x.reader.n == y.reader.n && x.rest == y.rest && x.got + x.reader.buf == r.buf + y.got
    decreases |caps|
  {
    if caps == [] {
      k := 0;
    } else {
      var d := ReadStep(a, key, r, incoming, caps[0]);
      ReadSplits(a, key, r, incoming, caps[0]);
      var m := BufferedEqualsRecordwise(a, key, d.reader, d.rest, caps[1..]);
      var got := if d.result.Ok? then d.result.value else [];
      var x, y := Reads(a, key, d.reader, d.rest, caps[1..]), Recvs(a, key, d.reader.n, d.rest, m);
      Assoc(got, x.got, x.reader.buf);
      Assoc(got, d.reader.buf, y.got);
      k := if r.buf != [] then m else m + 1;
      assert r.buf == [] ==> r.buf + Recvs(a, key, r.n, incoming, m + 1).got == Recvs(a, key, r.n, incoming, m + 1).got;
    }
  }

  // ---------- conservation over whole calls ----------

  datatype Event = Write(data: Bytes) | Read(cap: nat)

  /** Writer counter, wire, reader, and the histories: plaintexts sealed, bytes reported written, bytes read, any failed Read. */
  datatype Pipe = Pipe(n: nat, wire: Bytes, reader: Reader, sealed: seq<Bytes>, sent: Bytes, delivered: Bytes, failed: bool)

  const EMPTY: Pipe := Pipe(0, [], Reader(0, []), [], [], [], false)

  /** A Read with nothing buffered waits while the wire is empty. */
  function Step(a: Aead, key: Bytes, s: Pipe, e: Event): Pipe
    requires s.n <= MAX_SEQ
  {
    match e
    case Write(data) =>
      var r := Send(a, key, s.n, [], data);
      WriteAccounting(a, key, s.n, [], data);
      s.(n := r.n, wire := s.wire + r.bytes, sealed := s.sealed + r.sealed, sent := s.sent + data[..r.written])
    case Read(cap) =>
      if s.reader.buf == [] && s.wire == [] then s
      else
        var d := ReadStep(a, key, s.reader, s.wire, cap);
        match d.result
        case Err(_) => s.(wire := d.rest, failed := true)
        case Ok(got) => s.(wire := d.rest, reader := d.reader, delivered := s.delivered + got)
  }

  function Run(a: Aead, key: Bytes, es: seq<Event>): (s: Pipe)
    ensures s.n <= MAX_SEQ
  {
    if es == [] then EMPTY
    else
      var before := Run(a, key, es[..|es| - 1]);
      assert es[|es| - 1].Write? ==> Send(a, key, before.n, [], es[|es| - 1].data).n <= MAX_SEQ by {
        if es[|es| - 1].Write? { WriteAccounting(a, key, before.n, [], es[|es| - 1].data); }
      }
      Step(a, key, before, es[|es| - 1])
  }

  /** The records sealed and not yet taken off the wire. */
  function InFlight(s: Pipe): seq<Bytes>
    requires s.reader.n <= |s.sealed|
  {
    s.sealed[s.reader.n..]
  }

  ghost predicate Inv(a: Aead, key: Bytes, s: Pipe) {
    && !s.failed
    && Chunked(s.sealed)
    && s.reader.n <= |s.sealed| == s.n <= MAX_SEQ
    && s.sent == Concat(s.sealed)
    && s.delivered + s.reader.buf == Concat(s.sealed[..s.reader.n])
    && s.wire == FrameAll(SealAll(a, key, s.reader.n, InFlight(s)))
  }

  lemma {:induction false} NoTransportError(a: Aead, key: Bytes, n: nat, b: Bytes)
    requires n <= MAX_SEQ
    ensures Send(a, key, n, [], b).err != Some(Transport)
    decreases |b|
  {
    if b != [] && n < MAX_SEQ {
      EmitFramePrefix(Seal(a, key, n, b[..Min(MAX_PLAIN, |b|)]), []);
      NoTransportError(a, key, n + 1, b[Min(MAX_PLAIN, |b|)..]);
    }
  }

  /** On a wire that accepts everything a call leaves exactly its records there. */
  lemma CleanSend(a: Aead, key: Bytes, n: nat, b: Bytes)
    requires n <= MAX_SEQ
    ensures var r := Send(a, key, n, [], b);
            && r.bytes == FrameAll(SealAll(a, key, n, r.sealed))
            && r.written <= |b| && Concat(r.sealed) == b[..r.written]
            && r.n == n + |r.sealed| <= MAX_SEQ && Chunked(r.sealed)
  {
    WriteAccounting(a, key, n, [], b);
    NoTransportError(a, key, n, b);
  }

  lemma FlyMore(a: Aead, key: Bytes, n: nat, sealed: seq<Bytes>, more: seq<Bytes>)
    requires n <= |sealed|
    ensures FrameAll(SealAll(a, key, n, (sealed + more)[n..])) ==
            FrameAll(SealAll(a, key, n, sealed[n..])) + FrameAll(SealAll(a, key, |sealed|, more))
  {
    assert (sealed + more)[n..] == sealed[n..] + more;
    SealAllAppend(a, key, n, sealed[n..], more);
    FrameAllAppend(SealAll(a, key, n, sealed[n..]), SealAll(a, key, |sealed|, more));
  }

  /** The pipe after `more` plaintexts were sealed and left as `bytes`. */
  lemma InvSend(a: Aead, key: Bytes, s: Pipe, n: nat, bytes: Bytes, more: seq<Bytes>, data: Bytes)
    requires Inv(a, key, s) && n == s.n + |more| <= MAX_SEQ && Chunked(more)
    requires bytes == FrameAll(SealAll(a, key, s.n, more)) && data == Concat(more)
    ensures Inv(a, key, s.(n := n, wire := s.wire + bytes, sealed := s.sealed + more, sent := s.sent + data))
  {
    ConcatAppend(s.sealed, more);
    FlyMore(a, key, s.reader.n, s.sealed, more);
    SamePast(s.sealed, more, s.reader.n);
  }

  lemma SamePast(sealed: seq<Bytes>, more: seq<Bytes>, n: nat)
    requires n <= |sealed|
    ensures (sealed + more)[..n] == sealed[..n]
  {
  }

  lemma InvWrite(a: Aead, key: Bytes, s: Pipe, data: Bytes)
    requires Inv(a, key, s)
    ensures Inv(a, key, Step(a, key, s, Write(data)))
  {
    var r := Send(a, key, s.n, [], data);
    CleanSend(a, key, s.n, data);
    InvSend(a, key, s, r.n, r.bytes, r.sealed, data[..r.written]);
  }

  /** With records in flight, the next receive succeeds with the oldest of them. */
  lemma NextRecord(a: Aead, key: Bytes, n: nat, flying: seq<Bytes>)
    requires flying != [] && Chunked(flying) && n + |flying| <= MAX_SEQ
    ensures Receive(a, key, n, FrameAll(SealAll(a, key, n, flying))) ==
            Received(Ok(flying[0]), n + 1, FrameAll(SealAll(a, key, n + 1, flying[1..])))
  {
    var c := Seal(a, key, n, flying[0]);
    var rest := FrameAll(SealAll(a, key, n + 1, flying[1..]));
    assert flying == [flying[0]] + flying[1..];
    FramesOfCons(a, key, n, flying[0], flying[1..]);
    TakeFrameExact(Frame(c) + rest, c, rest);
    OpenSeal(a, key, n, flying[0]);
  }

  /** A Read that hands over buffered bytes. */
  lemma InvBuffered(a: Aead, key: Bytes, s: Pipe, got: Bytes, buf: Bytes)
    requires Inv(a, key, s) && got + buf == s.reader.buf
    ensures Inv(a, key, s.(reader := Reader(s.reader.n, buf), delivered := s.delivered + got))
  {
    Assoc(s.delivered, got, buf);
  }

  /** A Read that takes the next record off the wire. */
  lemma InvRecord(a: Aead, key: Bytes, s: Pipe, got: Bytes, buf: Bytes, wire: Bytes)
    requires Inv(a, key, s) && s.reader.buf == [] && s.reader.n < |s.sealed| && got + buf == s.sealed[s.reader.n]
    requires wire == FrameAll(SealAll(a, key, s.reader.n + 1, s.sealed[s.reader.n + 1..]))
    ensures Inv(a, key, s.(wire := wire, reader := Reader(s.reader.n + 1, buf), delivered := s.delivered + got))
  {
    var n := s.reader.n;
    assert s.sealed[..n + 1] == s.sealed[..n] + [s.sealed[n]];
    ConcatSnoc(s.sealed[..n], s.sealed[n]);
    Assoc(s.delivered, got, buf);
    assert s.delivered + [] == s.delivered;
  }

  lemma InvRead(a: Aead, key: Bytes, s: Pipe, cap: nat)
    requires Inv(a, key, s)
    ensures Inv(a, key, Step(a, key, s, Read(cap)))
  {
    if s.reader.buf != [] || s.wire != [] {
      var d := ReadStep(a, key, s.reader, s.wire, cap);
      ReadSplits(a, key, s.reader, s.wire, cap);
      if s.reader.buf != [] {
        InvBuffered(a, key, s, d.result.value, d.reader.buf);
      } else {
        var flying := InFlight(s);
        assert flying != [];
        NextRecord(a, key, s.reader.n, flying);
        assert flying[1..] == s.sealed[s.reader.n + 1..];
        InvRecord(a, key, s, d.result.value, d.reader.buf, d.rest);
      }
    }
  }

  lemma {:induction false} InvRun(a: Aead, key: Bytes, es: seq<Event>)
    ensures Inv(a, key, Run(a, key, es))
  {
    if es == [] {
      assert EMPTY.sealed[0..] == [];
    } else {
      var front := es[..|es| - 1];
      InvRun(a, key, front);
      match es[|es| - 1]
      case Write(data) => InvWrite(a, key, Run(a, key, front), data);
      case Read(cap) => InvRead(a, key, Run(a, key, front), cap);
    }
  }

  /**
   Conservation: after any calls, what was delivered, what is buffered and the
   plaintexts in flight are together everything written; the wire holds exactly the
   records in flight; no Read has failed; and a drained connection has lost nothing.
   */
  lemma StreamConservation(a: Aead, key: Bytes, es: seq<Event>)
    ensures var s := Run(a, key, es);
            && s.reader.n <= |s.sealed|
            && s.delivered + s.reader.buf + Concat(InFlight(s)) == s.sent
            && s.wire == FrameAll(SealAll(a, key, s.reader.n, InFlight(s)))
            && !s.failed
            && (s.wire == [] && s.reader.buf == [] ==> s.delivered == s.sent)
  {
    InvRun(a, key, es);
    var s := Run(a, key, es);
    assert s.sealed == s.sealed[..s.reader.n] + InFlight(s);
    ConcatAppend(s.sealed[..s.reader.n], InFlight(s));
    if InFlight(s) != [] {
      assert s.wire != [];
    }
  }

  // ---------- progress ----------

  ghost predicate Positive(caps: seq<nat>) {
    forall i :: 0 <= i < |caps| ==> caps[i] > 0
  }

  function ReadEvents(caps: seq<nat>): (es: seq<Event>)
    ensures |es| == |caps|
  {
    seq(|caps|, i requires 0 <= i < |caps| => Read(caps[i]))
  }

  /** How many bytes are written and not yet delivered. */
  function Outstanding(s: Pipe): int {
    |s.sent| - |s.delivered|
  }

  lemma PrefixKept(a: Aead, key: Bytes, s: Pipe)
    requires Inv(a, key, s)
    ensures s.delivered <= s.sent
    ensures s.wire == [] && s.reader.buf == [] ==> s.delivered == s.sent
  {
    var n := s.reader.n;
    assert s.sealed == s.sealed[..n] + InFlight(s);
    ConcatAppend(s.sealed[..n], InFlight(s));
    if InFlight(s) != [] {
      assert s.wire != [];
    }
  }

  /** A Read with room for one byte or more delivers one or more, as long as any are outstanding. */
  lemma ReadDelivers(a: Aead, key: Bytes, s: Pipe, cap: nat)
    requires Inv(a, key, s) && cap > 0 && s.delivered != s.sent
    ensures Inv(a, key, Step(a, key, s, Read(cap)))
    ensures var s' := Step(a, key, s, Read(cap)); s'.sent == s.sent && Outstanding(s') < Outstanding(s)
  {
    InvRead(a, key, s, cap);
    PrefixKept(a, key, s);
    ReadKeepsBytes(a, key, s.reader, s.wire, cap);
    if s.reader.buf == [] {
      assert InFlight(s) != [];
      NextRecord(a, key, s.reader.n, InFlight(s));
    }
  }

  /** Once everything is delivered, further Reads change nothing that was delivered. */
  lemma ReadStays(a: Aead, key: Bytes, s: Pipe, cap: nat)
    requires Inv(a, key, s) && s.delivered == s.sent
    ensures var s' := Step(a, key, s, Read(cap)); Inv(a, key, s') && s'.sent == s.sent == s'.delivered
  {
    InvRead(a, key, s, cap);
    PrefixKept(a, key, Step(a, key, s, Read(cap)));
  }

  /** The pipe after some Reads. */
  function AfterReads(a: Aead, key: Bytes, s: Pipe, caps: seq<nat>): Pipe
    requires s.n <= MAX_SEQ
    decreases |caps|
  {
    if caps == [] then s else AfterReads(a, key, Step(a, key, s, Read(caps[0])), caps[1..])
  }

  lemma {:induction false} AfterReadsIsRun(a: Aead, key: Bytes, es: seq<Event>, caps: seq<nat>)
    ensures AfterReads(a, key, Run(a, key, es), caps) == Run(a, key, es + ReadEvents(caps))
    decreases |caps|
  {
    if caps == [] {
      assert es + ReadEvents(caps) == es;
    } else {
      var next := es + [Read(caps[0])];
      assert next[..|es|] == es;
      assert es + ReadEvents(caps) == next + ReadEvents(caps[1..]);
      AfterReadsIsRun(a, key, next, caps[1..]);
    }
  }

  lemma {:induction false} DrainsFrom(a: Aead, key: Bytes, s: Pipe, caps: seq<nat>)
    requires Inv(a, key, s) && Positive(caps) && |caps| >= Outstanding(s)
    ensures var s' := AfterReads(a, key, s, caps); s'.delivered == s'.sent == s.sent
    decreases |caps|
  {
    PrefixKept(a, key, s);
    if caps != [] {
      if s.delivered == s.sent {
        ReadStays(a, key, s, caps[0]);
      } else {
        ReadDelivers(a, key, s, caps[0]);
      }
      DrainsFrom(a, key, Step(a, key, s, Read(caps[0])), caps[1..]);
    }
  }

  /**
   Progress: after any calls, Reads of any positive sizes, as many as bytes are
   outstanding or more, deliver everything written.
   */
  lemma Drains(a: Aead, key: Bytes, es: seq<Event>, caps: seq<nat>)
    requires Positive(caps) && |caps| >= Outstanding(Run(a, key, es))
    ensures var s := Run(a, key, es + ReadEvents(caps));
            s.delivered == s.sent == Run(a, key, es).sent
  {
    InvRun(a, key, es);
    DrainsFrom(a, key, Run(a, key, es), caps);
    AfterReadsIsRun(a, key, es, caps);
  }
}
