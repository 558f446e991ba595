/** Length-prefixed frames over a byte stream (wire.go), and the Python reader over fragmented reads. */
module Wire {
  import opened ByteStrings

  const MAX_FRAME: nat := 0x10_0000

  // ---------- what a transport may do ----------

  /** How one write on the transport ends: all bytes sent, or an error after at most `sent` of them. */
  datatype Outcome = Accept | Fail(sent: nat)

  /** The bytes that left, whether the call succeeded, and the outcomes still to come. */
  datatype Emission = Emission(bytes: Bytes, err: Option<Error>, plan: seq<Outcome>)

  function Emit(p: Bytes, plan: seq<Outcome>): Emission {
    if plan == [] then Emission(p, None, plan)
    else match plan[0]
      case Accept => Emission(p, None, plan[1..])
      case Fail(k) => Emission(p[..Min(k, |p|)], Some(Transport), plan[1..])
  }

  /**
   One end of a connection.  `incoming` holds every byte the transport will still
   deliver before it ends; `plan` holds the outcomes of the coming writes, each
   of which succeeds once the plan is used up.  Quantifying over both fields
   quantifies over every behaviour of the network.
   */
  class Duplex {
    var incoming: Bytes
    var sent: Bytes
    var plan: seq<Outcome>

    constructor (incoming: Bytes, plan: seq<Outcome>)
      ensures this.incoming == incoming && sent == [] && this.plan == plan
    {
      this.incoming := incoming;
      sent := [];
      this.plan := plan;
    }

    /** io.ReadFull: all `n` bytes, or an error that has used up the stream. */
    method ReadFull(n: nat) returns (r: Option<Bytes>)
      modifies this`incoming
      ensures r.Some? <==> n <= |old(incoming)|
      ensures r.Some? ==> |r.value| == n && old(incoming) == r.value + incoming
      ensures r.None? ==> incoming == []
    {
      if |incoming| < n {
        incoming := [];
        return None;
      }
      r := Some(incoming[..n]);
      incoming := incoming[n..];
    }

    method Write(p: Bytes) returns (err: Option<Error>)
      modifies this`sent, this`plan
      ensures var e := Emit(p, old(plan));
              err == e.err && sent == old(sent) + e.bytes && plan == e.plan
    {
      var e := Emit(p, plan);
      sent := sent + e.bytes;
      plan := e.plan;
      err := e.err;
    }
  }

  // ---------- frames ----------

  function Frame(p: Bytes): (f: Bytes)
    ensures |f| == 4 + |p|
  {
    BigEndian(|p|, 4) + p
  }

  ghost predicate Framable(p: Bytes) {
    1 <= |p| <= MAX_FRAME
  }

  ghost predicate AllFramable(ps: seq<Bytes>) {
    forall i :: 0 <= i < |ps| ==> Framable(ps[i])
  }

  /** What writeFrame puts on the wire: header and payload are two separate writes. */
  function EmitFrame(p: Bytes, plan: seq<Outcome>): Emission {
    if |p| > MAX_FRAME then Emission([], Some(MessageTooLarge), plan)
    else
      var h := Emit(BigEndian(|p|, 4), plan);
      if h.err.Some? then h
      else
        var b := Emit(p, h.plan);
        Emission(h.bytes + b.bytes, b.err, b.plan)
  }

  /** Whatever goes wrong, the bytes that left are a prefix of the frame, and all of it on success. */
  lemma EmitFramePrefix(p: Bytes, plan: seq<Outcome>)
    ensures var e := EmitFrame(p, plan);
            && e.bytes <= Frame(p)
            && (e.err == None <==> |p| <= MAX_FRAME && e.err != Some(Transport))
            && (e.err == None ==> e.bytes == Frame(p))
            && (e.err == Some(MessageTooLarge) <==> |p| > MAX_FRAME)
  {
    var h := Emit(BigEndian(|p|, 4), plan);
    assert h.bytes <= BigEndian(|p|, 4);
    if |p| <= MAX_FRAME && h.err == None {
      var b := Emit(p, h.plan);
      assert b.bytes <= p;
      assert BigEndian(|p|, 4) + b.bytes <= Frame(p);
    }
  }

  method WriteFrame(conn: Duplex, p: Bytes) returns (err: Option<Error>)
    modifies conn`sent, conn`plan
    ensures var e := EmitFrame(p, old(conn.plan));
            err == e.err && conn.sent == old(conn.sent) + e.bytes && conn.plan == e.plan
  {
    if |p| > MAX_FRAME {
      return Some(MessageTooLarge);
    }
    err := conn.Write(BigEndian(|p|, 4));
    if err.Some? {
      return;
    }
    err := conn.Write(p);
  }

  /** The outcome of one readFrame on a stream: its result and the bytes left. */
  datatype Taken = Taken(result: Result<Bytes>, rest: Bytes)

  function TakeFrame(s: Bytes): Taken {
    if |s| < 4 then Taken(Err(EndOfStream), [])
    else
      var n := Value(s[..4]);
      if n > MAX_FRAME then Taken(Err(MessageTooLarge), s[4..])
      else if n == 0 then Taken(Err(InvalidWireFormat), s[4..])
      else if |s| < 4 + n then Taken(Err(EndOfStream), [])
      else Taken(Ok(s[4..4 + n]), s[4 + n..])
  }

  method ReadFrame(conn: Duplex) returns (r: Result<Bytes>)
    modifies conn`incoming
    ensures Taken(r, conn.incoming) == TakeFrame(old(conn.incoming))
  {
    var hdr := conn.ReadFull(4);
    if hdr.None? {
      return Err(EndOfStream);
    }
    assert hdr.value == old(conn.incoming)[..4] && conn.incoming == old(conn.incoming)[4..];
    var n := Value(hdr.value);
    if n > MAX_FRAME {
      return Err(MessageTooLarge);
    }
    if n == 0 {
      return Err(InvalidWireFormat);
    }
    var buf := conn.ReadFull(n);
    if buf.None? {
      return Err(EndOfStream);
    }
    assert buf.value == old(conn.incoming)[4..4 + n] && conn.incoming == old(conn.incoming)[4 + n..];
    r := Ok(buf.value);
  }

  /** readFrame returns `p` and leaves `rest` exactly when the stream is the frame of `p` followed by `rest`. */
  lemma TakeFrameExact(s: Bytes, p: Bytes, rest: Bytes)
    ensures TakeFrame(s) == Taken(Ok(p), rest) <==> Framable(p) && s == Frame(p) + rest
  {
    Pow256Values();
    if TakeFrame(s) == Taken(Ok(p), rest) {
      BigEndianOfValue(s[..4]);
      assert s == s[..4] + s[4..4 + |p|] + s[4 + |p|..];
    }
    if Framable(p) && s == Frame(p) + rest {
      ValueOfBigEndian(|p|, 4);
      assert s[..4] == BigEndian(|p|, 4);
      assert s[4..4 + |p|] == p;
      assert s[4 + |p|..] == rest;
    }
  }

  /** The bytes of a frame: four of length, most significant first, then the payload. */
  lemma FrameLayout(p: Bytes)
    ensures var n := |p|;
            Frame(p)[..4] == [n / 0x100_0000 % 256, n / 0x1_0000 % 256, n / 0x100 % 256, n % 256] && Frame(p)[4..] == p
  {
    FourBytes(|p|);
  }

  /** The header that announces `n` bytes. */
  ghost predicate Announces(s: Bytes, n: nat) {
    n < 0x1_0000_0000 && BigEndian(n, 4) <= s
  }

  lemma AnnouncedLength(s: Bytes, n: nat)
    ensures Announces(s, n) <==> |s| >= 4 && Value(s[..4]) == n
  {
    Pow256Values();
    if |s| >= 4 {
      BigEndianOfValue(s[..4]);
    }
    if Announces(s, n) {
      assert s[..4] == BigEndian(n, 4);
      ValueOfBigEndian(n, 4);
    }
  }

  /**
   The error classes, in terms of frames: a stream ends early when it is shorter than a
   header or the beginning of a legal frame; the other two errors depend on the header alone.
   */
  lemma TakeFrameErrors(s: Bytes)
    ensures TakeFrame(s) == Taken(Err(EndOfStream), []) <==> |s| < 4 || exists p :: Framable(p) && s < Frame(p)
    ensures TakeFrame(s).result == Err(MessageTooLarge) <==> exists n :: n > MAX_FRAME && Announces(s, n)
    ensures TakeFrame(s).result == Err(InvalidWireFormat) <==> Announces(s, 0)
    ensures TakeFrame(s).result in {Err(MessageTooLarge), Err(InvalidWireFormat)} ==> TakeFrame(s).rest == s[4..]
    ensures TakeFrame(s).result.Err? ==> TakeFrame(s).result.error in {EndOfStream, MessageTooLarge, InvalidWireFormat}
  {
    AnnouncedLength(s, 0);
    if |s| >= 4 {
      AnnouncedLength(s, Value(s[..4]));
      if TakeFrame(s).result == Err(EndOfStream) {
        var p := Completion(s);
      }
    }
    forall n | n > MAX_FRAME && Announces(s, n) ensures TakeFrame(s).result == Err(MessageTooLarge) {
      AnnouncedLength(s, n);
    }
    forall p | Framable(p) && s < Frame(p) ensures TakeFrame(s) == Taken(Err(EndOfStream), []) {
      Unfinished(s, p);
    }
  }

  lemma Unfinished(s: Bytes, p: Bytes)
    requires Framable(p) && s < Frame(p)
    ensures TakeFrame(s) == Taken(Err(EndOfStream), [])
  {
    Pow256Values();
    if |s| >= 4 {
      assert s[..4] == Frame(p)[..4] == BigEndian(|p|, 4);
      ValueOfBigEndian(|p|, 4);
    }
  }

  lemma Completion(s: Bytes) returns (p: Bytes)
    requires |s| >= 4 && TakeFrame(s).result == Err(EndOfStream)
    ensures Framable(p) && s < Frame(p)
  {
    var n := Value(s[..4]);
    BigEndianOfValue(s[..4]);
    p := s[4..] + Zeros(n + 4 - |s|);
    assert s == s[..4] + s[4..];
    assert Frame(p) == s + Zeros(n + 4 - |s|);
  }

  function FrameAll(ps: seq<Bytes>): Bytes {
    if ps == [] then [] else Frame(ps[0]) + FrameAll(ps[1..])
  }

  lemma {:induction false} FrameAllAppend(a: seq<Bytes>, b: seq<Bytes>)
    ensures FrameAll(a + b) == FrameAll(a) + FrameAll(b)
  {
    if a == [] {
      assert a + b == b;
    } else {
      assert (a + b)[1..] == a[1..] + b;
      FrameAllAppend(a[1..], b);
    }
  }

  lemma SameHead(p: Bytes, x: Bytes, q: Bytes, y: Bytes)
    requires Framable(p) && Framable(q)
    requires Frame(p) + x == Frame(q) + y
    ensures p == q && x == y
  {
    TakeFrameExact(Frame(p) + x, p, x);
    TakeFrameExact(Frame(p) + x, q, y);
  }

  /** A stream of frames that starts like another stream of frames starts with its payloads. */
  lemma {:induction false} FramesSplit(ps: seq<Bytes>, rest: Bytes, qs: seq<Bytes>)
    requires AllFramable(ps) && AllFramable(qs)
    requires FrameAll(ps) + rest == FrameAll(qs)
    ensures ps <= qs && rest == FrameAll(qs[|ps|..])
  {
    if ps == [] {
      assert qs[0..] == qs;
    } else {
      var more := FrameAll(ps[1..]) + rest;
      Assoc(Frame(ps[0]), FrameAll(ps[1..]), rest);
      assert qs != [];
      SameHead(ps[0], more, qs[0], FrameAll(qs[1..]));
      FramesSplit(ps[1..], rest, qs[1..]);
      assert ps == [ps[0]] + ps[1..] && qs == [qs[0]] + qs[1..];
      assert qs[1..][|ps| - 1..] == qs[|ps|..];
    }
  }

  ghost predicate IsFrameStream(s: Bytes) {
    exists qs :: AllFramable(qs) && s == FrameAll(qs)
  }

  lemma NextFrame(ps: seq<Bytes>, left: Bytes)
    requires AllFramable(ps) && TakeFrame(left).result.Ok?
    ensures var t := TakeFrame(left);
            && AllFramable(ps + [t.result.value])
            && FrameAll(ps) + left == FrameAll(ps + [t.result.value]) + t.rest
            && |t.rest| < |left|
  {
    var t := TakeFrame(left);
    var p := t.result.value;
    TakeFrameExact(left, p, t.rest);
    FrameAllAppend(ps, [p]);
    assert FrameAll([p]) == Frame(p) + FrameAll([]) == Frame(p);
    Assoc(FrameAll(ps), Frame(p), t.rest);
  }

  /** Once readFrame fails on what is left, the stream was no list of frames. */
  lemma NotFrames(ps: seq<Bytes>, left: Bytes)
    requires AllFramable(ps) && left != [] && TakeFrame(left).result.Err?
    ensures !IsFrameStream(FrameAll(ps) + left)
  {
    forall qs | AllFramable(qs) ensures FrameAll(qs) != FrameAll(ps) + left {
      if FrameAll(qs) == FrameAll(ps) + left {
        FramesSplit(ps, left, qs);
        var tail := qs[|ps|..];
        TakeFrameExact(left, tail[0], FrameAll(tail[1..]));
        assert false;
      }
    }
  }

  /** readFrame repeated until it fails or nothing is left. */
  method ReadFrames(conn: Duplex) returns (ps: seq<Bytes>, err: Option<Error>)
    modifies conn`incoming
    ensures err == None ==> conn.incoming == [] && AllFramable(ps) && old(conn.incoming) == FrameAll(ps)
    ensures IsFrameStream(old(conn.incoming)) ==> err == None
  {
    ps, err := [], None;
    while conn.incoming != []
      invariant AllFramable(ps)
      invariant old(conn.incoming) == FrameAll(ps) + conn.incoming
      decreases |conn.incoming|
    {
      ghost var before := conn.incoming;
      var r := ReadFrame(conn);
      if r.Err? {
        err := Some(r.error);
        NotFrames(ps, before);
        return;
      }
      NextFrame(ps, before);
      ps := ps + [r.value];
    }
  }

  /** Framing is uniquely decodable: different lists of payloads give different streams. */
  lemma FramingInjective(ps: seq<Bytes>, qs: seq<Bytes>)
    requires AllFramable(ps) && AllFramable(qs)
    requires FrameAll(ps) == FrameAll(qs)
    ensures ps == qs
  {
    assert FrameAll(ps) + [] == FrameAll(ps);
    FramesSplit(ps, [], qs);
    if |ps| < |qs| {
      assert |FrameAll(qs[|ps|..])| > 0;
    }
  }

  /** Framing a list of payloads and reading until the stream ends gives back the list. */
  method FramesRoundTrip(ps: seq<Bytes>) returns (qs: seq<Bytes>, err: Option<Error>)
    requires AllFramable(ps)
    ensures qs == ps && err == None
  {
    var conn := new Duplex([], []);
    for i := 0 to |ps|
      invariant conn.sent == FrameAll(ps[..i]) && conn.plan == []
    {
      EmitFramePrefix(ps[i], conn.plan);
      err := WriteFrame(conn, ps[i]);
      assert ps[..i + 1] == ps[..i] + [ps[i]];
      FrameAllAppend(ps[..i], [ps[i]]);
    }
    assert ps[..|ps|] == ps;
    conn.incoming := conn.sent;
    qs, err := ReadFrames(conn);
    FramingInjective(ps, qs);
  }

  // ---------- the Python reader ----------

  /** A stream whose reads return any non-empty piece no longer than asked, and nothing only at its end. */
  class PieceStream {
    var data: Bytes
    var sizes: seq<nat>

    constructor (data: Bytes, sizes: seq<nat>)
      ensures this.data == data && this.sizes == sizes
    {
      this.data := data;
      this.sizes := sizes;
    }

    method Read(n: nat) returns (chunk: Bytes)
      modifies this
      ensures old(data) == chunk + data
      ensures |chunk| <= n
      ensures chunk == [] <==> n == 0 || old(data) == []
    {
      var k := if sizes == [] || sizes[0] == 0 then 1 else sizes[0];
      var m := Min(Min(k, n), |data|);
      chunk := data[..m];
      data := data[m..];
      sizes := if sizes == [] then [] else sizes[1..];
    }
  }

  /** _read_exact: the same bytes whatever the sizes of the pieces; a short stream is used up. */
  method ReadExact(conn: PieceStream, n: nat) returns (r: Option<Bytes>)
    modifies conn
    ensures r.Some? <==> n <= |old(conn.data)|
    ensures r.Some? ==> r.value == old(conn.data)[..n] && conn.data == old(conn.data)[n..]
    ensures r.None? ==> conn.data == []
  {
    var buf: Bytes := [];
    while |buf| < n
      invariant |buf| <= n
      invariant old(conn.data) == buf + conn.data
      decreases n - |buf|
    {
      var chunk := conn.Read(n - |buf|);
      if chunk == [] {
        return None;
      }
      buf := buf + chunk;
    }
    r := Some(buf);
  }

  /** read_frame gives, for every fragmentation, the result of one contiguous read of the same stream. */
  method ReadFrameFragmented(conn: PieceStream) returns (r: Result<Bytes>)
    modifies conn
    ensures Taken(r, conn.data) == TakeFrame(old(conn.data))
  {
    var hdr := ReadExact(conn, 4);
    if hdr.None? {
      return Err(EndOfStream);
    }
    var n := Value(hdr.value);
    if n > MAX_FRAME {
      return Err(MessageTooLarge);
    }
    if n == 0 {
      return Err(InvalidWireFormat);
    }
    var body := ReadExact(conn, n);
    if body.None? {
      return Err(EndOfStream);
    }
    assert old(conn.data)[4..][..n] == old(conn.data)[4..4 + n];
    assert old(conn.data)[4..][n..] == old(conn.data)[4 + n..];
    r := Ok(body.value);
  }
}
