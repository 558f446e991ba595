/**
 The handshake message codecs.  The three message shapes are two: a pair of
 length-prefixed fields (HandshakeInit and the responder payload), and a
 fixed-size ciphertext followed by one length-prefixed field (HandshakeResponse).
 */
module Codecs {
  import opened ByteStrings

  const CIPHERTEXT_SIZE: nat := 1120

  datatype Pair = Pair(first: Bytes, second: Bytes)

  predicate FitsU16(b: Bytes) {
    |b| <= 0xFFFF
  }

  predicate PairFits(p: Pair) {
    FitsU16(p.first) && FitsU16(p.second)
  }

  predicate ResponseFits(p: Pair) {
    |p.first| == CIPHERTEXT_SIZE && FitsU16(p.second)
  }

  function Prefixed(b: Bytes): (r: Bytes)
    requires FitsU16(b)
    ensures |r| == 2 + |b|
  {
    BigEndian(|b|, 2) + b
  }

  function EncodePair(p: Pair): (r: Bytes)
    requires PairFits(p)
    ensures |r| == 4 + |p.first| + |p.second|
  {
    Prefixed(p.first) + Prefixed(p.second)
  }

  function EncodeResponse(p: Pair): (r: Bytes)
    requires ResponseFits(p)
    ensures |r| == CIPHERTEXT_SIZE + 2 + |p.second|
  {
    p.first + Prefixed(p.second)
  }

  /** The bytes of a pair: each field after its own length, most significant byte first. */
  lemma PairLayout(p: Pair)
    requires PairFits(p)
    ensures var d := EncodePair(p);
            var n, m := |p.first|, |p.second|;
            && d[..2] == [n / 256, n % 256] && d[2..2 + n] == p.first
            && d[2 + n..4 + n] == [m / 256, m % 256] && d[4 + n..] == p.second
  {
    TwoBytes(|p.first|);
    TwoBytes(|p.second|);
  }

  lemma ResponseLayout(p: Pair)
    requires ResponseFits(p)
    ensures var d := EncodeResponse(p);
            var m := |p.second|;
            && d[..CIPHERTEXT_SIZE] == p.first
            && d[CIPHERTEXT_SIZE..CIPHERTEXT_SIZE + 2] == [m / 256, m % 256] && d[CIPHERTEXT_SIZE + 2..] == p.second
  {
    TwoBytes(|p.second|);
  }

  lemma TwoBytes(n: nat)
    requires n <= 0xFFFF
    ensures BigEndian(n, 2) == [n / 256, n % 256]
  {
    Pow256Values();
    assert BigEndian(n, 2) == [n / Pow256(1) % 256, n / Pow256(0) % 256];
  }

  // ---------- what a decoder must answer, in terms of the encoder alone ----------

  /**
   Success on exactly the encodings; a short read on what could still be completed
   to an encoding; a format error on an encoding followed by anything.
   */
  ghost predicate PairVerdict(data: Bytes, r: Result<Pair>) {
    match r
    case Ok(p) => PairFits(p) && data == EncodePair(p)
    case Err(e) =>
      || (e == ShortRead && exists p :: PairFits(p) && data < EncodePair(p))
      || (e == InvalidWireFormat && exists p :: PairFits(p) && EncodePair(p) < data)
  }

  /** As above, except that a message too short for the ciphertext and a length is a format error. */
  ghost predicate ResponseVerdict(data: Bytes, r: Result<Pair>) {
    match r
    case Ok(p) => ResponseFits(p) && data == EncodeResponse(p)
    case Err(e) =>
      || (e == InvalidWireFormat && |data| < CIPHERTEXT_SIZE + 2)
      || (e == ShortRead && |data| >= CIPHERTEXT_SIZE + 2 && exists p :: ResponseFits(p) && data < EncodeResponse(p))
      || (e == InvalidWireFormat && exists p :: ResponseFits(p) && EncodeResponse(p) < data)
  }

  lemma PrefixedHead(a: Bytes, data: Bytes)
    requires FitsU16(a) && Prefixed(a) <= data
    ensures |data| >= 2 && Value(data[..2]) == |a| && data[2..2 + |a|] == a
  {
    Pow256Values();
    ValueOfBigEndian(|a|, 2);
    assert data[..2] == Prefixed(a)[..2] == BigEndian(|a|, 2);
  }

  /** No field is a prefix of another field's encoding. */
  lemma PrefixedUnique(a: Bytes, b: Bytes, data: Bytes)
    requires FitsU16(a) && FitsU16(b) && Prefixed(a) <= data && Prefixed(b) <= data
    ensures a == b
  {
    PrefixedHead(a, data);
    PrefixedHead(b, data);
  }

  lemma PairPrefixFree(p: Pair, q: Pair, data: Bytes)
    requires PairFits(p) && PairFits(q) && EncodePair(p) <= data && EncodePair(q) <= data
    ensures p == q
  {
    PrefixedUnique(p.first, q.first, data);
    var k := 2 + |p.first|;
    assert Prefixed(p.second) == EncodePair(p)[k..] <= data[k..];
    assert Prefixed(q.second) == EncodePair(q)[k..] <= data[k..];
    PrefixedUnique(p.second, q.second, data[k..]);
  }

  lemma ResponsePrefixFree(p: Pair, q: Pair, data: Bytes)
    requires ResponseFits(p) && ResponseFits(q) && EncodeResponse(p) <= data && EncodeResponse(q) <= data
    ensures p == q
  {
    assert p.first == data[..CIPHERTEXT_SIZE] == q.first;
    assert Prefixed(p.second) == EncodeResponse(p)[CIPHERTEXT_SIZE..] <= data[CIPHERTEXT_SIZE..];
    assert Prefixed(q.second) == EncodeResponse(q)[CIPHERTEXT_SIZE..] <= data[CIPHERTEXT_SIZE..];
    PrefixedUnique(p.second, q.second, data[CIPHERTEXT_SIZE..]);
  }

  lemma PairBetween(data: Bytes)
    ensures forall p, q :: PairFits(p) && PairFits(q) && data <= EncodePair(p) && EncodePair(q) <= data ==>
              p == q && data == EncodePair(p)
  {
    forall p, q | PairFits(p) && PairFits(q) && data <= EncodePair(p) && EncodePair(q) <= data
      ensures p == q && data == EncodePair(p)
    {
      PairPrefixFree(p, q, EncodePair(p));
    }
  }

  lemma ResponseBetween(data: Bytes)
    ensures forall p, q :: ResponseFits(p) && ResponseFits(q) && data <= EncodeResponse(p) && EncodeResponse(q) <= data ==>
              p == q && data == EncodeResponse(p)
  {
    forall p, q | ResponseFits(p) && ResponseFits(q) && data <= EncodeResponse(p) && EncodeResponse(q) <= data
      ensures p == q && data == EncodeResponse(p)
    {
      ResponsePrefixFree(p, q, EncodeResponse(p));
    }
  }

  /** The verdict leaves a decoder no choice, so decoders that meet it agree on every input. */
  lemma PairVerdictUnique(data: Bytes, r: Result<Pair>, q: Result<Pair>)
    requires PairVerdict(data, r) && PairVerdict(data, q)
    ensures r == q
  {
    PairBetween(data);
  }

  lemma ResponseVerdictUnique(data: Bytes, r: Result<Pair>, q: Result<Pair>)
    requires ResponseVerdict(data, r) && ResponseVerdict(data, q)
    ensures r == q
  {
    ResponseBetween(data);
  }

  // ---------- the offset decoders of the TypeScript and Python ports ----------

  function DecodePair(data: Bytes): Result<Pair> {
    if |data| < 2 then Err(ShortRead)
    else
      var idLen := Value(data[..2]);
      if |data| < 2 + idLen + 2 then Err(ShortRead)
      else
        var sigLen := Value(data[2 + idLen..4 + idLen]);
        var sigStart := 4 + idLen;
        if |data| < sigStart + sigLen then Err(ShortRead)
        else if |data| != sigStart + sigLen then Err(InvalidWireFormat)
        else Ok(Pair(data[2..2 + idLen], data[sigStart..sigStart + sigLen]))
  }

  function DecodeResponse(data: Bytes): Result<Pair> {
    if |data| < CIPHERTEXT_SIZE + 2 then Err(InvalidWireFormat)
    else
      var encLen := Value(data[CIPHERTEXT_SIZE..CIPHERTEXT_SIZE + 2]);
      var encStart := CIPHERTEXT_SIZE + 2;
      if |data| < encStart + encLen then Err(ShortRead)
      else if |data| != encStart + encLen then Err(InvalidWireFormat)
      else Ok(Pair(data[..CIPHERTEXT_SIZE], data[encStart..encStart + encLen]))
  }

  /** A slice that holds a length and that many bytes is an encoded field. */
  lemma FieldAt(data: Bytes, at: nat, n: nat)
    requires at + 2 + n <= |data| && Value(data[at..at + 2]) == n
    ensures FitsU16(data[at + 2..at + 2 + n])
    ensures data[at..at + 2 + n] == Prefixed(data[at + 2..at + 2 + n])
  {
    Pow256Values();
    BigEndianOfValue(data[at..at + 2]);
    assert data[at..at + 2 + n] == data[at..at + 2] + data[at + 2..at + 2 + n];
  }

  /** A string too short for the field it starts can be completed to that field. */
  lemma FieldCompletion(part: Bytes) returns (f: Bytes)
    requires |part| >= 2 ==> |part| < 2 + Value(part[..2])
    ensures FitsU16(f) && part < Prefixed(f)
  {
    Pow256Values();
    if |part| >= 2 {
      BigEndianOfValue(part[..2]);
      f := part[2..] + Zeros(Value(part[..2]) + 2 - |part|);
      assert part == part[..2] + part[2..];
      assert Prefixed(f) == part + Zeros(Value(part[..2]) + 2 - |part|);
    } else {
      var length := part + Zeros(2 - |part|);
      BigEndianOfValue(length);
      f := Zeros(Value(length));
      assert Prefixed(f) == length + f;
    }
  }

  lemma DecodePairMeetsVerdict(data: Bytes)
    ensures PairVerdict(data, DecodePair(data))
  {
    if |data| < 2 || |data| < 2 + Value(data[..2]) {
      var f := FieldCompletion(data);
      assert data < EncodePair(Pair(f, []));
    } else {
      var idLen := Value(data[..2]);
      var id := data[2..2 + idLen];
      assert data[0..2] == data[..2];
      FieldAt(data, 0, idLen);
      assert data == Prefixed(id) + data[2 + idLen..];
      DecodePairTail(data, id, data[2 + idLen..]);
    }
  }

  lemma DecodePairTail(data: Bytes, id: Bytes, tail: Bytes)
    requires FitsU16(id) && data == Prefixed(id) + tail
    requires Value(data[..2]) == |id|
    ensures PairVerdict(data, DecodePair(data))
  {
    var at := 2 + |id|;
    if |tail| < 2 || |tail| < 2 + Value(tail[..2]) {
      var f := FieldCompletion(tail);
      assert data < EncodePair(Pair(id, f));
      assert |tail| >= 2 ==> data[at..at + 2] == tail[..2];
    } else {
      var sigLen := Value(tail[..2]);
      assert data[at..at + 2] == tail[..2];
      FieldAt(data, at, sigLen);
      var sig := data[at + 2..at + 2 + sigLen];
      assert data[2..at] == id;
      assert data == EncodePair(Pair(id, sig)) + data[at + 2 + sigLen..];
      assert EncodePair(Pair(id, sig)) <= data;
    }
  }

  lemma DecodeResponseMeetsVerdict(data: Bytes)
    ensures ResponseVerdict(data, DecodeResponse(data))
  {
    if |data| >= CIPHERTEXT_SIZE + 2 {
      var ct, tail := data[..CIPHERTEXT_SIZE], data[CIPHERTEXT_SIZE..];
      assert data == ct + tail;
      assert data[CIPHERTEXT_SIZE..CIPHERTEXT_SIZE + 2] == tail[..2];
      var encLen := Value(tail[..2]);
      if |tail| < 2 + encLen {
        var f := FieldCompletion(tail);
        assert data < EncodeResponse(Pair(ct, f));
      } else {
        FieldAt(data, CIPHERTEXT_SIZE, encLen);
        var enc := data[CIPHERTEXT_SIZE + 2..CIPHERTEXT_SIZE + 2 + encLen];
        var p := Pair(ct, enc);
        assert EncodeResponse(p) == data[..CIPHERTEXT_SIZE + 2 + encLen];
        if |data| == CIPHERTEXT_SIZE + 2 + encLen {
          assert data == EncodeResponse(p);
        } else {
          assert EncodeResponse(p) < data;
        }
      }
    }
  }

  /** Decoding undoes encoding, and encoding undoes every accepted decoding. */
  lemma PairCodecCanonical(data: Bytes, p: Pair)
    ensures PairFits(p) ==> DecodePair(EncodePair(p)) == Ok(p)
    ensures DecodePair(data) == Ok(p) ==> PairFits(p) && EncodePair(p) == data
  {
    DecodePairMeetsVerdict(data);
    if PairFits(p) {
      DecodePairMeetsVerdict(EncodePair(p));
      PairVerdictUnique(EncodePair(p), Ok(p), DecodePair(EncodePair(p)));
    }
  }

  lemma ResponseCodecCanonical(data: Bytes, p: Pair)
    ensures ResponseFits(p) ==> DecodeResponse(EncodeResponse(p)) == Ok(p)
    ensures DecodeResponse(data) == Ok(p) ==> ResponseFits(p) && EncodeResponse(p) == data
  {
    DecodeResponseMeetsVerdict(data);
    if ResponseFits(p) {
      DecodeResponseMeetsVerdict(EncodeResponse(p));
      ResponseVerdictUnique(EncodeResponse(p), Ok(p), DecodeResponse(EncodeResponse(p)));
    }
  }

  // ---------- the Go parsers: a cursor advanced in place ----------

  /** One length-prefixed field and what follows it. */
  function TakeField(b: Bytes): Result<Pair> {
    if |b| < 2 || |b| < 2 + Value(b[..2]) then Err(ShortRead)
    else Ok(Pair(b[2..2 + Value(b[..2])], b[2 + Value(b[..2])..]))
  }

  lemma DecodePairByFields(data: Bytes)
    ensures DecodePair(data) ==
            match TakeField(data)
            case Err(e) => Err(e)
            case Ok(t) =>
              match TakeField(t.second)
              case Err(e) => Err(e)
              case Ok(u) => if u.second != [] then Err(InvalidWireFormat) else Ok(Pair(t.first, u.first))
  {
    if TakeField(data).Ok? {
      var at := 2 + Value(data[..2]);
      var tail := data[at..];
      if |tail| >= 2 {
        assert tail[..2] == data[at..at + 2];
        var n := Value(tail[..2]);
        if |tail| >= 2 + n {
          assert tail[2..2 + n] == data[at + 2..at + 2 + n];
        }
      }
    }
  }

  lemma DecodeResponseByField(data: Bytes)
    requires |data| >= CIPHERTEXT_SIZE + 2
    ensures DecodeResponse(data) ==
            match TakeField(data[CIPHERTEXT_SIZE..])
            case Err(e) => Err(e)
            case Ok(t) => if t.second != [] then Err(InvalidWireFormat) else Ok(Pair(data[..CIPHERTEXT_SIZE], t.first))
  {
    var tail := data[CIPHERTEXT_SIZE..];
    assert tail[..2] == data[CIPHERTEXT_SIZE..CIPHERTEXT_SIZE + 2];
    var n := Value(tail[..2]);
    if |tail| >= 2 + n {
      assert tail[2..2 + n] == data[CIPHERTEXT_SIZE + 2..CIPHERTEXT_SIZE + 2 + n];
    }
  }

  class SliceReader {
    var buf: Bytes

    constructor (b: Bytes)
      ensures buf == b
    {
      buf := b;
    }

    method ReadU16() returns (r: Result<nat>)
      modifies this
      ensures |old(buf)| < 2 ==> r == Err(ShortRead) && buf == old(buf)
      ensures |old(buf)| >= 2 ==> r == Ok(Value(old(buf)[..2])) && buf == old(buf)[2..]
    {
      if |buf| < 2 {
        return Err(ShortRead);
      }
      r := Ok(Value(buf[..2]));
      buf := buf[2..];
    }

    method ReadN(n: nat) returns (r: Result<Bytes>)
      modifies this
      ensures |old(buf)| < n ==> r == Err(ShortRead) && buf == old(buf)
      ensures |old(buf)| >= n ==> r == Ok(old(buf)[..n]) && buf == old(buf)[n..]
    {
      if |buf| < n {
        return Err(ShortRead);
      }
      r := Ok(buf[..n]);
      buf := buf[n..];
    }

    /** The readU16-then-readN step every parser repeats. */
    method ReadField() returns (r: Result<Bytes>)
      modifies this
      ensures match TakeField(old(buf))
              case Err(e) => r == Err(e)
              case Ok(t) => r == Ok(t.first) && buf == t.second
    {
      ghost var all := buf;
      var n := ReadU16();
      if n.Err? {
        return Err(n.error);
      }
      r := ReadN(n.value);
      assert r.Ok? ==> r.value == all[2..2 + n.value] && buf == all[2 + n.value..];
    }

    predicate Empty()
      reads this
    {
      |buf| == 0
    }
  }

  /** parseHandshakeInit and splitRespIDPayload: the cursor parser answers every input as the ports do. */
  method ParsePair(data: Bytes) returns (r: Result<Pair>)
    ensures r == DecodePair(data)
  {
    DecodePairByFields(data);
    var reader := new SliceReader(data);
    var id := reader.ReadField();
    if id.Err? {
      return Err(id.error);
    }
    var sig := reader.ReadField();
    if sig.Err? {
      return Err(sig.error);
    }
    if !reader.Empty() {
      return Err(InvalidWireFormat);
    }
    r := Ok(Pair(id.value, sig.value));
  }

  method ParseResponse(data: Bytes) returns (r: Result<Pair>)
    ensures r == DecodeResponse(data)
  {
    if |data| < CIPHERTEXT_SIZE + 2 {
      return Err(InvalidWireFormat);
    }
    DecodeResponseByField(data);
    var reader := new SliceReader(data);
    var ct := reader.ReadN(CIPHERTEXT_SIZE);
    var enc := reader.ReadField();
    if enc.Err? {
      return Err(enc.error);
    }
    if !reader.Empty() {
      return Err(InvalidWireFormat);
    }
    r := Ok(Pair(ct.value, enc.value));
  }

  // ---------- encoders ----------

  method AppendU16(b: Bytes, n: nat) returns (out: Bytes)
    requires n <= 0xFFFF
    ensures out == b + BigEndian(n, 2)
  {
    out := b + [n / 256, n % 256];
    TwoBytes(n);
  }

  /** HandshakeInit.MarshalBinary and buildRespIDPayload of the Go port. */
  method MarshalPair(p: Pair) returns (out: Bytes)
    requires PairFits(p)
    ensures out == EncodePair(p)
  {
    out := AppendU16([], |p.first|);
    out := out + p.first;
    out := AppendU16(out, |p.second|);
    out := out + p.second;
  }

  method MarshalResponse(p: Pair) returns (out: Bytes)
    requires ResponseFits(p)
    ensures out == EncodeResponse(p)
  {
    out := p.first;
    out := AppendU16(out, |p.second|);
    out := out + p.second;
  }

  /** Uint8Array.set: copy `src` into `out` at offset `off`. */
  method SetAt(out: array<byte>, off: nat, src: Bytes)
    requires off + |src| <= out.Length
    modifies out
    ensures out[..off + |src|] == old(out[..off]) + src
    ensures out[off + |src|..] == old(out[off + |src|..])
  {
    for i := 0 to |src|
      invariant out[..off] == old(out[..off])
      invariant out[off..off + i] == src[..i]
      invariant out[off + |src|..] == old(out[off + |src|..])
    {
      out[off + i] := src[i];
      assert out[off..off + i + 1] == out[off..off + i] + [out[off + i]];
    }
    assert out[..off + |src|] == out[..off] + out[off..off + |src|];
  }

  /** encodeHandshakeInit of the TypeScript port fills a preallocated buffer by offset. */
  method FillPair(p: Pair) returns (r: Bytes)
    requires PairFits(p)
    ensures r == EncodePair(p)
  {
    var n := |p.first|;
    var out := new byte[4 + n + |p.second|](i => 0);
    SetAt(out, 0, BigEndian(n, 2));
    SetAt(out, 2, p.first);
    assert out[..2 + n] == Prefixed(p.first);
    SetAt(out, 2 + n, BigEndian(|p.second|, 2));
    SetAt(out, 4 + n, p.second);
    assert out[..] == out[..out.Length] == Prefixed(p.first) + BigEndian(|p.second|, 2) + p.second;
    r := out[..];
  }
}
