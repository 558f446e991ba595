/** From two identities to two connections: handshake, then newConn on both sides. */
module Establish {
  import opened ByteStrings
  import opened Primitives
  import opened Identities
  import opened Wire
  import Handshake
  import Kem
  import Records

  method ToArray(b: Bytes) returns (a: array<byte>)
    ensures fresh(a) && a[..] == b
  {
    a := new byte[|b|](i requires 0 <= i < |b| => b[i]);
  }

  /** newConn on a handshake result, whose key slices it zeroes once it has copied them. */
  method Connect(s: Suite, raw: Duplex, res: Handshake.HandshakeResult, initiator: bool)
    returns (c: Records.Conn<PublicIdentity>)
    requires |res.keyI2R| == KEY_SIZE && |res.keyR2I| == KEY_SIZE
    ensures fresh(c) && c.Valid() && c.aead == s.aead && c.raw == raw && c.remote == res.remote
    ensures c.writeKey == (if initiator then res.keyI2R else res.keyR2I)
    ensures c.readKey == (if initiator then res.keyR2I else res.keyI2R)
    ensures c.readSeq == 0 && c.writeSeq == 0 && c.readBuf == []
  {
    var i2r := ToArray(res.keyI2R);
    var r2i := ToArray(res.keyR2I);
    c := new Records.Conn(s.aead, raw, res.remote, i2r, r2i, initiator);
  }

  /** An honest handshake ends in two connections that mirror each other and name each other. */
  method Establish(s: Suite, i: Identity, r: Identity, pinI: Option<PublicIdentity>, pinR: Option<PublicIdentity>,
                   helloEntropy: Bytes, entropy: Bytes, sigEntropy: Bytes)
    returns (a: Records.Conn<PublicIdentity>, b: Records.Conn<PublicIdentity>)
    requires WellFormed(s, i) && WellFormed(s, r)
    requires Handshake.PinAllows(pinI, Public(s, r)) && Handshake.PinAllows(pinR, Public(s, i))
    requires Kem.Encapsulate(s, Public(s, i).xwing, entropy).Ok?
    ensures a.writeKey == b.readKey && a.readKey == b.writeKey
    ensures Handshake.KeysApart(s, Kem.Encapsulate(s, Public(s, i).xwing, entropy).value.shared) ==> a.writeKey != a.readKey
    ensures a.remote == Public(s, r) && b.remote == Public(s, i)
    ensures a.Valid() && a.readSeq == 0 && a.writeSeq == 0 && a.readBuf == []
    ensures b.Valid() && b.readSeq == 0 && b.writeSeq == 0 && b.readBuf == []
  {
    var atI, atR, connI, connR := Handshake.HonestSession(s, i, r, pinI, pinR, helloEntropy, entropy, sigEntropy);
    if Handshake.KeysApart(s, atI.value.shared) {
      Handshake.SessionKeysDiffer(s, atI.value.shared);
    }
    a := Connect(s, connI, atI.value, true);
    b := Connect(s, connR, atR.value, false);
  }
}
