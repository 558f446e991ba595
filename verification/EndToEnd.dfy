/** From handshake to channel: what the two theorems say together about one connection. */
module EndToEnd {
  import opened ByteStrings
  import opened Primitives
  import opened Identities
  import opened Handshake
  import opened Agreement
  import Kem
  import Sessions

  /** The channel of a session, after a handshake that sealed `hs`. */
  function Channel(s: Suite, res: HandshakeResult, hs: Sessions.Entry, es: seq<Sessions.Event>): Sessions.World {
    Sessions.Run(s.aead, Sessions.Start(res.keyI2R, res.keyR2I, hs), es)
  }

  ghost predicate ChannelNoForgery(s: Suite, res: HandshakeResult, hs: Sessions.Entry, es: seq<Sessions.Event>) {
    Sessions.NoForgery(s.aead, Sessions.Start(res.keyI2R, res.keyR2I, hs), es)
  }

  /** Every run of the channel uses each key and nonce once, and delivers only prefixes unless a forgery is accepted. */
  ghost predicate Secure(s: Suite, res: HandshakeResult, hs: Sessions.Entry) {
    forall es :: Sessions.SealsFresh(s.aead, Channel(s, res, hs, es).log)
              && (ChannelNoForgery(s, res, hs, es) ==> Sessions.Safe(Channel(s, res, hs, es)))
  }

  /** Without a hash collision among the inputs of a session's own derivations, its channel is secure. */
  lemma SessionSecure(s: Suite, shared: Bytes, remote: PublicIdentity, hs: Sessions.Entry)
    requires KeysApart(s, shared) && Sessions.HandshakeEntry(s.aead, hs)
    ensures Secure(s, Session(s, shared, remote), hs)
  {
    var res := Session(s, shared, remote);
    SessionKeysDiffer(s, shared);
    forall es
      ensures Sessions.SealsFresh(s.aead, Channel(s, res, hs, es).log)
      ensures ChannelNoForgery(s, res, hs, es) ==> Sessions.Safe(Channel(s, res, hs, es))
    {
      Sessions.NonceFreshness(s.aead, res.keyI2R, res.keyR2I, hs, es);
      if ChannelNoForgery(s, res, hs, es) {
        Sessions.PrefixSafety(s.aead, res.keyI2R, res.keyR2I, hs, es);
      }
    }
  }

  /** The seal a responder run made. */
  function SealOf(s: Suite, e: Event): Sessions.Entry
    requires WellFormed(s, e.id) && ReplyOf(s, e).Ok?
  {
    var r := ReplyOf(s, e).value;
    Sessions.HandshakeSeal(s, e.id, r.initPub, Kem.Encapsulation(r.ct, r.shared), e.sigEntropy)
  }

  lemma SealOfIsSent(s: Suite, e: Event)
    requires WellFormed(s, e.id) && ReplyOf(s, e).Ok?
    ensures Sessions.HandshakeEntry(s.aead, SealOf(s, e))
  {
    var r := ReplyOf(s, e).value;
    AnswerSize(s, e);
    Kem.EncapsulationSize(s, r.remote.xwing, e.kemEntropy);
    Sessions.ReplyCarriesSeal(s, e.id, r.initPub, Kem.Encapsulation(r.ct, r.shared), e.sigEntropy);
  }

  /** A run that matches, and whose channel with this initiator is secure, its own handshake seal included. */
  ghost predicate SecureMatch(s: Suite, half: Half, id: Identity, ct: Bytes, res: HandshakeResult, e: Event)
    requires WellFormed(s, e.id)
  {
    Matches(s, half, id, ct, res, e) && Secure(s, res, SealOf(s, e))
  }

  lemma MatchIsSecure(s: Suite, half: Half, id: Identity, ct: Bytes, res: HandshakeResult, e: Event)
    requires WellFormed(s, e.id) && Matches(s, half, id, ct, res, e) && KeysApart(s, res.shared)
    ensures SecureMatch(s, half, id, ct, res, e)
  {
    SealOfIsSent(s, e);
    SessionSecure(s, res.shared, res.remote, SealOf(s, e));
    assert res == Session(s, res.shared, res.remote);
  }

  /**
   The whole protocol: in every trace on any network, a completed initiator has a
   responder run with the same keys, and every run of the channel between the two uses
   each key and nonce once and delivers only what the other side sent, in order.
   */
  lemma ProtocolSecure(s: Suite, half: Half, honest: set<Bytes>, trace: Trace, k: nat)
    requires Honest(s, trace) && Unforged(s, half, honest, trace) && NoCollision(s, trace)
    requires k < |trace| && trace[k].Finish?
    requires Conclude(s, trace[k].id, trace[k].pin, trace[k].frame).Ok?
    requires KeyOf(half, Conclude(s, trace[k].id, trace[k].pin, trace[k].frame).value.remote) in honest
    requires KeysApart(s, Conclude(s, trace[k].id, trace[k].pin, trace[k].frame).value.shared)
    ensures var res := Conclude(s, trace[k].id, trace[k].pin, trace[k].frame).value;
            var ct := ReadClaim(s, trace[k].id, trace[k].frame).value.ct;
            exists j :: 0 <= j < k && SecureMatch(s, half, trace[k].id, ct, res, trace[j])
  {
    var f := trace[k];
    var res := Conclude(s, f.id, f.pin, f.frame).value;
    InitiatorAgreement(s, half, honest, trace, k);
    var ct := ReadClaim(s, f.id, f.frame).value.ct;
    var j :| 0 <= j < k && Matches(s, half, f.id, ct, res, trace[j]);
    MatchIsSecure(s, half, f.id, ct, res, trace[j]);
  }
}
