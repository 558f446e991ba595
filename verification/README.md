# Z-Wing, modelled and proved in Dafny

Z-Wing is a two-party secure channel: a one-round-trip handshake over
length-prefixed frames, then a record layer that numbers its nonces and looks
like a byte stream. It has a Go, a TypeScript and a Python port that must agree
byte for byte. This project models the protocol logic of the three ports and
proves what it promises, for every input, every run and every interleaving.

`dafny verify dfyconfig.toml` checks everything.

## How to read it

| file | content |
|---|---|
| `ByteStrings.dfy` | bytes, errors, big-endian integers, concatenation, xor/or |
| `Primitives.dfy` | the cryptographic libraries as functions with laws, each law with a witness |
| `Wire.dfy` | transports that fail half-way or fragment, frames |
| `Codecs.dfy` | the message codecs of the three ports |
| `Hkdf.dfy` | HMAC, HKDF and the Python expand loop |
| `Kem.dfy`, `Identities.dfy` | X-Wing, hybrid identities and signatures |
| `Handshake.dfy`, `Establish.dfy` | both roles, honest runs, and the connections they end in |
| `Agreement.dfy` | many handshakes at once on a hostile network |
| `Records.dfy` | `Conn` (Go) and `Channel` (TypeScript, Python) |
| `Sessions.dfy` | two endpoints on a hostile network: prefix safety, nonce freshness |
| `Streams.dfy` | one direction on a reliable network: conservation |
| `EndToEnd.dfy` | agreement, key separation and the channel theorems for one connection |
| `Concurrency.dfy`, `Solo.dfy`, `Progress.dfy` | threads inside `Read` and `Write`, step by step, their tie to the methods, and that nothing gets stuck |

Stateful code is modelled as classes and methods, and every method is proved
equal to a function of the old state (`Conn.Write` to `Send`, `Conn.Read` to
`ReadStep`, `readFrame` to `TakeFrame`, the roles to `Conclude` and `Respond`).
The run-level theorems are then about those functions, so they speak about the
methods.

**The network.** A `Duplex` holds the bytes it will still deliver and the
outcome of each coming write, which may fail after any number of bytes. Both
are arbitrary, so quantifying over them quantifies over networks.

**The primitives.** A `Suite` is any choice of functions that meet the laws:
opening undoes sealing and the tag has 16 bytes (section 2.8 of RFC 8439),
X25519 commutes and rejects symmetrically (section 6.1 of RFC 7748), ML-KEM
decapsulation undoes encapsulation (FIPS 203), genuine signatures verify, and
digests have 32 bytes. Each law is a subset type with a witness, so together
they are consistent. Nothing says that a hash is injective or that anything is
unforgeable. Where a theorem needs ideal behaviour it says so about one run:
`NoForgery` (a record that opens was sealed before under that key and nonce),
`Unforged` (one signature scheme accepts, under an honest key, only a digest its
holder signed earlier) and `NoCollision` (no two inputs hashed in this trace
collide). `Apart` says the same of the inputs of two given computations, never of
all strings. `Agreement.UndisturbedUnforged` shows that honest handshakes meet
`Unforged`.

**Where a property is false.** Prefix safety and nonce freshness fail when both
directions have the same key: `Sessions.Reflection` and `Sessions.NonceReuse`
give the runs, and `PrefixSafetyExact` and `NonceFreshnessExact` show that
different direction keys are exactly the condition. Nonce freshness does not
need the handshake's key to differ from the channel keys, because the handshake
nonce starts with a letter and record nonces with zero bytes. That a session's
direction keys do differ is `Handshake.SessionKeysDiffer`: different labels give
different keys unless inputs of the two derivations collide.

**Code and comments disagree** in two places, and the model follows the code:
`Write` splits long data into several records although its comment speaks of a
single record (channel.go:117-143), and the combiner hashes a nine-byte label
first although the comment claims the exact published X-Wing construction
(kem.go:16-31, kem.go:180-197).

## Model

| member | source | states |
|---|---|---|
| `EndToEnd.ProtocolSecure` | handshake.go:132-256 | In every multi-session trace on any network: a completed initiator has a matching responder run, and every run of the channel between the two, the handshake's own seal included, uses each key and nonce once and, unless a forgery is accepted, delivers only prefixes of what the other side sealed. |
| `EndToEnd.SessionSecure` | handshake.go:192-197 | That channel property holds of the keys any secret derives, unless inputs of its own derivations collide. |
| `Agreement.InitiatorAgreement` | handshake.go:151-198 | In every trace of any number of sessions on any network, with only one of the two signature schemes ideal: a completed initiator has an earlier responder run, by a holder of the peer's key in that scheme, that signed exactly this initiator's identity bytes and this ciphertext and holds the same secret, keyI2R and keyR2I. |
| `Agreement.ResponderAgreement` | handshake.go:209-232 | Under the same hypotheses, a responder that answers does so to an identity, X-Wing key included, whose holder has sent a first message before, and that identity's key opens the ciphertext to the responder's secret. |
| `Agreement.LoggedIsAnswer` | handshake.go:235-238 | Without collisions, a signature log entry for a response digest can only be a responder's, with the same initiator identity and ciphertext. |
| `Agreement.LoggedIsGreeting` | handshake.go:139-141 | Without collisions, a log entry for an init digest can only be an initiator's, with the same identity bytes. |
| `Agreement.SameSecret` | handshake.go:156-160 | Equal identity bytes and ciphertext give the initiator, through decapsulation, the responder's secret. |
| `Agreement.UndisturbedUnforged` | handshake.go:132-256 | Every undisturbed handshake meets the hypothesis on signatures, for either scheme and any set of honest keys. |
| `Agreement.AnswerConcluded` | handshake.go:151-198 | An initiator that gets the answer to its own first message completes. |
| `Agreement.PinHolds` | handshake.go:187-190 | A pinned role that completes names exactly the pinned identity, all keys included. |
| `Sessions.PrefixSafety` | channel.go:83-143 | On a network that drops, repeats, reorders, truncates and injects, with writes failing half-way: everything a side's Reads returned is a prefix of what the peer's Writes sealed. |
| `Sessions.PrefixSafetyExact` | channel.go:40-57 | That holds of every run if and only if the two direction keys differ. |
| `Sessions.Reflection` | channel.go:83-115 | With equal keys there is a run without any forgery in which a side reads its own record. |
| `Sessions.OpensOnlyTheNext` | channel.go:100-108 | A record that opens at the reader's counter is the one the peer sealed at that position, whatever the network presented. |
| `Sessions.InvRun` | channel.go:83-143 | Every run without forgery keeps the log of seals owned by its writer, position by position, and the delivered bytes equal to the records passed. |
| `Sessions.NonceFreshnessExact` | channel.go:130-139 | The log of every run is the AEAD calls made (each entry is the seal of its plaintext under its key, nonce and associated data) and no two share key and nonce, with any failures and the handshake's seal included, if and only if the direction keys differ. |
| `Sessions.NonceReuse` | channel.go:133-135 | With equal keys, the first record of each side shares key and nonce. |
| `Sessions.NonceInvRun` | channel.go:130-139 | Every run keeps each log entry the seal it names, all records numbered below their writer's counter, and all seals fresh. |
| `Sessions.LastCounterUnused` | channel.go:130-132 | Counters never pass 2^64-1 and no seal is made under that value's nonce. |
| `Sessions.WriteIsLogged` | channel.go:133-139 | What a Write puts on the wire are the framed ciphertexts of its log entries, all of them unless the transport failed, and each is the seal it names. |
| `Sessions.ReplyCarriesSeal` | handshake.go:239-244 | The handshake's log entry is the seal of the responder payload, and the responder's message is the ciphertext followed by it. |
| `Sessions.HandshakeNonceApart` | channel.go:201-205 | The handshake nonce is no record nonce. |
| `Streams.StreamConservation` | channel.go:83-143 | On a reliable wire, for all Writes and all Read sizes, zero included: delivered, buffered and in-flight bytes together are everything written, the wire holds exactly the in-flight records, no Read fails, and a drained connection has lost nothing. |
| `Streams.Drains` | channel.go:83-115 | From every reachable state, Reads of any positive sizes, as many as bytes are outstanding or more, deliver everything written. |
| `Streams.ReadDelivers` | channel.go:87-114 | A Read with room for a byte delivers at least one while any are outstanding. |
| `Streams.BufferedEqualsRecordwise` | js/channel.ts:77-91 | On every stream, hostile ones too, Go's buffered Reads yield the same bytes, counter and remaining stream as whole-record receives. |
| `Streams.CleanSend` | channel.go:120-143 | Without transport errors a Write leaves exactly its records on the wire. |
| `Streams.NextRecord` | channel.go:96-108 | With records in flight, the next receive succeeds with the oldest and leaves the rest. |
| `Concurrency.ConcurrentCallers` | channel.go:84-142 | In every interleaving of any number of writers and readers, at seal/header/payload/open granularity: one thread inside each call, each multi-record Write unbroken, Reads in lock order a prefix of Writes in lock order, no Read fails, and nothing is lost once all is quiet. |
| `Concurrency.RunKeeps` | channel.go:84-142 | The invariant behind it holds after every sequence of thread steps. |
| `Concurrency.WriterKeeps` | channel.go:126-141 | Each step of the thread that holds the write lock keeps the records contiguous and the wire made of whole records and at most one header. |
| `Concurrency.CallerKeeps` | channel.go:87-114 | Each step of the thread that holds the read lock takes off exactly the record its counter waits for. |
| `Solo.SoloWrite` | channel.go:120-143 | The writer's steps without interruption have the effect, count and error of the method's whole call. |
| `Solo.SoloRead` | channel.go:83-115 | The reader's steps without interruption have the effect and result of the method's whole call, unless it would end at the end of the stream. |
| `Solo.WholeWrite` | channel.go:121-143 | From a free lock to a free lock, an uninterrupted thread does the whole Write. |
| `Solo.WholeRead` | channel.go:84-115 | From a free lock to a free lock, an uninterrupted thread does the whole Read. |
| `Progress.WritersFinish` | channel.go:121-142 | From every reachable state all Writes under way can run to their end and leave the lock free, whatever the readers do. |
| `Progress.WaitsOnlyWhenDrained` | channel.go:96-99 | With no record half-written, a reader waits only when everything sealed has been returned. |
| `Records.WriteAccounting` | channel.go:120-143 | On every exit: the count covers exactly the records framed without error, the counter grew by ceil(count/maxPlain), plus one exactly on a transport error, no record is ever too large, success means everything was written, and what left is the framed records and a piece of the failing one. |
| `Records.Conn.constructor` | channel.go:40-57 | Direction keys by role, equal to the arrays' contents before the call, although the arrays are zeroed. |
| `Records.Conn.Write` | channel.go:120-143 | The splitting loop does what `Send` says, to the counter, the wire, the count and the error. |
| `Records.Conn.Read` | channel.go:83-115 | Buffer first, else one record; the counter moves only when a record opens; bytes beyond the count are untouched. |
| `Records.Channel.constructor` | js/channel.ts:41-56 | Direction keys by role, counters at zero, no overflow. |
| `Records.Channel.SendAll` | py/channel.py:48-60 | The ports' send is the same function of counter, key and data as Go's Write. |
| `Records.Channel.Recv` | py/channel.py:62-73 | One whole record per receive, with the same errors and the same counter as Go's record step. |
| `Records.ReadKeepsBytes` | channel.go:87-114 | A Read, whole: the buffer first, else one receive; nothing is lost or invented; the caller gets as much as it has room for; an error leaves buffer and counter as they were. |
| `Records.ReceiveExact` | channel.go:96-108 | A whole frame gives the exhaustion error, the corruption error or the plaintext exactly as counter and AEAD, under the counter's nonce and without associated data, decide; the counter moves only with a plaintext. |
| `Records.ReceiveNothing` | channel.go:96-99 | Without a whole frame the framing error is passed on and the counter stays. |
| `Records.SealAllAt` | channel.go:133-135 | Record i of a call is the AEAD's seal of chunk i under the nonce of the counter plus i, without associated data. |
| `Records.NonceLayout` | channel.go:170-174 | Four zero bytes, then eight whose big-endian value is the counter. |
| `Records.RecordsFramable` | channel.go:124-137 | No record the splitter makes is refused by writeFrame or by the peer's length checks. |
| `Records.NonceForTs` | js/channel.ts:24-30 | The shift loop fills four zero bytes and the 64-bit big-endian counter. |
| `Records.NonceInjective` | channel.go:170-174 | Different counters below 2^64 have different nonces. |
| `Handshake.HonestSession` | handshake.go:132-256 | For all identities, randomness and matching pins where encapsulation succeeds: both roles succeed, leave the wire empty, hold the encapsulated secret and the keys of the two labels, and name each other. |
| `Establish.Establish` | channel.go:40-57 | After such a run newConn gives the two sides mirrored keys and fresh counters, surviving the zeroing; and each side's two keys differ unless inputs of the derivations collide. |
| `Handshake.RunInitiator` | handshake.go:132-199 | For every network: what is sent, what is consumed and every result, errors included; nothing is read unless the first message left whole. |
| `Handshake.RunResponder` | handshake.go:202-256 | For every network and every first frame: what is sent and consumed, and every result; nothing is sent on an error before the reply. |
| `Handshake.ConcludeExact` | handshake.go:151-198 | An initiator ends with a result if and only if the frame is a ciphertext of its key and a payload that opens under the resp-id key with the ciphertext as associated data, to an identity and both halves of its signature on this transcript, the pin allows it, and the keys are those of the two labels. |
| `Handshake.RespondExact` | handshake.go:208-254 | A responder replies if and only if the frame is an identity that signed itself, the pin allows it and encapsulation succeeds; the reply is then the ciphertext and the seal, with it as associated data, of the responder's identity and signature. |
| `Handshake.PinFilters` | handshake.go:187-190 | A mismatch is reported only of a peer whose response passed every other check, and a pin changes nothing else. |
| `Handshake.SessionKeysDiffer` | handshake.go:165-196 | The two channel keys and the payload key of a session are three different keys unless inputs of their derivations collide. |
| `Handshake.Hello` | handshake.go:139-142 | The first message is always accepted by writeFrame and by the peer's length checks. |
| `Handshake.Respond` | handshake.go:208-247 | So is every reply. |
| `Handshake.HonestReply` | handshake.go:208-245 | An honest first message is answered whenever encapsulation succeeds and the pin allows it. |
| `Handshake.HonestClaim` | handshake.go:151-179 | Out of an honest reply the initiator reads the responder's ciphertext, secret, identity and signature. |
| `Handshake.HonestConclusion` | handshake.go:151-198 | An honest reply passes decryption, parsing, signature and pin, with the responder's secret. |
| `Handshake.TranscriptInputInjective` | handshake.go:275-283 | The transcript input determines identity bytes and ciphertext for lengths below 2^32. |
| `Handshake.RolesSeparated` | handshake.go:31-33 | No digest input of the init label equals one of the response label. |
| `Handshake.TranscriptSeparated` | handshake.go:277-281 | No transcript input is the input of a signed digest. |
| `Handshake.TranscriptFields` | handshake.go:275-283 | Label, lengths and parts lie where the code writes them. |
| `Handshake.TranscriptHash` | handshake.go:275-283 | The hash object is fed exactly the transcript input. |
| `Wire.WriteFrame` | wire.go:22-35 | Header and payload are two writes; what left, the error and the remaining outcomes, for every failure. |
| `Wire.ReadFrame` | wire.go:37-54 | Result and remaining stream on every input. |
| `Wire.TakeFrameExact` | wire.go:37-54 | Reading gives a payload and a rest if and only if the stream is that payload's frame followed by that rest. |
| `Wire.TakeFrameErrors` | wire.go:37-54 | Each error exactly when: the stream is shorter than a header or begins a legal frame; the header announces too much; the header announces nothing. |
| `Wire.FrameLayout` | wire.go:26-31 | Four length bytes, most significant first, then the payload. |
| `Wire.EmitFramePrefix` | wire.go:22-35 | Whatever fails, a prefix of the frame left, and all of it on success. |
| `Wire.ReadFrames` | wire.go:37-54 | Repeated reads succeed to the end exactly on concatenations of frames, and return their payloads. |
| `Wire.FramesRoundTrip` | wire.go:22-54 | Framing any list of payloads of legal length and reading it back gives the list. |
| `Wire.FramingInjective` | wire.go:22-54 | Different lists give different streams. |
| `Wire.ReadExact` | py/handshake.py:160-167 | The loop ends with the same bytes for every fragmentation, and a short stream is an error that uses it up. |
| `Wire.ReadFrameFragmented` | py/handshake.py:150-157 | Result and consumed bytes equal those of one contiguous read. |
| `Codecs.PairVerdictUnique` | handshake.go:68-90 | Success on exactly the encodings, short read on their proper prefixes, format error on their proper extensions: this leaves a decoder no choice. |
| `Codecs.ResponseVerdictUnique` | handshake.go:103-121 | The same for responses, with their size check first. |
| `Codecs.DecodePairMeetsVerdict` | js/handshake.ts:191-208 | The offset decoders answer every byte string so. |
| `Codecs.DecodeResponseMeetsVerdict` | py/handshake.py:200-211 | So does the response decoder. |
| `Codecs.ParsePair` | handshake.go:68-90 | The mutable-cursor parser agrees with the offset decoders on every input, fields and error class included. |
| `Codecs.ParseResponse` | handshake.go:103-121 | So does the response parser. |
| `Codecs.SliceReader.ReadField` | handshake.go:336-352 | A length and that many bytes are taken off the cursor, or a short read. |
| `Codecs.PairCodecCanonical` | handshake.go:59-90 | Decoding undoes encoding, and encoding undoes every accepted decoding. |
| `Codecs.ResponseCodecCanonical` | handshake.go:95-121 | The same for responses with a full-size ciphertext. |
| `Codecs.PairLayout` | handshake.go:59-66 | Each field follows its own two length bytes, in order. |
| `Codecs.ResponseLayout` | handshake.go:95-101 | The ciphertext, two length bytes, the sealed payload. |
| `Codecs.MarshalPair` | handshake.go:288-295 | The appends build the encoding. |
| `Codecs.MarshalResponse` | handshake.go:95-101 | The appends build the encoding. |
| `Codecs.FillPair` | js/handshake.ts:181-189 | The writes by offset into a preallocated buffer build the same encoding. |
| `Codecs.AppendU16` | handshake.go:323-328 | Two big-endian bytes are appended. |
| `Hkdf.DeriveKey` | py/handshake.py:243-255 | The loop is HKDF of RFC 5869 without salt for every length up to 255*32, and fails on exactly the longer ones. |
| `Hkdf.OutputRecurrence` | py/handshake.py:251-254 | Every 32 bytes of output are the HMAC, under the extracted key, of the 32 bytes before them, the label and the position. |
| `Hkdf.DeriveBinds` | py/handshake.py:243-255 | 32 bytes of output or more determine secret and label, unless inputs of the two derivations collide. |
| `Hkdf.HmacLayout` | py/handshake.py:246-252 | HMAC of RFC 2104: the padded key xor the two constants, byte for byte. |
| `Hkdf.DerivePrefix` | py/handshake.py:251-255 | Shorter outputs are prefixes of longer ones. |
| `Hkdf.EmptySaltIsZeroSalt` | py/handshake.py:245-246 | The empty HMAC key is the default zero salt of section 2.2 of RFC 5869. |
| `Kem.Agreement` | kem.go:108-172 | Whatever the randomness, a successful encapsulation to a generated key decapsulates without error to the same secret. |
| `Kem.EncapsulationBinds` | kem.go:108-143 | Two encapsulations with one secret share both component secrets, the ephemeral and the recipient's point, unless their hash inputs collide. |
| `Kem.DecapsulationBinds` | kem.go:146-172 | The same for two decapsulations of any ciphertexts. |
| `Kem.CombinerLayout` | kem.go:186-193 | The hash input is 137 bytes: the nine label bytes, ML-KEM secret, X25519 secret, ephemeral point, recipient's point. |
| `Kem.EncapsulationParts` | kem.go:113-142 | The ciphertext is the ML-KEM ciphertext and the ephemeral point, and the secret the hash of its parts. |
| `Kem.GenerateWellFormed` | kem.go:89-104 | Generated keys meet what agreement needs. |
| `Kem.CodecCanonical` | kem.go:63-82 | The public-key codec is canonical in both directions. |
| `Kem.MarshalLayout` | kem.go:63-68 | The ML-KEM key, then the X25519 point. |
| `Kem.XWingEncapsulate` | kem.go:108-143 | The steps over an entropy reader and a hash object compute the encapsulation. |
| `Kem.XWingDecapsulate` | kem.go:146-172 | The steps compute the decapsulation, with every error. |
| `Kem.CombineXWing` | kem.go:186-197 | The hash object is fed label, both secrets and both points in the code's order. |
| `Kem.Zero` | kem.go:199-203 | The whole slice is zero afterwards. |
| `Identities.SignVerifies` | identity.go:82-107 | Both halves of a genuine signature verify, through the concatenation and the split. |
| `Identities.CodecCanonical` | identity.go:112-147 | The identity codec is canonical in both directions. |
| `Identities.MarshalFields` | identity.go:112-118 | The Ed25519 key, the ML-DSA key, the X-Wing key. |
| `Identities.ParseIdentityPublic` | identity.go:121-147 | The moving cursor cuts out the three keys, with every error. |
| `Identities.GenerateWellFormed` | identity.go:43-62 | Every generated identity can sign, verify and be encapsulated to. |
| `Identities.DigestInputInjective` | identity.go:183-190 | The digest input determines context and message for contexts under 256 bytes. |
| `Identities.DigestFields` | identity.go:183-190 | Domain, length byte, context, message. |
| `Identities.EqualIsByteEquality` | identity.go:150-164 | The comparison is equality of all keys, hence of the wire bytes. |
| `Identities.ConstantTimeEq` | js/identity.ts:189-194 | The xor/or accumulator decides equality of byte strings, lengths included. |
| `Identities.IdentityEqualsTs` | js/identity.ts:180-187 | True exactly when all four fields are equal. |
| `Identities.IdentityEqualsPy` | py/identity.py:176-190 | The single accumulator over nested loops is true exactly when all four fields are equal. |

## Left out

- The internals of ML-KEM, ML-DSA, Ed25519, X25519, SHA-2, SHA-3 and ChaCha20-Poly1305: functions with laws stand for them, and ML-KEM's negligible decapsulation failure is not modelled.
- Secrecy, forward secrecy, computational bounds and timing: they are not functional properties of this code. Zeroing is modelled only for the key slices of newConn.
- Freshness and one-to-one agreement: no message carries an initiator nonce, so a matching run exists but need not be unique or recent.
- Agreement on the responder's X-Wing key without a pin: the response signature does not cover the responder's own identity bytes (handshake.go:237-239).
- Conformance of the combiner to the published X-Wing draft: only the agreement of both sides is proved, in the code's order.
- Concurrent send or recv on one TypeScript or Python channel: those channels hold no lock, so their calls are modelled one at a time.
- Transport errors between threads: the step machine has a wire without errors, and a read that lacks bytes waits; failing transports are in Sessions and Records.
- Timeouts and a stream that stays open without data: outside the step machine and Streams, a stream is the finite string of bytes it will ever deliver.
- The TypeScript channel's aliasing of the caller's key buffers (js/channel.ts:51-55): `Channel` holds its keys as values.
- The anonymous errors of the ports: they are mapped to Go's error of the same branch. Their order of size and exhaustion checks is the same.
- Key validation in the TypeScript and Python identity parsers: they check only the size, while the modelled Go parser also rejects ML-KEM keys its library rejects; ML-DSA keys of the right size are always accepted.
- Codecs.MarshalPair: requires fields of at most 65535 bytes, because beyond that Go panics, Python raises and TypeScript truncates; every field the protocol builds is shown to fit.
- Codecs.MarshalResponse: requires a full-size ciphertext and a field of at most 65535 bytes, for the same reason.
- Codecs.FillPair: requires fields of at most 65535 bytes, for the same reason.
- Codecs.AppendU16: requires a value of at most 65535, where the code panics.
- Handshake.RunInitiator: requires a well-formed local identity, which `Identities.GenerateWellFormed` proves of every generated one.
- Handshake.RunResponder: requires a well-formed local identity, as above.
- The handshake roles of the TypeScript and Python ports: the same composition as Go's, over the codecs and derivation proved equivalent here.
- dial.go, listen.go, zap.go, config.go, cmd/, js/kem.ts, py/kem.py, js/zwing.ts, py/zwing.py: sockets, deadlines and wrappers, which would only add easy members.
