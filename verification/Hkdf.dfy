/** HMAC (RFC 2104), HKDF (RFC 5869) and the Python expand loop. */
module Hkdf {
  import opened ByteStrings
  import opened Primitives

  const BLOCK_SIZE: nat := 64

  function ByteXor(a: byte, b: byte): byte {
    XorByte(a, b);
    Xor(a, b)
  }

  function XorPad(key: Bytes, pad: byte): (r: Bytes)
    ensures |r| == |key|
  {
    seq(|key|, i requires 0 <= i < |key| => ByteXor(key[i], pad))
  }

  /** Section 2 of RFC 2104: over-long keys are hashed, then zeros fill the block. */
  function PadKey(h: Hash, key: Bytes): (r: Bytes)
    ensures |r| == BLOCK_SIZE
  {
    var k := if |key| > BLOCK_SIZE then h(key) else key;
    k + Zeros(BLOCK_SIZE - |k|)
  }

  function InnerInput(h: Hash, key: Bytes, message: Bytes): Bytes {
    XorPad(PadKey(h, key), 0x36) + message
  }

  function OuterInput(h: Hash, key: Bytes, message: Bytes): Bytes {
    XorPad(PadKey(h, key), 0x5c) + h(InnerInput(h, key, message))
  }

  function Hmac(h: Hash, key: Bytes, message: Bytes): (r: Bytes)
    ensures |r| == DIGEST_SIZE
  {
    h(OuterInput(h, key, message))
  }

  /** Section 2 of RFC 2104: the block-sized key xor 0x36 or 0x5c, byte for byte, before message and inner digest. */
  lemma HmacLayout(h: Hash, key: Bytes, message: Bytes)
    ensures Hmac(h, key, message) == h(OuterInput(h, key, message))
    ensures var k := PadKey(h, key);
            var x, y := InnerInput(h, key, message), OuterInput(h, key, message);
            && |x| == BLOCK_SIZE + |message| && x[BLOCK_SIZE..] == message
            && |y| == BLOCK_SIZE + DIGEST_SIZE && y[BLOCK_SIZE..] == h(x)
            && forall i :: 0 <= i < BLOCK_SIZE ==> x[i] == Xor(k[i], 0x36) && y[i] == Xor(k[i], 0x5c)
  {
  }

  /** T(i) of section 2.3 of RFC 5869. */
  function Block(h: Hash, prk: Bytes, info: Bytes, i: nat): (r: Bytes)
    requires i <= 255
    ensures |r| == if i == 0 then 0 else DIGEST_SIZE
  {
    if i == 0 then [] else Hmac(h, prk, Block(h, prk, info, i - 1) + info + [i])
  }

  /** T(1) || ... || T(n). */
  function Blocks(h: Hash, prk: Bytes, info: Bytes, n: nat): (r: Bytes)
    requires n <= 255
    ensures |r| == DIGEST_SIZE * n
  {
    if n == 0 then [] else Blocks(h, prk, info, n - 1) + Block(h, prk, info, n)
  }

  const MAX_OUTPUT: nat := 255 * DIGEST_SIZE

  /** Section 2.2 of RFC 5869; without a salt, zeros are used. */
  function Extract(h: Hash, salt: Option<Bytes>, secret: Bytes): (prk: Bytes)
    ensures |prk| == DIGEST_SIZE
  {
    Hmac(h, if salt.Some? then salt.value else Zeros(DIGEST_SIZE), secret)
  }

  /** HKDF of RFC 5869: the first `length` bytes of the block stream under the extracted key. */
  function Derive(h: Hash, salt: Option<Bytes>, secret: Bytes, info: Bytes, length: nat): (r: Bytes)
    requires length <= MAX_OUTPUT
    ensures |r| == length
  {
    var prk := Extract(h, salt, secret);
    Blocks(h, prk, info, BlockCount(length))[..length]
  }

  /** The least number of blocks that hold `length` bytes. */
  function BlockCount(length: nat): (n: nat)
    ensures DIGEST_SIZE * n >= length && DIGEST_SIZE * n < length + DIGEST_SIZE
  {
    (length + DIGEST_SIZE - 1) / DIGEST_SIZE
  }

  lemma {:induction false} BlocksPrefix(h: Hash, prk: Bytes, info: Bytes, m: nat, n: nat)
    requires m <= n <= 255
    ensures Blocks(h, prk, info, m) <= Blocks(h, prk, info, n)
    decreases n
  {
    if m < n { BlocksPrefix(h, prk, info, m, n - 1); }
  }

  /** Section 2.2 of RFC 5869 defaults the salt to zeros; under HMAC's padding an empty key is the same key. */
  lemma EmptySaltIsZeroSalt(h: Hash, message: Bytes)
    ensures Hmac(h, [], message) == Hmac(h, Zeros(DIGEST_SIZE), message)
  {
    assert PadKey(h, []) == Zeros(BLOCK_SIZE) == PadKey(h, Zeros(DIGEST_SIZE));
  }

  /** Shorter outputs are prefixes of longer ones. */
  lemma DerivePrefix(h: Hash, salt: Option<Bytes>, secret: Bytes, info: Bytes, short: nat, long: nat)
    requires short <= long <= MAX_OUTPUT
    ensures Derive(h, salt, secret, info, short) <= Derive(h, salt, secret, info, long)
  {
    var prk := Extract(h, salt, secret);
    BlocksPrefix(h, prk, info, BlockCount(short), BlockCount(long));
    assert Blocks(h, prk, info, BlockCount(long))[..long][..short]
        == Blocks(h, prk, info, BlockCount(short))[..short];
  }

  // ---------- the output as RFC 5869 describes it ----------

  lemma {:induction false} BlocksAt(h: Hash, prk: Bytes, info: Bytes, i: nat, n: nat)
    requires 1 <= i <= n <= 255
    ensures Blocks(h, prk, info, n)[DIGEST_SIZE * (i - 1)..DIGEST_SIZE * i] == Block(h, prk, info, i)
    decreases n
  {
    if i < n {
      BlocksAt(h, prk, info, i, n - 1);
      assert Blocks(h, prk, info, n)[DIGEST_SIZE * (i - 1)..DIGEST_SIZE * i]
          == Blocks(h, prk, info, n - 1)[DIGEST_SIZE * (i - 1)..DIGEST_SIZE * i];
    }
  }

  lemma OutputAt(h: Hash, salt: Option<Bytes>, secret: Bytes, info: Bytes, length: nat, i: nat)
    requires 1 <= i && DIGEST_SIZE * i <= length <= MAX_OUTPUT
    ensures i <= 255
    ensures Derive(h, salt, secret, info, length)[DIGEST_SIZE * (i - 1)..DIGEST_SIZE * i]
         == Block(h, Extract(h, salt, secret), info, i)
  {
    var prk := Extract(h, salt, secret);
    BlocksAt(h, prk, info, i, BlockCount(length));
    assert Blocks(h, prk, info, BlockCount(length))[..length][DIGEST_SIZE * (i - 1)..DIGEST_SIZE * i]
        == Blocks(h, prk, info, BlockCount(length))[DIGEST_SIZE * (i - 1)..DIGEST_SIZE * i];
  }

  /** Section 2.3: every 32 bytes of output are the HMAC of the 32 bytes before them, the info and the position. */
  lemma OutputRecurrence(h: Hash, salt: Option<Bytes>, secret: Bytes, info: Bytes, length: nat, i: nat)
    requires 1 <= i && DIGEST_SIZE * i <= length <= MAX_OUTPUT
    ensures var out := Derive(h, salt, secret, info, length);
            var before := if i == 1 then [] else out[DIGEST_SIZE * (i - 2)..DIGEST_SIZE * (i - 1)];
            && i < 256
            && out[DIGEST_SIZE * (i - 1)..DIGEST_SIZE * i] == Hmac(h, Extract(h, salt, secret), before + info + [i])
  {
    OutputAt(h, salt, secret, info, length, i);
    if i > 1 {
      OutputAt(h, salt, secret, info, length, i - 1);
    }
  }

  // ---------- different secrets and labels give different keys ----------

  /** What one HMAC hashes. */
  function HmacInputs(h: Hash, key: Bytes, message: Bytes): set<Bytes> {
    {InnerInput(h, key, message), OuterInput(h, key, message)}
  }

  /** What a derivation hashes up to its first block. */
  function DeriveInputs(h: Hash, salt: Option<Bytes>, secret: Bytes, info: Bytes): set<Bytes> {
    HmacInputs(h, if salt.Some? then salt.value else Zeros(DIGEST_SIZE), secret) +
    HmacInputs(h, Extract(h, salt, secret), info + [1])
  }

  lemma XorPadInjective(a: Bytes, b: Bytes, pad: byte)
    requires XorPad(a, pad) == XorPad(b, pad)
    ensures a == b
  {
    assert |XorPad(a, pad)| == |a| && |XorPad(b, pad)| == |b|;
    forall i | 0 <= i < |a| ensures a[i] == b[i] {
      assert XorPad(a, pad)[i] == Xor(a[i], pad) && XorPad(b, pad)[i] == Xor(b[i], pad);
      XorCancel(a[i], b[i], pad);
    }
  }

  /** Without a collision, HMAC determines the padded key and the message. */
  lemma HmacBinds(h: Hash, k: Bytes, m: Bytes, l: Bytes, n: Bytes)
    requires Apart(h, HmacInputs(h, k, m), HmacInputs(h, l, n))
    requires Hmac(h, k, m) == Hmac(h, l, n)
    ensures PadKey(h, k) == PadKey(h, l) && m == n
  {
    var x, y := OuterInput(h, k, m), OuterInput(h, l, n);
    assert x == y;
    assert x[..BLOCK_SIZE] == XorPad(PadKey(h, k), 0x5c) && y[..BLOCK_SIZE] == XorPad(PadKey(h, l), 0x5c);
    assert x[BLOCK_SIZE..] == h(InnerInput(h, k, m)) && y[BLOCK_SIZE..] == h(InnerInput(h, l, n));
    XorPadInjective(PadKey(h, k), PadKey(h, l), 0x5c);
    assert InnerInput(h, k, m)[BLOCK_SIZE..] == m && InnerInput(h, l, n)[BLOCK_SIZE..] == n;
  }

  /** Without a collision, 32 bytes of output or more determine both the secret and the info. */
  lemma DeriveBinds(h: Hash, salt: Option<Bytes>, s: Bytes, i: Bytes, t: Bytes, j: Bytes, length: nat)
    requires DIGEST_SIZE <= length <= MAX_OUTPUT
    requires Apart(h, DeriveInputs(h, salt, s, i), DeriveInputs(h, salt, t, j))
    requires Derive(h, salt, s, i, length) == Derive(h, salt, t, j, length)
    ensures s == t && i == j
  {
    OutputRecurrence(h, salt, s, i, length, 1);
    OutputRecurrence(h, salt, t, j, length, 1);
    var p, q := Extract(h, salt, s), Extract(h, salt, t);
    assert [] + i + [1] == i + [1] && [] + j + [1] == j + [1];
    HmacBinds(h, p, i + [1], q, j + [1]);
    assert p == PadKey(h, p)[..DIGEST_SIZE] == PadKey(h, q)[..DIGEST_SIZE] == q;
    assert i == (i + [1])[..|i|] && j == (j + [1])[..|j|];
    var key := if salt.Some? then salt.value else Zeros(DIGEST_SIZE);
    HmacBinds(h, key, s, key, t);
  }

  /**
   derive_key of the Python port: HKDF with no salt for every length up to 255 * 32;
   beyond that the counter no longer fits a byte and the call fails.
   */
  method DeriveKey(h: Hash, secret: Bytes, info: Bytes, length: nat) returns (r: Result<Bytes>)
    ensures length <= MAX_OUTPUT ==> r == Ok(Derive(h, None, secret, info, length))
    ensures length > MAX_OUTPUT ==> r == Err(CounterOverflow)
  {
    EmptySaltIsZeroSalt(h, secret);
    var prk := Hmac(h, [], secret);
    var out: Bytes, t: Bytes, counter: nat := [], [], 1;
    while |out| < length
      invariant 1 <= counter <= 256
      invariant t == Block(h, prk, info, counter - 1)
      invariant out == Blocks(h, prk, info, counter - 1)
      invariant DIGEST_SIZE * (counter - 1) < length + DIGEST_SIZE
      decreases length - |out|
    {
      if counter > 255 {
        return Err(CounterOverflow);
      }
      t := Hmac(h, prk, t + info + [counter]);
      out := out + t;
      counter := counter + 1;
    }
    if length > MAX_OUTPUT {
      assert false;
    }
    assert counter - 1 == BlockCount(length);
    r := Ok(out[..length]);
  }
}
