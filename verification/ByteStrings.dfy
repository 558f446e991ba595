/** Bytes, big-endian integers and the small sequence facts shared by every other module. */
module ByteStrings {

  type byte = b: int | 0 <= b < 256
  type Bytes = seq<byte>

  datatype Option<+T> = None | Some(value: T)

  datatype Result<+T> = Ok(value: T) | Err(error: Error)

  /** The error values of errors.go, plus the anonymous errors of the primitives. */
  datatype Error =
    | ShortRead
    | InvalidWireFormat
    | MessageTooLarge
    | SequenceExhausted
    | CiphertextCorrupted
    | IdentityMismatch
    | SignatureInvalid
    | ConfigMissingID
    | EndOfStream
    | Transport
    | BadSize
    | KeyRejected
    | EntropyExhausted
    | LowOrderPoint
    | CounterOverflow

  function Min(a: nat, b: nat): (r: nat)
    ensures r <= a && r <= b && (r == a || r == b)
  {
    if a < b then a else b
  }

  /** The bytes of an ASCII label. */
  function Ascii(s: string): (r: Bytes)
    ensures |r| == |s|
    ensures forall i :: 0 <= i < |s| ==> r[i] == (s[i] as int) % 256
  {
    seq(|s|, i requires 0 <= i < |s| => (s[i] as int) % 256)
  }

  function Zeros(n: nat): (r: Bytes)
    ensures |r| == n
    ensures forall i :: 0 <= i < n ==> r[i] == 0
  {
    seq(n, i => 0)
  }

  // ---------- big-endian integers ----------

  function Pow256(w: nat): (p: nat)
    ensures p >= 1
  {
    if w == 0 then 1 else 256 * Pow256(w - 1)
  }

  lemma Pow256Values()
    ensures Pow256(1) == 0x100
    ensures Pow256(2) == 0x1_0000
    ensures Pow256(4) == 0x1_0000_0000
    ensures Pow256(8) == 0x1_0000_0000_0000_0000
  {
    assert Pow256(3) == 256 * Pow256(2);
    assert Pow256(4) == 256 * Pow256(3);
    assert Pow256(5) == 256 * Pow256(4);
    assert Pow256(6) == 256 * Pow256(5);
    assert Pow256(7) == 256 * Pow256(6);
    assert Pow256(8) == 256 * Pow256(7);
  }

  /** The low `w` bytes of `n`, most significant first. */
  function BigEndian(n: nat, w: nat): (r: Bytes)
    ensures |r| == w
  {
    seq(w, i requires 0 <= i < w => n / Pow256(w - 1 - i) % 256)
  }

  /** The value of a big-endian byte string. */
  function Value(b: Bytes): (n: nat)
    ensures n < Pow256(|b|)
  {
    if b == [] then 0 else 256 * Value(b[..|b| - 1]) + b[|b| - 1]
  }

  /** All but the last byte encode the quotient, and the last byte is the remainder. */
  lemma BigEndianStep(n: nat, w: nat)
    requires w > 0
    ensures BigEndian(n, w) == BigEndian(n / 256, w - 1) + [n % 256]
  {
    var long, short := BigEndian(n, w), BigEndian(n / 256, w - 1);
    forall i | 0 <= i < w - 1 ensures long[i] == short[i] {
      DivDiv(n, Pow256(w - 2 - i));
      assert Pow256(w - 1 - i) == 256 * Pow256(w - 2 - i);
      assert long[i] == n / Pow256(w - 1 - i) % 256;
      assert short[i] == n / 256 / Pow256(w - 2 - i) % 256;
    }
    assert long[w - 1] == n / Pow256(0) % 256;
  }

  lemma {:induction false} ValueOfBigEndian(n: nat, w: nat)
    requires n < Pow256(w)
    ensures Value(BigEndian(n, w)) == n
    decreases w
  {
    if w > 0 {
      ValueOfBigEndian(n / 256, w - 1);
      BigEndianStep(n, w);
      assert BigEndian(n, w)[..w - 1] == BigEndian(n / 256, w - 1);
    }
  }

  lemma {:induction false} BigEndianOfValue(b: Bytes)
    ensures BigEndian(Value(b), |b|) == b
  {
    if b != [] {
      var front := b[..|b| - 1];
      BigEndianOfValue(front);
      BigEndianStep(Value(b), |b|);
      assert Value(b) / 256 == Value(front);
      assert b == front + [b[|b| - 1]];
    }
  }

  /** Two values below 256^w with the same encoding are the same value. */
  lemma BigEndianInjective(m: nat, n: nat, w: nat)
    requires m < Pow256(w) && n < Pow256(w)
    requires BigEndian(m, w) == BigEndian(n, w)
    ensures m == n
  {
    ValueOfBigEndian(m, w);
    ValueOfBigEndian(n, w);
  }

  /** The layout of a 32-bit big-endian integer. */
  lemma FourBytes(n: nat)
    ensures BigEndian(n, 4) == [n / 0x100_0000 % 256, n / 0x1_0000 % 256, n / 0x100 % 256, n % 256]
  {
    Pow256Values();
    assert Pow256(3) == 256 * Pow256(2);
    assert BigEndian(n, 4) == [n / Pow256(3) % 256, n / Pow256(2) % 256, n / Pow256(1) % 256, n / Pow256(0) % 256];
  }

  lemma DivDiv(n: nat, p: nat)
    requires p > 0
    ensures (n / 256) / p == n / (256 * p)
  {
    var q := n / 256;
    var d := q / p;
    assert d * p <= q < d * p + p;
    assert d * (256 * p) <= n < d * (256 * p) + 256 * p;
    QuotientUnique(n, 256 * p, d);
  }

  lemma QuotientUnique(n: nat, m: nat, d: nat)
    requires m > 0
    requires d * m <= n < d * m + m
    ensures n / m == d
  {
    var e := n / m;
    assert e * m <= n < e * m + m;
    if e < d {
      MulOrder(e, d, m);
    } else if d < e {
      MulOrder(d, e, m);
    }
  }

  lemma MulOrder(a: nat, b: nat, m: nat)
    requires a < b
    ensures a * m + m <= b * m
  {
    var c: nat := b - a - 1;
    assert b == a + 1 + c;
    assert (a + 1 + c) * m == a * m + m + c * m;
  }

  lemma Assoc(a: Bytes, b: Bytes, c: Bytes)
    ensures a + b + c == a + (b + c)
  {
  }

  // ---------- concatenation ----------

  function Concat(parts: seq<Bytes>): (r: Bytes)
  {
    if parts == [] then [] else parts[0] + Concat(parts[1..])
  }

  lemma {:induction false} ConcatAppend(a: seq<Bytes>, b: seq<Bytes>)
    ensures Concat(a + b) == Concat(a) + Concat(b)
  {
    if a == [] {
      assert a + b == b;
    } else {
      assert (a + b)[1..] == a[1..] + b;
      ConcatAppend(a[1..], b);
    }
  }

  lemma ConcatOne(x: Bytes)
    ensures Concat([x]) == x
  {
    assert Concat([x]) == x + Concat([]);
  }

  /** Appending one part to a list appends its bytes to the concatenation. */
  lemma ConcatSnoc(a: seq<Bytes>, x: Bytes)
    ensures Concat(a + [x]) == Concat(a) + x
  {
    ConcatAppend(a, [x]);
    ConcatOne(x);
  }

  // ---------- hash collisions, among the inputs one actually hashes ----------

  /** No input of the one set collides with a different input of the other. */
  ghost predicate Apart(h: Bytes -> Bytes, xs: set<Bytes>, ys: set<Bytes>) {
    forall x, y :: x in xs && y in ys && h(x) == h(y) ==> x == y
  }

  // ---------- bitwise operators on naturals ----------

  function Xor(a: nat, b: nat): (r: nat)
  {
    if a == 0 && b == 0 then 0 else 2 * Xor(a / 2, b / 2) + (a + b) % 2
  }

  function Or(a: nat, b: nat): (r: nat)
  {
    if a == 0 && b == 0 then 0
    else 2 * Or(a / 2, b / 2) + (if a % 2 == 1 || b % 2 == 1 then 1 else 0)
  }

  lemma {:induction false} XorZero(a: nat, b: nat)
    ensures Xor(a, b) == 0 <==> a == b
  {
    if a != 0 || b != 0 { XorZero(a / 2, b / 2); }
  }

  lemma XorStep(a: nat, b: nat)
    ensures Xor(a, b) == 2 * Xor(a / 2, b / 2) + (a + b) % 2
  {
  }

  /** A common operand cancels. */
  lemma {:induction false} XorCancel(a: nat, b: nat, c: nat)
    requires Xor(a, c) == Xor(b, c)
    ensures a == b
    decreases a + b
  {
    if a + b > 0 {
      XorParts(a, c);
      XorParts(b, c);
      XorCancel(a / 2, b / 2, c / 2);
    }
  }

  lemma {:induction false} OrZero(a: nat, b: nat)
    ensures Or(a, b) == 0 <==> a == 0 && b == 0
  {
    if a != 0 || b != 0 { OrZero(a / 2, b / 2); }
  }

  /** Bit `k` of a natural number. */
  predicate Bit(n: nat, k: nat)
    decreases k
  {
    if k == 0 then n % 2 == 1 else Bit(n / 2, k - 1)
  }

  lemma {:induction false} ZeroBits(k: nat)
    ensures !Bit(0, k)
  {
    if k > 0 { ZeroBits(k - 1); }
  }

  lemma XorParts(a: nat, b: nat)
    ensures Xor(a, b) / 2 == Xor(a / 2, b / 2)
    ensures Xor(a, b) % 2 == 1 <==> (a % 2 == 1) != (b % 2 == 1)
  {
    XorStep(a, b);
    Halves(Xor(a / 2, b / 2), a, b, Xor(a, b));
  }

  lemma Halves(x: nat, a: nat, b: nat, v: nat)
    requires v == 2 * x + (a + b) % 2
    ensures v / 2 == x
    ensures v % 2 == 1 <==> (a % 2 == 1) != (b % 2 == 1)
  {
  }

  /** Exclusive or, bit by bit. */
  lemma {:induction false} XorBits(a: nat, b: nat, k: nat)
    ensures Bit(Xor(a, b), k) <==> Bit(a, k) != Bit(b, k)
    decreases k
  {
    XorParts(a, b);
    if k > 0 {
      XorBits(a / 2, b / 2, k - 1);
    }
  }

  /** Inclusive or, bit by bit. */
  lemma {:induction false} OrBits(a: nat, b: nat, k: nat)
    ensures Bit(Or(a, b), k) <==> Bit(a, k) || Bit(b, k)
    decreases k
  {
    if a == 0 && b == 0 {
      ZeroBits(k);
    } else if k > 0 {
      assert Or(a, b) / 2 == Or(a / 2, b / 2);
      OrBits(a / 2, b / 2, k - 1);
    }
  }

  lemma {:induction false} XorBound(a: nat, b: nat, bits: nat)
    requires a < Pow2(bits) && b < Pow2(bits)
    ensures Xor(a, b) < Pow2(bits)
    decreases bits
  {
    if a != 0 || b != 0 { XorBound(a / 2, b / 2, bits - 1); }
  }

  function Pow2(n: nat): (p: nat)
    ensures p >= 1
  {
    if n == 0 then 1 else 2 * Pow2(n - 1)
  }

  lemma XorByte(a: byte, b: byte)
    ensures 0 <= Xor(a, b) < 256
  {
    assert Pow2(8) == 256 by {
      assert Pow2(2) == 4;
      assert Pow2(4) == 2 * Pow2(3);
      assert Pow2(6) == 2 * Pow2(5);
      assert Pow2(8) == 2 * Pow2(7);
    }
    XorBound(a, b, 8);
  }
}
