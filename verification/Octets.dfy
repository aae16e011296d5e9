/** Octet strings and integers: big-endian conversion in both directions, and
    the number of bits of a natural number. */
module Octets {
  import opened NumberTheory

  type Byte = b: int | 0 <= b < 256

  type Bytes = seq<Byte>

  datatype Result<T> = Ok(value: T) | Err(error: Error)

  /** The exceptions the signing code raises. */
  datatype Error = Overflow | ModulusTooSmall | MessageNotBelowModulus | NoInvertibleDraw |
    BlindedOutOfRange | InvalidSignature

  /** `int.from_bytes(b, "big")` */
  function Os2ip(b: Bytes): (r: int)
    ensures r >= 0
  {
    if b == [] then 0 else Os2ip(b[..|b| - 1]) * 256 + b[|b| - 1]
  }

  /** The low `len` octets of `x`, most significant first. */
  function LowOctets(x: nat, len: nat): (b: Bytes)
    ensures |b| == len
  {
    if len == 0 then [] else LowOctets(x / 256, len - 1) + [x % 256]
  }

  /** `x.to_bytes(length, "big")`, which raises when `x` does not fit. */
  function I2osp(x: nat, len: nat): (r: Result<Bytes>)
    ensures r.Ok? <==> x < Pow(256, len)
    ensures r.Ok? ==> |r.value| == len
    ensures r.Err? ==> r.error == Overflow
  {
    if x < Pow(256, len) then Ok(LowOctets(x, len)) else Err(Overflow)
  }

  lemma {:induction false} Os2ipBound(b: Bytes)
    ensures Os2ip(b) < Pow(256, |b|)
  {
    if b != [] { Os2ipBound(b[..|b| - 1]); }
  }

  lemma {:induction false} OctetsRoundTrip(x: nat, len: nat)
    requires x < Pow(256, len)
    ensures Os2ip(LowOctets(x, len)) == x
  {
    if len > 0 {
      OctetsRoundTrip(x / 256, len - 1);
      assert LowOctets(x, len)[..len - 1] == LowOctets(x / 256, len - 1);
    }
  }

  lemma {:induction false} Os2ipRoundTrip(b: Bytes)
    ensures LowOctets(Os2ip(b), |b|) == b
  {
    if b != [] {
      var front, last := b[..|b| - 1], b[|b| - 1];
      Os2ipRoundTrip(front);
      QuotientUnique(Os2ip(b), 256, Os2ip(front), last);
      assert b == front + [last];
    }
  }

  /** Converting to octets and back is the identity both ways, on exactly the
      integers that fit. */
  lemma {:induction false} I2ospRoundTrip(x: nat, len: nat, b: Bytes)
    ensures I2osp(x, len) == Ok(b) <==> |b| == len && Os2ip(b) == x
  {
    Os2ipBound(b);
    Os2ipRoundTrip(b);
    if x < Pow(256, len) { OctetsRoundTrip(x, len); }
  }

  lemma {:induction false} Os2ipConcat(a: Bytes, b: Bytes)
    ensures Os2ip(a + b) == Os2ip(a) * Pow(256, |b|) + Os2ip(b)
  {
    if b == [] {
      assert a + b == a;
    } else {
      var front, last := b[..|b| - 1], b[|b| - 1];
      Os2ipConcat(a, front);
      assert (a + b)[..|a + b| - 1] == a + front;
      Assoc(Os2ip(a), Pow(256, |front|), 256);
      assert Pow(256, |b|) == 256 * Pow(256, |front|);
    }
  }

  // ----- bit lengths

  /** `x.bit_length()` */
  function BitLength(x: nat): (n: nat)
    ensures n == 0 <==> x == 0
  {
    if x == 0 then 0 else BitLength(x / 2) + 1
  }

  lemma {:induction false} BitLengthBounds(x: nat)
    requires x > 0
    ensures Pow(2, BitLength(x) - 1) <= x < Pow(2, BitLength(x))
  {
    if x == 1 {
      assert BitLength(1) == BitLength(0) + 1;
      assert Pow(2, 1) == 2 * Pow(2, 0);
    } else {
      BitLengthBounds(x / 2);
    }
  }

  lemma {:induction false} PowMonotone(b: int, x: nat, y: nat)
    requires b > 1 && x <= y
    ensures 1 <= Pow(b, x) <= Pow(b, y)
    ensures x < y ==> Pow(b, x) < Pow(b, y)
    decreases y
  {
    PowPositive(b, x);
    if x < y {
      PowMonotone(b, x, y - 1);
      MulAtLeast(b - 1, Pow(b, y - 1));
      assert b * Pow(b, y - 1) == (b - 1) * Pow(b, y - 1) + Pow(b, y - 1);
    }
  }

  /** A positive number has `k` bits exactly when it lies between the powers of two. */
  lemma {:induction false} BitLengthIff(x: nat, k: nat)
    ensures BitLength(x) <= k <==> x < Pow(2, k)
  {
    PowMonotone(2, 0, k);
    if x > 0 {
      BitLengthBounds(x);
      var n := BitLength(x);
      if n <= k { PowMonotone(2, n, k); } else { PowMonotone(2, k, n - 1); }
    }
  }

  lemma {:induction false} PowBytes(len: nat)
    ensures Pow(256, len) == Pow(2, 8 * len)
  {
    PowMul(2, 8, len);
    assert Pow(2, 8) == 256 by { PowTwo8(); }
  }

  lemma PowTwo8()
    ensures Pow(2, 0) == 1 && Pow(2, 1) == 2 && Pow(2, 2) == 4 && Pow(2, 3) == 8 && Pow(2, 4) == 16
    ensures Pow(2, 5) == 32 && Pow(2, 6) == 64 && Pow(2, 7) == 128 && Pow(2, 8) == 256
  {
    assert Pow(2, 2) == 2 * Pow(2, 1);
    assert Pow(2, 4) == 2 * Pow(2, 3);
    assert Pow(2, 6) == 2 * Pow(2, 5);
    assert Pow(2, 8) == 2 * Pow(2, 7);
  }

  /** The octets that hold a number of `bits` bits: `(bits + 7) // 8`. */
  function ByteLength(bits: nat): nat
  {
    (bits + 7) / 8
  }

  lemma {:induction false} FitsByteLength(n: nat)
    ensures n < Pow(256, ByteLength(BitLength(n)))
  {
    var k := BitLength(n);
    BitLengthIff(n, k);
    PowBytes(ByteLength(k));
    PowMonotone(2, k, 8 * ByteLength(k));
  }

  // ----- bitwise exclusive or

  /** The exclusive or of the `bits` low bits of `a` and `b`. */
  function XorBits(a: nat, b: nat, bits: nat): nat
  {
    if bits == 0 then 0 else (a % 2 + b % 2) % 2 + 2 * XorBits(a / 2, b / 2, bits - 1)
  }

  function Xor(a: Byte, b: Byte): (c: Byte)
  {
    XorBound(a, b, 8);
    PowTwo8();
    XorBits(a, b, 8)
  }

  lemma {:induction false} XorBound(a: nat, b: nat, bits: nat)
    ensures XorBits(a, b, bits) < Pow(2, bits)
  {
    if bits > 0 { XorBound(a / 2, b / 2, bits - 1); }
  }

  /** Bit `k` of a number. */
  function Bit(x: nat, k: nat): nat
  {
    if k == 0 then x % 2 else Bit(x / 2, k - 1)
  }

  /** Bit `k` of the exclusive or is set if and only if bit `k` of one operand is. */
  lemma {:induction false} XorBitsAt(a: nat, b: nat, bits: nat, k: nat)
    requires k < bits
    ensures Bit(XorBits(a, b, bits), k) == 1 <==> Bit(a, k) != Bit(b, k)
  {
    XorStep(a, b, bits);
    if k > 0 { XorBitsAt(a / 2, b / 2, bits - 1, k - 1); }
  }

  lemma {:induction false} BitIs(x: nat, k: nat)
    ensures Pow(2, k) > 0 && Bit(x, k) == x / Pow(2, k) % 2
  {
    PowPositive(2, k);
    if k > 0 {
      PowPositive(2, k - 1);
      BitIs(x / 2, k - 1);
      HalvedBit(x, k);
    }
  }

  lemma HalvedBit(x: nat, k: nat)
    requires k > 0 && Pow(2, k) > 0 && Pow(2, k - 1) > 0
    ensures x / Pow(2, k) == x / 2 / Pow(2, k - 1)
  {
    var m := Pow(2, k - 1);
    var q, r := x / 2 / m, x / 2 % m;
    assert x / 2 == q * m + r;
    assert x == q * (2 * m) + (2 * r + x % 2) by { assert q * (2 * m) == 2 * (q * m); }
    QuotientUnique(x, 2 * m, q, 2 * r + x % 2);
  }

  lemma {:induction false} XorAt(a: Byte, b: Byte, k: nat)
    requires k < 8
    ensures Pow(2, k) > 0
    ensures Xor(a, b) / Pow(2, k) % 2 == 1 <==> a / Pow(2, k) % 2 != b / Pow(2, k) % 2
  {
    XorBitsAt(a, b, 8, k);
    BitIs(a, k);
    BitIs(b, k);
    BitIs(Xor(a, b), k);
  }

  lemma ModPowTwo(x: nat, j: nat)
    requires j > 0
    ensures Pow(2, j) > 0 && Pow(2, j - 1) > 0
    ensures x % Pow(2, j) == x % 2 + 2 * (x / 2 % Pow(2, j - 1))
  {
    PowPositive(2, j);
    PowPositive(2, j - 1);
    var m := Pow(2, j - 1);
    var h, q := x / 2, x / 2 / m;
    assert h == q * m + h % m;
    assert x == q * (2 * m) + (x % 2 + 2 * (h % m)) by { assert q * (2 * m) == 2 * (q * m); }
    QuotientUnique(x, 2 * m, q, x % 2 + 2 * (h % m));
  }

  lemma XorStep(a: nat, b: nat, bits: nat)
    requires bits > 0
    ensures XorBits(a, b, bits) % 2 == (a % 2 + b % 2) % 2
    ensures XorBits(a, b, bits) / 2 == XorBits(a / 2, b / 2, bits - 1)
  {}

  lemma LowHalf(x: nat, j: nat)
    requires j > 0
    ensures Pow(2, j) > 0 && Pow(2, j - 1) > 0
    ensures x % Pow(2, j) % 2 == x % 2 && x % Pow(2, j) / 2 == x / 2 % Pow(2, j - 1)
  {
    ModPowTwo(x, j);
  }

  lemma SameLow(x: nat, y: nat, j: nat)
    requires j > 0 && Pow(2, j) > 0 && Pow(2, j - 1) > 0
    requires x % 2 == y % 2 && x / 2 % Pow(2, j - 1) == y / 2 % Pow(2, j - 1)
    ensures x % Pow(2, j) == y % Pow(2, j)
  {
    ModPowTwo(x, j);
    ModPowTwo(y, j);
  }

  lemma ParityTwice(a: nat, b: nat)
    ensures ((a % 2 + b % 2) % 2 + b % 2) % 2 == a % 2
  {}

  /** Keeping the low `j` bits of an exclusive or, and undoing it on those bits,
      gives back the low `j` bits of the first operand. */
  lemma {:induction false} XorLowInvolution(a: nat, b: nat, bits: nat, j: nat, wide: nat)
    requires j <= bits && j <= wide
    ensures Pow(2, j) > 0
    ensures XorBits(XorBits(a, b, bits) % Pow(2, j), b, wide) % Pow(2, j) == a % Pow(2, j)
    decreases j
  {
    PowPositive(2, j);
    if j > 0 {
      var x := XorBits(a, b, bits);
      var y := x % Pow(2, j);
      XorStep(a, b, bits);
      LowHalf(x, j);
      XorStep(y, b, wide);
      ParityTwice(a, b);
      XorLowInvolution(a / 2, b / 2, bits - 1, j - 1, wide - 1);
      SameLow(XorBits(y, b, wide), a, j);
    }
  }

  lemma {:induction false} XorTwice(a: nat, b: nat, bits: nat)
    requires a < Pow(2, bits)
    ensures XorBits(XorBits(a, b, bits), b, bits) == a
  {
    var x := XorBits(a, b, bits);
    XorBound(a, b, bits);
    XorBound(x, b, bits);
    XorLowInvolution(a, b, bits, bits, bits);
    QuotientUnique(a, Pow(2, bits), 0, a);
    QuotientUnique(x, Pow(2, bits), 0, x);
    QuotientUnique(XorBits(x, b, bits), Pow(2, bits), 0, XorBits(x, b, bits));
  }
}
