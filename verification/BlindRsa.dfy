/** The integer core of the blind RSA signature: the issuer's CRT signing path,
    the client's blinding and unblinding, and what the issuer can learn. */
module BlindRsa {
  import opened NumberTheory

  /** The private numbers of an issuer key. */
  datatype PrivateKey = PrivateKey(
    p: int, q: int, n: int, e: nat, d: nat, dmp1: nat, dmq1: nat, iqmp: nat)

  /** What RSA key generation guarantees. The exponent equation is required
      modulo `p - 1` and `q - 1` separately, so `d` may be reduced modulo
      either the least common multiple or the product of the two. */
  ghost predicate WellFormed(k: PrivateKey)
  {
    && Prime(k.p) && Prime(k.q) && k.p != k.q && k.p > 2 && k.q > 2
    && k.n == k.p * k.q
    && Cong(k.e * k.d, 1, k.p - 1) && Cong(k.e * k.d, 1, k.q - 1)
    && k.dmp1 == k.d % (k.p - 1) && k.dmq1 == k.d % (k.q - 1)
    && k.iqmp < k.p && Cong(k.iqmp * k.q, 1, k.p)
  }

  /** There are well-formed keys above every bound: two primes beyond it, and the
      exponents 1 and 1. */
  lemma WellFormedKey(bound: nat) returns (k: PrivateKey)
    requires bound > 2
    ensures WellFormed(k) && k.n > bound
  {
    var p := PrimeAbove(bound);
    var q := PrimeAbove(p);
    assert !Divides(p, q);
    PrimeCoprime(p, q);
    var inverse := Inverse(q, p).value;
    assert inverse * q == q * inverse;
    QuotientUnique(1, p - 1, 0, 1);
    QuotientUnique(1, q - 1, 0, 1);
    ProductBound(p, q);
    k := PrivateKey(p, q, p * q, 1, 1, 1, 1, inverse);
  }

  // ----- the issuer

  function CrtHalf(x: int, d: nat, p: int): int
    requires p > 0
  {
    Pow(x % p, d) % p
  }

  /** The recombined value before its final reduction. */
  function CrtSum(k: PrivateKey, x: int): int
    requires k.p > 0 && k.q > 0
  {
    var m1 := CrtHalf(x, k.dmp1, k.p);
    var m2 := CrtHalf(x, k.dmq1, k.q);
    var h := k.iqmp * (m1 - m2) % k.p;
    m2 + h * k.q
  }

  function CrtSign(k: PrivateKey, x: int): int
    requires k.p > 0 && k.q > 0 && k.n > 0
  {
    CrtSum(k, x) % k.n
  }

  lemma ModulusPositive(k: PrivateKey)
    requires WellFormed(k)
    ensures k.n > 8 && k.n > k.p && k.n > k.q
  {
    ProductBound(k.p, k.q);
  }

  lemma ProductBound(p: int, q: int)
    requires p > 2 && q > 2
    ensures p * q > 8 && p * q > p && p * q > q
  {
    MulAtLeast(p - 2, q);
    assert p * q == (p - 2) * q + 2 * q;
    MulAtLeast(q - 2, p);
    assert p * q == (q - 2) * p + 2 * p;
  }

  lemma ExponentsPositive(e: nat, d: nat, p: int)
    requires p > 2 && Cong(e * d, 1, p - 1)
    ensures e > 0 && d > 0 && d % (p - 1) > 0
  {
    QuotientUnique(1, p - 1, 0, 1);
    QuotientUnique(0, p - 1, 0, 0);
    assert e != 0 && d != 0;
    if d % (p - 1) == 0 {
      CongMul(e, e, d, 0, p - 1);
    }
  }

  /** Reducing the exponent modulo `p - 1` does not change the power modulo `p`,
      for multiples of `p` as well. */
  lemma {:induction false} CrtHalfIsPower(x: int, e: nat, d: nat, p: int)
    requires Prime(p) && p > 2 && Cong(e * d, 1, p - 1)
    ensures Cong(CrtHalf(x, d % (p - 1), p), Pow(x, d), p)
  {
    ExponentsPositive(e, d, p);
    var f := d % (p - 1);
    CongMod(d, p - 1);
    FermatExponents(x, f, d, p);
    CongMod(x, p);
    CongPow(x % p, x, f, p);
    CongMod(Pow(x % p, f), p);
  }

  /** Garner recombination agrees with `m1` modulo `p` and with `m2` modulo `q`. */
  lemma Garner(m1: int, m2: int, iq: int, p: int, q: int)
    requires p > 0 && q > 0 && Cong(iq * q, 1, p)
    ensures var y := m2 + (iq * (m1 - m2) % p) * q; Cong(y, m1, p) && Cong(y, m2, q)
  {
    var h := iq * (m1 - m2) % p;
    ModShift(m2, h, q);
    CongMod(iq * (m1 - m2), p);
    CongMul(h, iq * (m1 - m2), q, q, p);
    assert (iq * (m1 - m2)) * q == (iq * q) * (m1 - m2);
    CongMul(iq * q, 1, m1 - m2, m1 - m2, p);
    CongAdd(m2, m2, h * q, m1 - m2, p);
  }

  /** The CRT path computes exactly `x^d mod n`, for every `x`, and the sum it
      reduces is already below `n`. */
  lemma {:induction false} CrtIsTextbook(k: PrivateKey, x: int)
    requires WellFormed(k) && 0 <= x < k.n
    ensures 0 <= CrtSum(k, x) < k.n
    ensures CrtSign(k, x) == Pow(x, k.d) % k.n
  {
    ModulusPositive(k);
    var m1 := CrtHalf(x, k.dmp1, k.p);
    var m2 := CrtHalf(x, k.dmq1, k.q);
    var h := k.iqmp * (m1 - m2) % k.p;
    var y := CrtSum(k, x);
    CrtHalfIsPower(x, k.e, k.d, k.p);
    CrtHalfIsPower(x, k.e, k.d, k.q);
    Garner(m1, m2, k.iqmp, k.p, k.q);
    CongProduct(y, Pow(x, k.d), k.p, k.q);
    RecombinedRange(m2, h, k.p, k.q);
  }

  lemma RecombinedRange(m: int, h: int, p: int, q: int)
    requires 0 <= m < q && 0 <= h < p
    ensures 0 <= m + h * q < p * q
  {
    assert p * q == (p - 1 - h) * q + h * q + q;
  }

  // ----- textbook RSA

  lemma {:induction false} PowerCycle(x: int, e: nat, d: nat, p: int)
    requires Prime(p) && p > 2 && Cong(e * d, 1, p - 1)
    ensures 0 <= e * d && Cong(Pow(x, e * d), x, p)
  {
    ExponentsPositive(e, d, p);
    MulAtLeast(e, d);
    FermatExponents(x, e * d, 1, p);
    assert Pow(x, 1) == x * Pow(x, 0);
  }

  /** Raising to `e` and then to `d`, in either order, is the identity modulo `n`. */
  lemma {:induction false} RsaInverse(k: PrivateKey, x: int)
    requires WellFormed(k)
    ensures k.n > 0
    ensures Cong(Pow(Pow(x, k.d), k.e), x, k.n) && Cong(Pow(Pow(x, k.e), k.d), x, k.n)
  {
    ModulusPositive(k);
    PowerCycle(x, k.e, k.d, k.p);
    PowerCycle(x, k.e, k.d, k.q);
    CongProduct(Pow(x, k.e * k.d), x, k.p, k.q);
    PowMul(x, k.e, k.d);
    PowMul(x, k.d, k.e);
    assert k.d * k.e == k.e * k.d;
  }

  // ----- the client

  function BlindValue(m: int, r: int, e: nat, n: int): int
    requires n > 0
  {
    m * (Pow(r, e) % n) % n
  }

  function Unblind(y: int, rInv: int, n: int): int
    requires n > 0
  {
    y * rInv % n
  }

  lemma {:induction false} BlindValueCong(m: int, r: int, e: nat, n: int)
    requires n > 0
    ensures 0 <= BlindValue(m, r, e, n) < n
    ensures Cong(BlindValue(m, r, e, n), m * Pow(r, e), n)
  {
    CongMod(Pow(r, e), n);
    CongMul(m, m, Pow(r, e) % n, Pow(r, e), n);
    CongMod(m * (Pow(r, e) % n), n);
  }

  /** Signing a blinded value signs the message, times the blinding factor. */
  lemma {:induction false} SignBlinded(k: PrivateKey, m: int, r: int)
    requires WellFormed(k) && 0 <= m < k.n
    ensures k.n > 0
    ensures Cong(CrtSign(k, BlindValue(m, r, k.e, k.n)), Pow(m, k.d) * r, k.n)
  {
    ModulusPositive(k);
    var n := k.n;
    var x := BlindValue(m, r, k.e, n);
    BlindValueCong(m, r, k.e, n);
    CrtIsTextbook(k, x);
    CongMod(Pow(x, k.d), n);
    CongPow(x, m * Pow(r, k.e), k.d, n);
    PowDistributes(m, Pow(r, k.e), k.d);
    RsaInverse(k, r);
    CongMul(Pow(m, k.d), Pow(m, k.d), Pow(Pow(r, k.e), k.d), r, n);
  }

  lemma StripFactor(y: int, a: int, r: int, rInv: int, n: int)
    requires n > 0 && Cong(y, a * r, n) && Cong(r * rInv, 1, n)
    ensures Unblind(y, rInv, n) == a % n && Cong(Unblind(y, rInv, n), a, n)
  {
    CongMul(y, a * r, rInv, rInv, n);
    Assoc(a, r, rInv);
    CongMul(a, a, r * rInv, 1, n);
    CongMod(y * rInv, n);
  }

  /** Blinding, signing and unblinding give the direct signature `m^d mod n`
      whatever the blinding factor was, and raising it to `e` gives `m` back. */
  lemma {:induction false} UnblindedIsDirectSignature(k: PrivateKey, m: int, r: int, rInv: int)
    requires WellFormed(k) && 0 <= m < k.n
    requires Cong(r * rInv, 1, k.n)
    ensures var s := Unblind(CrtSign(k, BlindValue(m, r, k.e, k.n)), rInv, k.n);
            s == Pow(m, k.d) % k.n && Pow(s, k.e) % k.n == m
  {
    ModulusPositive(k);
    var n := k.n;
    var y := CrtSign(k, BlindValue(m, r, k.e, n));
    var s := Unblind(y, rInv, n);
    SignBlinded(k, m, r);
    StripFactor(y, Pow(m, k.d), r, rInv, n);
    CongPow(s, Pow(m, k.d), k.e, n);
    RsaInverse(k, m);
    QuotientUnique(m, n, 0, m);
  }

  // ----- what the issuer sees

  /** The one blinding factor that turns `m` into `x`. */
  function Blinder(k: PrivateKey, m: nat, x: nat): int
    requires k.n > 1 && Coprime(m, k.n)
  {
    Pow(x * Inverse(m, k.n).value, k.d) % k.n
  }

  lemma {:induction false} PowerOfUnit(r: int, s: int, e: nat, n: int)
    requires n > 0 && Cong(r * s, 1, n)
    ensures Cong(Pow(r, e) * Pow(s, e), 1, n)
  {
    PowDistributes(r, s, e);
    CongPow(r * s, 1, e, n);
    PowOne(e);
  }

  lemma ProductOfUnits(a: int, a': int, b: int, b': int, n: int)
    requires n > 0 && Cong(a * a', 1, n) && Cong(b * b', 1, n)
    ensures Cong((a * b) * (b' * a'), 1, n)
  {
    CongMul(a * a', 1, b * b', 1, n);
    Exchange(a, b, a', b');
    assert a' * b' == b' * a';
  }

  /** A blinded value is a unit exactly when the message was. */
  lemma BlindedUnitIff(m: nat, r: nat, e: nat, n: nat)
    requires n > 1 && Coprime(r, n)
    ensures BlindValue(m, r, e, n) >= 0
    ensures Coprime(BlindValue(m, r, e, n), n) <==> Coprime(m, n)
  {
    var x := BlindValue(m, r, e, n);
    BlindValueCong(m, r, e, n);
    var s := Inverse(r, n).value;
    PowerOfUnit(r, s, e, n);
    if Coprime(m, n) {
      var m' := Inverse(m, n).value;
      ProductOfUnits(m, m', Pow(r, e), Pow(s, e), n);
      CongMul(x, m * Pow(r, e), Pow(s, e) * m', Pow(s, e) * m', n);
      InvertibleIsCoprime(x, Pow(s, e) * m', n);
    }
    if Coprime(x, n) {
      var x' := Inverse(x, n).value;
      CongMul(x, m * Pow(r, e), x', x', n);
      assert (m * Pow(r, e)) * x' == m * (Pow(r, e) * x');
      InvertibleIsCoprime(m, Pow(r, e) * x', n);
    }
  }

  lemma BlinderIsUnit(k: PrivateKey, m: nat, x: nat)
    requires WellFormed(k) && k.n > 1 && Coprime(m, k.n) && Coprime(x, k.n)
    ensures 1 <= Blinder(k, m, x) < k.n && Coprime(Blinder(k, m, x), k.n)
  {
    var n, m' := k.n, Inverse(m, k.n).value;
    var x' := Inverse(x, n).value;
    var b, b' := Pow(x * m', k.d), Pow(m * x', k.d);
    var r := Blinder(k, m, x);
    assert m' * m == m * m';
    ProductOfUnits(x, x', m', m, n);
    PowerOfUnit(x * m', m * x', k.d, n);
    CongMod(b, n);
    CongMul(r, b, b', b', n);
    InvertibleIsCoprime(r, b', n);
    if r == 0 {
      QuotientUnique(0, n, 0, 0);
      QuotientUnique(1, n, 0, 1);
    }
  }

  /** `Blinder` maps `m` to `x`. */
  lemma BlinderBlinds(k: PrivateKey, m: nat, x: nat)
    requires WellFormed(k) && k.n > 1 && Coprime(m, k.n) && x < k.n
    ensures BlindValue(m, Blinder(k, m, x), k.e, k.n) == x
  {
    var n, m' := k.n, Inverse(m, k.n).value;
    var r := Blinder(k, m, x);
    BlindValueCong(m, r, k.e, n);
    CongMod(Pow(x * m', k.d), n);
    CongPow(r, Pow(x * m', k.d), k.e, n);
    RsaInverse(k, x * m');
    CongMul(m, m, Pow(r, k.e), x * m', n);
    Assoc(m, x, m');
    CongMul(m * m', 1, x, x, n);
    SmallCongEqual(BlindValue(m, r, k.e, n), x, n);
  }

  /** No two blinding factors send the same unit `m` to the same value. */
  lemma BlindInjective(k: PrivateKey, m: nat, r1: nat, r2: nat)
    requires WellFormed(k) && k.n > 1 && Coprime(m, k.n) && r1 < k.n && r2 < k.n
    requires BlindValue(m, r1, k.e, k.n) == BlindValue(m, r2, k.e, k.n)
    ensures r1 == r2
  {
    var n, m' := k.n, Inverse(m, k.n).value;
    var a1, a2 := Pow(r1, k.e), Pow(r2, k.e);
    BlindValueCong(m, r1, k.e, n);
    BlindValueCong(m, r2, k.e, n);
    assert m * a1 == a1 * m && m * a2 == a2 * m;
    CancelInverse(a1, a2, m, m', n);
    CongPow(a1, a2, k.d, n);
    RsaInverse(k, r1);
    RsaInverse(k, r2);
    SmallCongEqual(r1, r2, n);
  }

  /** Perfect hiding: every unit `x` the issuer could see is the blinding of
      every unit message `m` under exactly one blinding factor. */
  lemma PerfectHiding(k: PrivateKey, m: nat, x: nat)
    requires WellFormed(k) && k.n > 1 && m < k.n && x < k.n
    requires Coprime(m, k.n) && Coprime(x, k.n)
    ensures 1 <= Blinder(k, m, x) < k.n && Coprime(Blinder(k, m, x), k.n)
    ensures forall r: nat | 1 <= r < k.n && Coprime(r, k.n) ::
              BlindValue(m, r, k.e, k.n) == x <==> r == Blinder(k, m, x)
  {
    BlinderIsUnit(k, m, x);
    BlinderBlinds(k, m, x);
    forall r: nat | 1 <= r < k.n && Coprime(r, k.n) && BlindValue(m, r, k.e, k.n) == x
      ensures r == Blinder(k, m, x)
    {
      BlindInjective(k, m, r, Blinder(k, m, x));
    }
  }
}
