/** The modular arithmetic the blind-signature proofs rest on: exponentiation,
    congruences, Euclid's algorithm with Bezout coefficients, prime divisors,
    and Fermat's little theorem. */
module NumberTheory {
  import opened Basics
  import opened Sets

  function Pow(b: int, e: nat): int
  {
    if e == 0 then 1 else b * Pow(b, e - 1)
  }

  /** `a` and `b` leave the same remainder modulo `n`. */
  predicate Cong(a: int, b: int, n: int)
    requires n > 0
  {
    a % n == b % n
  }

  predicate Divides(d: int, a: int)
    requires d > 0
  {
    a % d == 0
  }

  // ----- remainders and congruences

  lemma QuotientUnique(x: int, n: int, q: int, r: int)
    requires 0 <= r < n
    requires x == q * n + r
    ensures x / n == q && x % n == r
  {
    var d := x / n - q;
    assert d * n == r - x % n by {
      assert x == n * (x / n) + x % n;
      assert d * n == (x / n) * n - q * n;
    }
    if d >= 1 {
      MulAtLeast(d, n);
    } else if d <= -1 {
      MulAtLeast(-d, n);
    }
  }

  lemma MulAtLeast(d: int, n: int)
    requires d >= 1 && n >= 0
    ensures d * n >= n && (-d) * n <= -n
  {}

  lemma ModShift(a: int, k: int, n: int)
    requires n > 0
    ensures (a + k * n) % n == a % n
  {
    assert a + k * n == (a / n + k) * n + a % n;
    QuotientUnique(a + k * n, n, a / n + k, a % n);
  }

  /** Congruence is divisibility of the difference, with the quotient as witness. */
  lemma CongQuotient(a: int, b: int, n: int) returns (k: int)
    requires n > 0 && Cong(a, b, n)
    ensures a == b + k * n
  {
    k := a / n - b / n;
    assert a == n * (a / n) + a % n;
    assert b == n * (b / n) + b % n;
    assert k * n == (a / n) * n - (b / n) * n;
  }

  lemma CongOf(a: int, b: int, k: int, n: int)
    requires n > 0 && a == b + k * n
    ensures Cong(a, b, n)
  {
    ModShift(b, k, n);
  }

  lemma CongMul(a: int, b: int, c: int, d: int, n: int)
    requires n > 0 && Cong(a, b, n) && Cong(c, d, n)
    ensures Cong(a * c, b * d, n)
  {
    var k := CongQuotient(a, b, n);
    var l := CongQuotient(c, d, n);
    CongScale(a, b, k, c, n);
    CongScale(c, d, l, b, n);
    assert c * b == b * c && d * b == b * d;
  }

  lemma CongScale(a: int, b: int, k: int, c: int, n: int)
    requires n > 0 && a == b + k * n
    ensures Cong(a * c, b * c, n)
  {
    assert a * c == b * c + (k * c) * n by {
      assert (b + k * n) * c == b * c + (k * n) * c;
      Assoc(k, n, c);
      Assoc(k, c, n);
    }
    CongOf(a * c, b * c, k * c, n);
  }

  lemma CongSub(a: int, b: int, c: int, d: int, n: int)
    requires n > 0 && Cong(a, b, n) && Cong(c, d, n)
    ensures Cong(a - c, b - d, n)
  {
    var k := CongQuotient(a, b, n);
    var l := CongQuotient(c, d, n);
    assert (k - l) * n == k * n - l * n;
    CongOf(a - c, b - d, k - l, n);
  }

  lemma CongAdd(a: int, b: int, c: int, d: int, n: int)
    requires n > 0 && Cong(a, b, n) && Cong(c, d, n)
    ensures Cong(a + c, b + d, n)
  {
    var k := CongQuotient(a, b, n);
    var l := CongQuotient(c, d, n);
    assert (k + l) * n == k * n + l * n;
    CongOf(a + c, b + d, k + l, n);
  }

  lemma CongMod(a: int, n: int)
    requires n > 0
    ensures Cong(a % n, a, n)
  {
    CongOf(a, a % n, a / n, n);
  }

  lemma {:induction false} CongPow(a: int, b: int, e: nat, n: int)
    requires n > 0 && Cong(a, b, n)
    ensures Cong(Pow(a, e), Pow(b, e), n)
  {
    if e > 0 {
      CongPow(a, b, e - 1, n);
      CongMul(a, b, Pow(a, e - 1), Pow(b, e - 1), n);
    }
  }

  lemma DividesMultiple(d: int, k: int)
    requires d > 0
    ensures Divides(d, k * d)
  {
    ModShift(0, k, d);
  }

  lemma SmallCongEqual(a: int, b: int, n: int)
    requires 0 <= a < n && 0 <= b < n && Cong(a, b, n)
    ensures a == b
  {
    QuotientUnique(a, n, 0, a);
    QuotientUnique(b, n, 0, b);
  }

  // ----- exponentiation

  lemma {:induction false} PowAdd(b: int, x: nat, y: nat)
    ensures Pow(b, x + y) == Pow(b, x) * Pow(b, y)
  {
    if x == 0 {
      assert Pow(b, x) == 1;
    } else {
      PowAdd(b, x - 1, y);
      Assoc(b, Pow(b, x - 1), Pow(b, y));
    }
  }

  lemma {:induction false} PowMul(b: int, x: nat, y: nat)
    ensures 0 <= x * y && Pow(b, x * y) == Pow(Pow(b, x), y)
  {
    if y == 0 {
      assert x * y == 0;
    } else {
      PowMul(b, x, y - 1);
      assert x * y == x + x * (y - 1);
      PowAdd(b, x, x * (y - 1));
    }
  }

  lemma {:induction false} PowDistributes(a: int, b: int, e: nat)
    ensures Pow(a * b, e) == Pow(a, e) * Pow(b, e)
  {
    if e > 0 {
      PowDistributes(a, b, e - 1);
      var s, t := Pow(a, e - 1), Pow(b, e - 1);
      Exchange(a, b, s, t);
    }
  }

  lemma ScaledBetween(lo: int, x: int, hi: int, unit: int, rest: int)
    requires lo <= x < hi && 0 <= rest < unit
    ensures lo * unit <= x * unit + rest < hi * unit
  {
    ScaledGap(lo, x, unit);
    ScaledGap(x + 1, hi, unit);
    assert (x + 1) * unit == x * unit + unit;
  }

  lemma ScaledGap(a: int, b: int, unit: int)
    requires a <= b && unit >= 0
    ensures a * unit <= b * unit
  {
    var d := b - a;
    if d >= 1 { MulAtLeast(d, unit); }
    assert b * unit == a * unit + d * unit;
  }

  lemma Assoc(a: int, b: int, c: int)
    ensures (a * b) * c == a * (b * c) && a * (b * c) == (a * c) * b
  {}

  lemma Exchange(a: int, b: int, s: int, t: int)
    ensures (a * b) * (s * t) == (a * s) * (b * t)
  {
    assert (a * b) * (s * t) == a * (b * (s * t));
    assert b * (s * t) == s * (b * t);
    assert a * (s * (b * t)) == (a * s) * (b * t);
  }

  lemma {:induction false} PowOne(e: nat)
    ensures Pow(1, e) == 1
  {
    if e > 0 { PowOne(e - 1); }
  }

  lemma {:induction false} PowPositive(b: int, e: nat)
    requires b > 0
    ensures Pow(b, e) > 0
  {
    if e > 0 {
      PowPositive(b, e - 1);
      assert b * Pow(b, e - 1) > 0;
    }
  }

  lemma {:induction false} PowMultipleVanishes(a: int, e: nat, p: int)
    requires p > 0 && e > 0 && Divides(p, a)
    ensures Divides(p, Pow(a, e))
  {
    var k := CongQuotient(a, 0, p);
    assert a * Pow(a, e - 1) == (k * Pow(a, e - 1)) * p;
    DividesMultiple(p, k * Pow(a, e - 1));
  }

  // ----- Euclid's algorithm

  /** The result of the extended algorithm: `g == u * a + v * b`. */
  datatype Bezout = Bezout(g: int, u: int, v: int)

  function Egcd(a: nat, b: nat): (r: Bezout)
    ensures r.g == r.u * a + r.v * b
    ensures r.g >= 0 && (r.g == 0 <==> a == 0 && b == 0)
    decreases b
  {
    if b == 0 then Bezout(a, 1, 0)
    else
      var s := Egcd(b, a % b);
      EgcdStep(a, b, s.u, s.v);
      Bezout(s.g, s.v, s.u - (a / b) * s.v)
  }

  lemma EgcdStep(a: int, b: int, u: int, v: int)
    requires b > 0
    ensures u * b + v * (a % b) == v * a + (u - (a / b) * v) * b
  {
    var q := a / b;
    assert a % b == a - q * b;
    assert v * (a - q * b) == v * a - v * (q * b);
    assert v * (q * b) == (q * v) * b;
    assert (u - q * v) * b == u * b - (q * v) * b;
  }

  lemma DividesCombination(d: int, a: int, b: int, u: int, v: int)
    requires d > 0 && Divides(d, a) && Divides(d, b)
    ensures Divides(d, u * a + v * b)
  {
    var k := CongQuotient(a, 0, d);
    var l := CongQuotient(b, 0, d);
    assert u * a + v * b == (u * k + v * l) * d by {
      assert u * (k * d) == (u * k) * d;
      assert v * (l * d) == (v * l) * d;
    }
    DividesMultiple(d, u * k + v * l);
  }

  lemma {:induction false} EgcdDivides(a: nat, b: nat)
    requires a > 0 || b > 0
    ensures Divides(Egcd(a, b).g, a) && Divides(Egcd(a, b).g, b)
    decreases b
  {
    if b == 0 {
      DividesMultiple(a, 1);
    } else {
      EgcdDivides(b, a % b);
      var g := Egcd(a, b).g;
      DividesCombination(g, b, a % b, a / b, 1);
      assert (a / b) * b + a % b == a;
    }
  }

  predicate Coprime(a: nat, b: nat)
  {
    Egcd(a, b).g == 1
  }

  /** Coprime numbers have no common divisor but 1, and are the only such pairs. */
  lemma CoprimeIff(a: nat, b: nat)
    requires a > 0 || b > 0
    ensures Coprime(a, b) <==> forall d | d > 0 && Divides(d, a) && Divides(d, b) :: d == 1
  {
    if Coprime(a, b) {
      forall d | d > 0 && Divides(d, a) && Divides(d, b) ensures d == 1 {
        var r := Egcd(a, b);
        DividesCombination(d, a, b, r.u, r.v);
        if d > 1 { QuotientUnique(1, d, 0, 1); }
      }
    } else {
      EgcdDivides(a, b);
      var g := Egcd(a, b).g;
      assert g > 0 && Divides(g, a) && Divides(g, b) && g != 1;
    }
  }

  /** `pow(r, -1, n)`: the inverse modulo `n`, or None where Python raises. */
  function Inverse(r: nat, n: nat): (o: Option<nat>)
    requires n > 1
    ensures o.Some? <==> Coprime(r, n)
    ensures o.Some? ==> 0 <= o.value < n && Cong(r * o.value, 1, n)
  {
    var z := Egcd(r, n);
    if z.g == 1 then
      BezoutInverse(r, n);
      Some(z.u % n)
    else None
  }

  lemma {:induction false} BezoutInverse(r: nat, n: nat)
    requires n > 1 && Coprime(r, n)
    ensures Cong(r * (Egcd(r, n).u % n), 1, n)
  {
    var z := Egcd(r, n);
    CombinationInverse(r, n, z.u, z.v);
  }

  lemma CombinationInverse(r: int, n: int, u: int, v: int)
    requires n > 1 && 1 == u * r + v * n
    ensures Cong(r * (u % n), 1, n)
  {
    assert r * u == 1 + (-v) * n;
    CongOf(r * u, 1, -v, n);
    CongMod(u, n);
    CongMul(r, r, u % n, u, n);
  }

  /** A number with an inverse modulo `n` is coprime to `n`. */
  lemma InvertibleIsCoprime(r: nat, s: int, n: nat)
    requires n > 1 && Cong(r * s, 1, n)
    ensures Coprime(r, n)
  {
    EgcdDivides(r, n);
    var g := Egcd(r, n).g;
    var k := CongQuotient(r * s, 1, n);
    DividesCombination(g, r, n, s, -k);
    assert s * r + (-k) * n == 1;
    if g > 1 { QuotientUnique(1, g, 0, 1); }
  }

  /** Cancelling a factor with an inverse. */
  lemma CancelInverse(a: int, b: int, r: int, s: int, n: int)
    requires n > 0 && Cong(r * s, 1, n) && Cong(a * r, b * r, n)
    ensures Cong(a, b, n)
  {
    CongMul(a * r, b * r, s, s, n);
    assert (a * r) * s == a * (r * s) && (b * r) * s == b * (r * s);
    CongMul(a, a, r * s, 1, n);
    CongMul(b, b, r * s, 1, n);
  }

  // ----- primes

  ghost predicate Prime(p: int)
  {
    p > 1 && forall d | 1 < d < p :: !Divides(d, p)
  }

  lemma PrimeCoprime(p: int, a: nat)
    requires Prime(p) && !Divides(p, a)
    ensures Coprime(a, p)
  {
    EgcdDivides(a, p);
    var g := Egcd(a, p).g;
    if g > p {
      QuotientUnique(p, g, 0, p);
    }
  }

  /** Euclid's lemma. */
  lemma EuclidLemma(p: int, a: int, b: int)
    requires Prime(p) && Divides(p, a * b) && !Divides(p, a)
    ensures Divides(p, b)
  {
    var a0 := a % p;
    CongMod(a, p);
    PrimeCoprime(p, a0);
    var inv := Inverse(a0, p).value;
    CongMul(a0, a, b, b, p);
    CongMul(a0 * b, 0, inv, inv, p);
    assert (a0 * b) * inv == (a0 * inv) * b;
    CongMul(a0 * inv, 1, b, b, p);
  }

  lemma DistinctPrimes(p: int, q: int)
    requires Prime(p) && Prime(q) && p != q
    ensures !Divides(p, q)
  {
    if p > q { QuotientUnique(q, p, 0, q); }
  }

  /** A number divisible by two different primes is divisible by their product. */
  lemma TwoPrimesDivide(p: int, q: int, a: int)
    requires Prime(p) && Prime(q) && p != q
    requires Divides(p, a) && Divides(q, a)
    ensures p * q > 0 && Divides(p * q, a)
  {
    var k := CongQuotient(a, 0, p);
    DistinctPrimes(q, p);
    assert a == p * k;
    EuclidLemma(q, p, k);
    var l := CongQuotient(k, 0, q);
    assert a == l * (p * q) by { assert k == l * q; assert (l * q) * p == l * (p * q); }
    assert p * q > 0;
    DividesMultiple(p * q, l);
  }

  /** The uniqueness half of the Chinese remainder theorem. */
  lemma CongProduct(a: int, b: int, p: int, q: int)
    requires Prime(p) && Prime(q) && p != q
    requires Cong(a, b, p) && Cong(a, b, q)
    ensures p * q > 0 && Cong(a, b, p * q)
  {
    CongSub(a, b, b, b, p);
    CongSub(a, b, b, b, q);
    TwoPrimesDivide(p, q, a - b);
    var k := CongQuotient(a - b, 0, p * q);
    CongOf(a, b, k, p * q);
  }

  // ----- primes above every bound

  lemma DividesTransitive(a: int, b: int, c: int)
    requires a > 0 && b > 0 && Divides(a, b) && Divides(b, c)
    ensures Divides(a, c)
  {
    var k := CongQuotient(c, 0, b);
    DividesCombination(a, b, b, k, 0);
  }

  lemma {:induction false} PrimeDivisor(m: int) returns (p: int)
    requires m > 1
    ensures Prime(p) && Divides(p, m)
    decreases m
  {
    if Prime(m) {
      p := m;
    } else {
      var d :| 1 < d < m && Divides(d, m);
      p := PrimeDivisor(d);
      DividesTransitive(p, d, m);
    }
  }

  function Factorial(n: nat): (f: nat)
    ensures f > 0
  {
    if n == 0 then 1 else n * Factorial(n - 1)
  }

  lemma {:induction false} FactorialDivides(n: nat, d: int)
    requires 1 <= d <= n
    ensures Divides(d, Factorial(n))
  {
    var f := Factorial(n - 1);
    if d == n {
      DividesMultiple(d, f);
      assert f * d == d * f;
    } else {
      FactorialDivides(n - 1, d);
      DividesCombination(d, f, f, n, 0);
    }
  }

  lemma {:induction false} PrimeAbove(n: nat) returns (p: int)
    ensures Prime(p) && p > n
  {
    var f := Factorial(n);
    p := PrimeDivisor(f + 1);
    if p <= n {
      FactorialDivides(n, p);
      DividesCombination(p, f + 1, f, 1, -1);
      QuotientUnique(1, p, 0, 1);
    }
  }

  // ----- Fermat's little theorem

  ghost function Product(s: set<int>): int
  {
    if s == {} then 1 else var x := Pick(s); x * Product(s - {x})
  }

  lemma Swap(x: int, y: int, t: int)
    ensures y * (x * t) == x * (y * t)
  {}

  lemma {:induction false} ProductRemove(s: set<int>, x: int)
    requires x in s
    ensures Product(s) == x * Product(s - {x})
    decreases |s|
  {
    var y := Pick(s);
    if y != x {
      ProductRemove(s - {y}, x);
      ProductRemove(s - {x}, y);
      assert s - {y} - {x} == s - {x} - {y};
      Swap(x, y, Product(s - {x} - {y}));
    }
  }

  lemma {:induction false} ProductInsert(s: set<int>, x: int)
    requires x !in s
    ensures Product(s + {x}) == x * Product(s)
  {
    ProductRemove(s + {x}, x);
    assert s + {x} - {x} == s;
  }

  predicate Residue(i: int, p: int)
  {
    1 <= i < p
  }

  ghost function Residues(p: int): set<int>
  {
    set i | 1 <= i < p && Residue(i, p)
  }

  ghost function Scaled(s: set<int>, a: int, p: int): set<int>
    requires p > 0
  {
    set i | i in s :: a * i % p
  }

  lemma ScaleInjective(a: int, i: int, j: int, p: int)
    requires Prime(p) && !Divides(p, a)
    requires 0 <= i < p && 0 <= j < p && a * i % p == a * j % p
    ensures i == j
  {
    CongSub(a * i, a * j, a * j, a * j, p);
    assert a * i - a * j == a * (i - j);
    EuclidLemma(p, a, i - j);
    CongAdd(i - j, 0, j, j, p);
    SmallCongEqual(i, j, p);
  }

  /** Scaling every element of a set of residues by `a` multiplies the product by `a` to its size. */
  lemma {:induction false} ScaledProduct(s: set<int>, a: int, p: int)
    requires Prime(p) && !Divides(p, a)
    requires s <= Residues(p)
    ensures Cong(Product(Scaled(s, a, p)), Pow(a, |s|) * Product(s), p)
    ensures |Scaled(s, a, p)| == |s|
    decreases |s|
  {
    if s == {} {
      assert Scaled(s, a, p) == {};
    } else {
      var x := Pick(s);
      var rest := s - {x};
      ScaledProduct(rest, a, p);
      ScaledProductStep(rest, x, a, p);
      assert s == rest + {x};
    }
  }

  lemma {:induction false} ScaledProductStep(rest: set<int>, x: int, a: int, p: int)
    requires Prime(p) && !Divides(p, a)
    requires rest <= Residues(p) && x in Residues(p) && x !in rest
    requires Cong(Product(Scaled(rest, a, p)), Pow(a, |rest|) * Product(rest), p)
    requires |Scaled(rest, a, p)| == |rest|
    ensures Cong(Product(Scaled(rest + {x}, a, p)), Pow(a, |rest + {x}|) * Product(rest + {x}), p)
    ensures |Scaled(rest + {x}, a, p)| == |rest + {x}|
  {
    ScaledInsert(rest, x, a, p);
    ProductInsert(Scaled(rest, a, p), a * x % p);
    ProductInsert(rest, x);
    assert |rest + {x}| == |rest| + 1;
    ScaleCong(a, x, Product(Scaled(rest, a, p)), Pow(a, |rest|), Product(rest), p);
  }

  lemma ScaleCong(a: int, x: int, t: int, u: int, v: int, p: int)
    requires p > 0 && Cong(t, u * v, p)
    ensures Cong((a * x % p) * t, (a * u) * (x * v), p)
  {
    CongMod(a * x, p);
    CongMul(a * x % p, a * x, t, u * v, p);
    Exchange(a, x, u, v);
  }

  lemma ScaledInsert(rest: set<int>, x: int, a: int, p: int)
    requires Prime(p) && !Divides(p, a)
    requires rest <= Residues(p) && x in Residues(p) && x !in rest
    ensures Scaled(rest + {x}, a, p) == Scaled(rest, a, p) + {a * x % p}
    ensures a * x % p !in Scaled(rest, a, p)
  {
    forall i | i in rest ensures a * i % p != a * x % p {
      if a * i % p == a * x % p { ScaleInjective(a, i, x, p); }
    }
  }

  lemma {:induction false} ProductNotDivisible(s: set<int>, p: int)
    requires Prime(p) && s <= Residues(p)
    ensures !Divides(p, Product(s))
    decreases |s|
  {
    if s == {} {
      QuotientUnique(1, p, 0, 1);
    } else {
      var x := Pick(s);
      ProductNotDivisible(s - {x}, p);
      QuotientUnique(x, p, 0, x);
      if Divides(p, Product(s)) { EuclidLemma(p, x, Product(s - {x})); }
    }
  }

  lemma {:induction false} ResiduesSize(p: int)
    requires p > 1
    ensures |Residues(p)| == p - 1
    decreases p
  {
    if p == 2 {
      assert Residues(p) == {1};
    } else {
      ResiduesSize(p - 1);
      assert Residues(p) == Residues(p - 1) + {p - 1};
    }
  }

  /** Fermat: `a` to the `p - 1` is 1 modulo a prime that does not divide `a`. */
  lemma {:induction false} Fermat(a: int, p: int)
    requires Prime(p) && !Divides(p, a)
    ensures Cong(Pow(a, p - 1), 1, p)
  {
    var s := Residues(p);
    ResiduesSize(p);
    ScaledProduct(s, a, p);
    assert Scaled(s, a, p) <= s by {
      forall i | i in s ensures 1 <= a * i % p < p {
        QuotientUnique(i, p, 0, i);
        if Divides(p, a * i) { EuclidLemma(p, a, i); }
      }
    }
    SubsetOfSameSize(Scaled(s, a, p), s);
    ProductNotDivisible(s, p);
    var f := Product(s);
    CongSub(Pow(a, p - 1) * f, f, f, f, p);
    assert Pow(a, p - 1) * f - f == f * (Pow(a, p - 1) - 1);
    EuclidLemma(p, f, Pow(a, p - 1) - 1);
    CongAdd(Pow(a, p - 1) - 1, 0, 1, 1, p);
  }

  /** Exponents that agree modulo `p - 1` give the same power modulo `p`,
      for every base, provided neither exponent is zero. */
  lemma {:induction false} FermatExponents(a: int, d: nat, f: nat, p: int)
    requires Prime(p) && d > 0 && f > 0 && Cong(d, f, p - 1)
    ensures Cong(Pow(a, d), Pow(a, f), p)
    decreases f > d
  {
    if f > d {
      FermatExponents(a, f, d, p);
    } else if Divides(p, a) {
      PowMultipleVanishes(a, d, p);
      PowMultipleVanishes(a, f, p);
    } else {
      var k := CongQuotient(d, f, p - 1);
      if k < 0 { MulAtLeast(-k, p - 1); }
      Fermat(a, p);
      PowMul(a, p - 1, k);
      CongPow(Pow(a, p - 1), 1, k, p);
      PowOne(k);
      assert (p - 1) * k == k * (p - 1);
      PowAdd(a, f, (p - 1) * k);
      CongMul(Pow(a, f), Pow(a, f), Pow(a, (p - 1) * k), 1, p);
    }
  }
}
