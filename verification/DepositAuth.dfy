/** Deposit tokens end to end: the client blinds an encoded message, the issuer
    signs the blinded integer, the client unblinds and checks, and the deposit
    endpoint verifies a standard RSA-PSS signature. Random choices (the salt and
    the draws for the blinding factor) are parameters. */
module DepositAuth {
  import opened Basics
  import opened NumberTheory
  import opened Octets
  import opened Pss
  import opened BlindRsa

  function EmBits(n: nat): nat
  {
    if n == 0 then 0 else BitLength(n) - 1
  }

  function ModLen(n: nat): nat
  {
    ByteLength(BitLength(n))
  }

  /** The message representative `m` of section 4.2 of RFC 9474. */
  function Representative(hash: Hash, n: nat, prepared: Bytes, salt: Bytes): nat
    requires LargeEnough(EmBits(n)) && |salt| == SALT_LEN
  {
    Os2ip(Encoded(hash, prepared, EmBits(n), salt))
  }

  /** An encoded message is always below the modulus. */
  lemma RepresentativeBelow(hash: Hash, n: nat, prepared: Bytes, salt: Bytes)
    requires LargeEnough(EmBits(n)) && |salt| == SALT_LEN
    ensures Representative(hash, n, prepared, salt) < n
  {
    EncodedBelow(hash, prepared, EmBits(n), salt);
    ModulusAbove(n);
  }

  lemma ModulusAbove(n: nat)
    requires EmBits(n) > 0
    ensures n > 1 && Pow(2, EmBits(n)) <= n
  {
    BitLengthBounds(n);
    PowMonotone(2, 1, EmBits(n));
    assert Pow(2, 1) == 2 * Pow(2, 0);
  }

  /** A key long enough to encode under exists, so what follows speaks of some key. */
  lemma LongKey() returns (k: PrivateKey)
    ensures WellFormed(k) && k.n > 1 && LargeEnough(EmBits(k.n))
  {
    k := KeyOfBits(8 * LEAST_LEN);
  }

  lemma {:induction false} KeyOfBits(bits: nat) returns (k: PrivateKey)
    ensures WellFormed(k) && k.n > 1 && EmBits(k.n) >= bits
  {
    PowPositive(2, bits);
    k := WellFormedKey(3 + Pow(2, bits));
    BitLengthIff(k.n, bits);
  }

  // ----- blind

  /** What is sent and kept for the representative `m` and the blinding factor `r`. */
  function BlindedPair(m: nat, r: nat, e: nat, n: nat): (Bytes, nat)
    requires n > 1 && Coprime(r, n)
  {
    BlindValueCong(m, r, e, n);
    (LowOctets(BlindValue(m, r, e, n), ModLen(n)), Inverse(r, n).value)
  }

  /** What the client sends and keeps, for a blinding factor `r`. */
  function Blinded(hash: Hash, n: nat, e: nat, prepared: Bytes, salt: Bytes, r: nat): (Bytes, nat)
    requires LargeEnough(EmBits(n)) && |salt| == SALT_LEN && n > 1 && Coprime(r, n)
  {
    BlindedPair(Representative(hash, n, prepared, salt), r, e, n)
  }

  /** The first draw from `from` on that will do. */
  function First(fits: nat -> bool, draws: seq<nat>, from: nat := 0): Option<nat>
    requires from <= |draws|
    decreases |draws| - from
  {
    if from == |draws| then None else if fits(draws[from]) then Some(from) else First(fits, draws, from + 1)
  }

  lemma {:induction false} FirstIs(fits: nat -> bool, draws: seq<nat>, from: nat)
    requires from <= |draws|
    ensures var o := First(fits, draws, from);
            && (o.Some? ==> from <= o.value < |draws| && fits(draws[o.value]))
            && forall j | from <= j < (if o.Some? then o.value else |draws|) :: !fits(draws[j])
    decreases |draws| - from
  {
    if from < |draws| && !fits(draws[from]) { FirstIs(fits, draws, from + 1); }
  }

  lemma {:induction false} FirstUnique(fits: nat -> bool, draws: seq<nat>, k: nat)
    requires k < |draws| && fits(draws[k]) && forall j | 0 <= j < k :: !fits(draws[j])
    ensures First(fits, draws) == Some(k)
  {
    FirstIs(fits, draws, 0);
  }

  lemma {:induction false} FirstNone(fits: nat -> bool, draws: seq<nat>)
    requires forall j | 0 <= j < |draws| :: !fits(draws[j])
    ensures First(fits, draws) == None
  {
    FirstIs(fits, draws, 0);
  }

  /** Draw `d` stands for the factor `d + 1`, which must be a unit. */
  function Fits(n: nat): nat -> bool
  {
    (d: nat) => Coprime(d + 1, n)
  }

  /** What `blind` answers. `draws` are the results of `secrets.randbelow(n - 1)`;
      running out of draws stands for looping on. */
  function BlindOn(hash: Hash, n: nat, e: nat, prepared: Bytes, salt: Bytes, draws: seq<nat>): Result<(Bytes, nat)>
    requires |salt| == SALT_LEN
  {
    if !LargeEnough(EmBits(n)) then Err(ModulusTooSmall)
    else if TooLong(EmBits(n)) then Err(Overflow)
    else
      ModulusAbove(n);
      BlindDrawn(Representative(hash, n, prepared, salt), e, n, draws)
  }

  function BlindDrawn(m: nat, e: nat, n: nat, draws: seq<nat>): Result<(Bytes, nat)>
    requires n > 1
  {
    var k := First(Fits(n), draws);
    FirstIs(Fits(n), draws, 0);
    if k.None? then Err(NoInvertibleDraw) else Ok(BlindedPair(m, draws[k.value] + 1, e, n))
  }

  /** The retry loop: the first draw that is invertible, if any. */
  method DrawFactor(draws: seq<nat>, n: nat) returns (k: nat, inv: Option<nat>)
    requires n > 1
    ensures inv.Some? ==> k < |draws| && First(Fits(n), draws) == Some(k) && inv == Inverse(draws[k] + 1, n)
    ensures inv.None? ==> First(Fits(n), draws) == None
  {
    k := 0;
    while k < |draws|
      invariant 0 <= k <= |draws| && First(Fits(n), draws) == First(Fits(n), draws, k)
    {
      var r := draws[k] + 1;
      inv := Inverse(r, n);
      if inv.Some? { return; }
      k := k + 1;
    }
    inv := None;
  }

  method Blind(hash: Hash, n: nat, e: nat, prepared: Bytes, salt: Bytes, draws: seq<nat>)
    returns (r: Result<(Bytes, nat)>)
    requires |salt| == SALT_LEN
    ensures r == BlindOn(hash, n, e, prepared, salt, draws)
  {
    var em := EmsaPssEncode(hash, prepared, EmBits(n), salt);
    if em.Err? { return Err(em.error); }
    ModulusAbove(n);
    RepresentativeBelow(hash, n, prepared, salt);
    var m := Os2ip(em.value);
    if m >= n { return Err(MessageNotBelowModulus); }
    r := BlindByDraws(m, e, n, draws);
  }

  method BlindByDraws(m: nat, e: nat, n: nat, draws: seq<nat>) returns (r: Result<(Bytes, nat)>)
    requires n > 1
    ensures r == BlindDrawn(m, e, n, draws)
  {
    var k, rInv := DrawFactor(draws, n);
    if rInv.None? { return Err(NoInvertibleDraw); }
    var sent := BlindWith(m, draws[k] + 1, e, n);
    r := Ok((sent, rInv.value));
  }

  /** The last step of `blind`: the blinded value in as many octets as the modulus. */
  method BlindWith(m: nat, f: nat, e: nat, n: nat) returns (sent: Bytes)
    requires n > 0
    ensures 0 <= BlindValue(m, f, e, n) && sent == LowOctets(BlindValue(m, f, e, n), ModLen(n))
  {
    var modLen := (BitLength(n) + 7) / 8;
    var x := m * (Pow(f, e) % n) % n;
    BlindValueCong(m, f, e, n);
    LowOctetsOfResidue(x, n);
    sent := I2osp(x, modLen).value;
  }

  /** `m * f^e mod n` in as many octets as the modulus, and the inverse of `f`. */
  predicate SentFor(sent: Bytes, inv: nat, m: nat, f: nat, e: nat, n: nat)
    requires n > 0
  {
    |sent| == ModLen(n) && Os2ip(sent) == m * Pow(f, e) % n && inv < n && f * inv % n == 1
  }

  lemma {:induction false} BlindedIs(hash: Hash, n: nat, e: nat, prepared: Bytes, salt: Bytes, f: nat)
    requires LargeEnough(EmBits(n)) && |salt| == SALT_LEN && n > 1 && Coprime(f, n)
    ensures var (sent, inv) := Blinded(hash, n, e, prepared, salt, f);
            var m := Representative(hash, n, prepared, salt);
            SentFor(sent, inv, m, f, e, n) && Os2ip(sent) == BlindValue(m, f, e, n)
  {
    var m := Representative(hash, n, prepared, salt);
    BlindValueCong(m, f, e, n);
    LowOctetsOfResidue(BlindValue(m, f, e, n), n);
    SmallCong(BlindValue(m, f, e, n), m * Pow(f, e), n);
    SmallCong(1, f * Inverse(f, n).value, n);
  }

  lemma SmallCong(x: int, y: int, n: nat)
    requires 0 <= x < n && Cong(x, y, n)
    ensures y % n == x
  {
    QuotientUnique(x, n, 0, x);
  }

  lemma {:induction false} TakesFirst(hash: Hash, n: nat, e: nat, prepared: Bytes, salt: Bytes, draws: seq<nat>, k: nat)
    requires |salt| == SALT_LEN && LargeEnough(EmBits(n)) && !TooLong(EmBits(n)) && n > 1
    requires k < |draws| && Coprime(draws[k] + 1, n) && forall j | 0 <= j < k :: !Coprime(draws[j] + 1, n)
    ensures BlindOn(hash, n, e, prepared, salt, draws) == Ok(Blinded(hash, n, e, prepared, salt, draws[k] + 1))
  {
    FitsFirst(n, draws, k);
    DrawnFirst(Representative(hash, n, prepared, salt), e, n, draws, k);
  }

  lemma {:induction false} FitsFirst(n: nat, draws: seq<nat>, k: nat)
    requires k < |draws| && Coprime(draws[k] + 1, n) && forall j | 0 <= j < k :: !Coprime(draws[j] + 1, n)
    ensures First(Fits(n), draws) == Some(k)
  {
    var fits := Fits(n);
    assert fits(draws[k]);
    forall j | 0 <= j < k ensures !fits(draws[j]) {}
    FirstUnique(fits, draws, k);
  }

  lemma {:induction false} DrawnFirst(m: nat, e: nat, n: nat, draws: seq<nat>, k: nat)
    requires n > 1 && k < |draws| && Coprime(draws[k] + 1, n) && First(Fits(n), draws) == Some(k)
    ensures BlindDrawn(m, e, n, draws) == Ok(BlindedPair(m, draws[k] + 1, e, n))
  {}

  /** What is sent is `m * r^e mod n` in as many octets as the modulus, and what is kept
      inverts `r`, where `r` is one more than the first draw for which that is a unit. */
  lemma {:induction false} BlindSends(hash: Hash, n: nat, e: nat, prepared: Bytes, salt: Bytes, draws: seq<nat>, k: nat)
    requires |salt| == SALT_LEN && LargeEnough(EmBits(n)) && !TooLong(EmBits(n)) && n > 1
    requires k < |draws| && Coprime(draws[k] + 1, n) && forall j | 0 <= j < k :: !Coprime(draws[j] + 1, n)
    ensures var r, m, f := BlindOn(hash, n, e, prepared, salt, draws), Representative(hash, n, prepared, salt), draws[k] + 1;
            r.Ok? && SentFor(r.value.0, r.value.1, m, f, e, n)
  {
    var f := draws[k] + 1;
    TakesFirst(hash, n, e, prepared, salt, draws, k);
    BlindedIs(hash, n, e, prepared, salt, f);
    var pair := Blinded(hash, n, e, prepared, salt, f);
    assert SentFor(pair.0, pair.1, Representative(hash, n, prepared, salt), f, e, n);
  }

  /** Draws that are all refused send nothing. */
  lemma {:induction false} NothingSent(hash: Hash, n: nat, e: nat, prepared: Bytes, salt: Bytes, draws: seq<nat>)
    requires |salt| == SALT_LEN && forall j | 0 <= j < |draws| :: !Coprime(draws[j] + 1, n)
    ensures BlindOn(hash, n, e, prepared, salt, draws).Err?
    ensures LargeEnough(EmBits(n)) && !TooLong(EmBits(n)) ==>
              BlindOn(hash, n, e, prepared, salt, draws) == Err(NoInvertibleDraw)
  {
    FirstNone(Fits(n), draws);
  }

  /** The factor `r` is invertible and blinds `m` to `x`. */
  predicate Blinds(m: nat, r: nat, e: nat, n: nat, x: nat)
    requires n > 0
  {
    Coprime(r, n) && BlindValue(m, r, e, n) == x
  }

  lemma {:induction false} OneDraw(hash: Hash, n: nat, e: nat, prepared: Bytes, salt: Bytes, d: nat, x: nat)
    requires |salt| == SALT_LEN && LargeEnough(EmBits(n)) && !TooLong(EmBits(n)) && n > 1
    ensures Sends(BlindOn(hash, n, e, prepared, salt, [d]), x, n) <==>
            Blinds(Representative(hash, n, prepared, salt), d + 1, e, n, x)
  {
    if Coprime(d + 1, n) {
      TakesFirst(hash, n, e, prepared, salt, [d], 0);
      BlindedIs(hash, n, e, prepared, salt, d + 1);
    } else {
      NothingSent(hash, n, e, prepared, salt, [d]);
    }
  }

  /** What the issuer sees says nothing about the message: whatever the message and the
      salt, every unit is sent on exactly one of the equally likely draws. */
  lemma {:induction false} BlindHides(hash: Hash, k: PrivateKey, prepared: Bytes, salt: Bytes, x: nat) returns (d: nat)
    requires WellFormed(k) && k.n > 1 && |salt| == SALT_LEN && LargeEnough(EmBits(k.n)) && !TooLong(EmBits(k.n))
    requires Coprime(Representative(hash, k.n, prepared, salt), k.n) && x < k.n && Coprime(x, k.n)
    ensures d < k.n - 1
    ensures forall t: nat | t < k.n - 1 ::
              Sends(BlindOn(hash, k.n, k.e, prepared, salt, [t]), x, k.n) <==> t == d
  {
    var m := Representative(hash, k.n, prepared, salt);
    RepresentativeBelow(hash, k.n, prepared, salt);
    BlinderIsUnit(k, m, x);
    d := Blinder(k, m, x) - 1;
    forall t: nat | t < k.n - 1
      ensures Sends(BlindOn(hash, k.n, k.e, prepared, salt, [t]), x, k.n) <==> t == d
    {
      DrawIff(hash, k, prepared, salt, x, t);
    }
  }

  lemma {:induction false} DrawIff(hash: Hash, k: PrivateKey, prepared: Bytes, salt: Bytes, x: nat, d: nat)
    requires WellFormed(k) && k.n > 1 && |salt| == SALT_LEN && LargeEnough(EmBits(k.n)) && !TooLong(EmBits(k.n))
    requires Coprime(Representative(hash, k.n, prepared, salt), k.n) && x < k.n && Coprime(x, k.n) && d < k.n - 1
    ensures Sends(BlindOn(hash, k.n, k.e, prepared, salt, [d]), x, k.n) <==>
            d + 1 == Blinder(k, Representative(hash, k.n, prepared, salt), x)
  {
    var m, r := Representative(hash, k.n, prepared, salt), d + 1;
    RepresentativeBelow(hash, k.n, prepared, salt);
    OneDraw(hash, k.n, k.e, prepared, salt, d, x);
    OneFactor(k, m, x, r);
  }

  lemma {:induction false} OneFactor(k: PrivateKey, m: nat, x: nat, r: nat)
    requires WellFormed(k) && k.n > 1 && m < k.n && x < k.n && Coprime(m, k.n) && Coprime(x, k.n) && 1 <= r < k.n
    ensures Blinds(m, r, k.e, k.n, x) <==> r == Blinder(k, m, x)
  {
    PerfectHiding(k, m, x);
  }

  /** The answer is sent, and is `x` in as many octets as the modulus. */
  predicate Sends(r: Result<(Bytes, nat)>, x: nat, n: nat)
  {
    r.Ok? && |r.value.0| == ModLen(n) && Os2ip(r.value.0) == x
  }

  // ----- sign, finalize, verify

  function BlindSign(blinded: Bytes, k: PrivateKey): (r: Result<Bytes>)
    requires k.p > 0 && k.q > 0 && k.n > 0
  {
    var x := Os2ip(blinded);
    if !(0 <= x < k.n) then Err(BlindedOutOfRange)
    else I2osp(CrtSign(k, x), ModLen(k.n))
  }

  /** RSASSA-PSS-VERIFY, section 8.1.2 of RFC 8017. */
  predicate Verify(hash: Hash, n: nat, e: nat, prepared: Bytes, sig: Bytes)
    requires n > 0
  {
    && |sig| == ModLen(n)
    && Os2ip(sig) < n
    && var em := I2osp(Pow(Os2ip(sig), e) % n, ByteLength(EmBits(n)));
       em.Ok? && Verifies(hash, prepared, em.value, EmBits(n))
  }

  function Finalize(hash: Hash, blindSig: Bytes, blindInv: nat, n: nat, e: nat, prepared: Bytes): (r: Result<Bytes>)
    requires n > 0
  {
    var s := Unblind(Os2ip(blindSig), blindInv, n);
    var sig := I2osp(s, ModLen(n));
    if sig.Err? then sig
    else if Verify(hash, n, e, prepared, sig.value) then sig
    else Err(InvalidSignature)
  }

  /** `finalize` hands out a signature if and only if it is what unblinding the issuer's
      answer gives and it verifies for the message; every other answer is refused. */
  lemma {:induction false} FinalizeIff(hash: Hash, blindSig: Bytes, blindInv: nat, n: nat, e: nat, prepared: Bytes,
                                       sig: Bytes)
    requires n > 0
    ensures var r := Finalize(hash, blindSig, blindInv, n, e, prepared);
            && (r == Ok(sig) <==> Verify(hash, n, e, prepared, sig) && Os2ip(sig) == Os2ip(blindSig) * blindInv % n)
            && (r.Err? ==> r.error == InvalidSignature)
  {
    var s := Unblind(Os2ip(blindSig), blindInv, n);
    LowOctetsOfResidue(s, n);
    I2ospRoundTrip(s, ModLen(n), sig);
  }

  // ----- what a token is

  /** The RSA-PSS signature the key holder would make directly, with this salt. */
  function DirectSignature(hash: Hash, k: PrivateKey, prepared: Bytes, salt: Bytes): Bytes
    requires k.n > 0 && LargeEnough(EmBits(k.n)) && |salt| == SALT_LEN
  {
    LowOctets(Pow(Representative(hash, k.n, prepared, salt), k.d) % k.n, ModLen(k.n))
  }

  lemma {:induction false} LowOctetsOfResidue(x: int, n: nat)
    requires 0 <= x < n
    ensures I2osp(x, ModLen(n)) == Ok(LowOctets(x, ModLen(n)))
    ensures Os2ip(LowOctets(x, ModLen(n))) == x
  {
    FitsByteLength(n);
    OctetsRoundTrip(x, ModLen(n));
  }

  lemma DirectOpens(hash: Hash, k: PrivateKey, prepared: Bytes, salt: Bytes)
    requires WellFormed(k) && k.n > 0 && LargeEnough(EmBits(k.n)) && |salt| == SALT_LEN
    ensures var sig := DirectSignature(hash, k, prepared, salt);
            |sig| == ModLen(k.n) && Os2ip(sig) < k.n &&
            Pow(Os2ip(sig), k.e) % k.n == Representative(hash, k.n, prepared, salt)
  {
    var m := Representative(hash, k.n, prepared, salt);
    RepresentativeBelow(hash, k.n, prepared, salt);
    var s := Pow(m, k.d) % k.n;
    LowOctetsOfResidue(s, k.n);
    CongMod(Pow(m, k.d), k.n);
    CongPow(s, Pow(m, k.d), k.e, k.n);
    RsaInverse(k, m);
    QuotientUnique(m, k.n, 0, m);
  }

  lemma DirectVerifies(hash: Hash, k: PrivateKey, prepared: Bytes, salt: Bytes)
    requires WellFormed(k) && k.n > 0 && LargeEnough(EmBits(k.n)) && |salt| == SALT_LEN
    ensures Verify(hash, k.n, k.e, prepared, DirectSignature(hash, k, prepared, salt))
  {
    DirectOpens(hash, k, prepared, salt);
    var em := Encoded(hash, prepared, EmBits(k.n), salt);
    I2ospRoundTrip(Os2ip(em), |em|, em);
    EncodedVerifies(hash, prepared, EmBits(k.n), salt);
  }

  lemma VerifiedIsDirect(hash: Hash, k: PrivateKey, prepared: Bytes, sig: Bytes) returns (salt: Bytes)
    requires WellFormed(k) && k.n > 0 && LargeEnough(EmBits(k.n))
    requires Verify(hash, k.n, k.e, prepared, sig)
    ensures |salt| == SALT_LEN && sig == DirectSignature(hash, k, prepared, salt)
  {
    var n, s := k.n, Os2ip(sig);
    var m := Pow(s, k.e) % n;
    var em := I2osp(m, ByteLength(EmBits(n))).value;
    I2ospRoundTrip(m, ByteLength(EmBits(n)), em);
    salt := VerifiedIsEncoded(hash, prepared, em, EmBits(n));
    CongMod(Pow(s, k.e), n);
    CongPow(m, Pow(s, k.e), k.d, n);
    RsaInverse(k, s);
    CongMod(Pow(m, k.d), n);
    SmallCongEqual(Pow(m, k.d) % n, s, n);
    Os2ipRoundTrip(sig);
  }

  /** The signatures that verify for a message are exactly the key holder's own
      signatures of its encodings, one per salt. */
  lemma TokenIff(hash: Hash, k: PrivateKey, prepared: Bytes, sig: Bytes)
    requires WellFormed(k) && k.n > 0 && LargeEnough(EmBits(k.n))
    ensures Verify(hash, k.n, k.e, prepared, sig) <==>
            exists salt: Bytes :: |salt| == SALT_LEN && sig == DirectSignature(hash, k, prepared, salt)
  {
    if Verify(hash, k.n, k.e, prepared, sig) {
      var salt := VerifiedIsDirect(hash, k, prepared, sig);
    } else {
      forall salt: Bytes | |salt| == SALT_LEN ensures sig != DirectSignature(hash, k, prepared, salt) {
        DirectVerifies(hash, k, prepared, salt);
      }
    }
  }

  /** The issuer's answer to a blinded request is `x^d mod n` in `ModLen` octets,
      and it refuses exactly the values that are not below the modulus. */
  lemma {:induction false} BlindSignIsTextbook(blinded: Bytes, k: PrivateKey)
    requires WellFormed(k) && k.n > 0
    ensures var x := Os2ip(blinded);
            BlindSign(blinded, k) ==
            if x < k.n then Ok(LowOctets(Pow(x, k.d) % k.n, ModLen(k.n))) else Err(BlindedOutOfRange)
  {
    var x := Os2ip(blinded);
    if x < k.n {
      CrtIsTextbook(k, x);
      LowOctetsOfResidue(CrtSign(k, x), k.n);
    }
  }

  /** The whole exchange: the client blinds, the issuer signs, the client unblinds. */
  function Issue(hash: Hash, k: PrivateKey, prepared: Bytes, salt: Bytes, r: nat): Result<Bytes>
    requires k.p > 0 && k.q > 0 && k.n > 1 && LargeEnough(EmBits(k.n)) && |salt| == SALT_LEN
    requires Coprime(r, k.n)
  {
    var (sent, rInv) := Blinded(hash, k.n, k.e, prepared, salt, r);
    var answer := BlindSign(sent, k);
    if answer.Err? then answer else Finalize(hash, answer.value, rInv, k.n, k.e, prepared)
  }

  /** Issuance always succeeds: for every message, salt and invertible blinding
      factor, the issuer signs what the client sent, `finalize` accepts, and the
      token is the direct signature, the same whatever the blinding factor was. */
  lemma IssuanceYieldsDirectSignature(hash: Hash, k: PrivateKey, prepared: Bytes, salt: Bytes, r: nat)
    requires WellFormed(k) && k.n > 1 && LargeEnough(EmBits(k.n)) && |salt| == SALT_LEN
    requires Coprime(r, k.n)
    ensures Issue(hash, k, prepared, salt, r) == Ok(DirectSignature(hash, k, prepared, salt))
    ensures Verify(hash, k.n, k.e, prepared, DirectSignature(hash, k, prepared, salt))
  {
    var n := k.n;
    var m := Representative(hash, n, prepared, salt);
    RepresentativeBelow(hash, n, prepared, salt);
    var x, rInv := BlindValue(m, r, k.e, n), Inverse(r, n).value;
    BlindValueCong(m, r, k.e, n);
    LowOctetsOfResidue(x, n);
    var y := CrtSign(k, x);
    LowOctetsOfResidue(y, n);
    UnblindedIsDirectSignature(k, m, r, rInv);
    LowOctetsOfResidue(Unblind(y, rInv, n), n);
    DirectVerifies(hash, k, prepared, salt);
  }

  /** A signature that verifies for two messages yields a collision of SHA-384, so that
      one signature is a token for one message only. */
  lemma {:induction false} SignatureBinds(hash: Hash, n: nat, e: nat, a: Bytes, b: Bytes, sig: Bytes) returns (salt: Bytes)
    requires n > 0 && Verify(hash, n, e, a, sig) && Verify(hash, n, e, b, sig) && a != b
    ensures |salt| == SALT_LEN
    ensures Collide(hash, a, b)
            || Collide(hash, EIGHT_ZEROS + Digest(hash, a) + salt, EIGHT_ZEROS + Digest(hash, b) + salt)
  {
    var em := I2osp(Pow(Os2ip(sig), e) % n, ByteLength(EmBits(n)));
    salt := EncodingBinds(hash, a, b, em.value, EmBits(n));
  }
}
