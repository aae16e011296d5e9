/** EMSA-PSS over SHA-384 with MGF1: the encoder the blind-signing client runs,
    and the verifier of section 9.1.2 of RFC 8017, which is its reference. */
module Pss {
  import opened NumberTheory
  import opened Octets

  const H_LEN: nat := 48
  const SALT_LEN: nat := 48
  const TRAILER: Byte := 0xbc

  function Zeros(n: nat): (z: Bytes)
    ensures |z| == n
  {
    if n == 0 then [] else Zeros(n - 1) + [0]
  }

  /** SHA-384, left uninterpreted: a function from octet strings. */
  type Hash = Bytes -> Bytes

  /** The digest. Cutting or padding the result to 48 octets makes `Hash` range
      over exactly the functions with 48-octet results. */
  function Digest(hash: Hash, s: Bytes): (d: Bytes)
    ensures |d| == H_LEN
    ensures |hash(s)| == H_LEN ==> d == hash(s)
  {
    var d := hash(s);
    if |d| >= H_LEN then d[..H_LEN] else d + Zeros(H_LEN - |d|)
  }

  // ----- MGF1

  /** `Hash(seed || counter)` for the first `count` counters, concatenated. */
  function Blocks(hash: Hash, seed: Bytes, count: nat): (t: Bytes)
    ensures |t| == 48 * count
  {
    if count == 0 then [] else Blocks(hash, seed, count - 1) + Digest(hash, seed + LowOctets(count - 1, 4))
  }

  /** The mask of section B.2.1 of RFC 8017: the leading octets of as many
      blocks as it takes. */
  function Mask(hash: Hash, seed: Bytes, length: nat): (m: Bytes)
    ensures |m| == length
  {
    Blocks(hash, seed, (length + 47) / 48)[..length]
  }

  lemma BlockCount(length: nat, count: nat)
    requires length <= 48 * count && (count == 0 || 48 * (count - 1) < length)
    ensures count == (length + 47) / 48
  {}

  /** The counter has four octets, so a mask longer than that raises. */
  method Mgf1(hash: Hash, seed: Bytes, length: nat) returns (r: Result<Bytes>)
    ensures r.Ok? <==> length <= 48 * Pow(256, 4)
    ensures r.Ok? ==> r.value == Mask(hash, seed, length)
    ensures r.Err? ==> r.error == Overflow
  {
    var out: Bytes := [];
    var counter := 0;
    while |out| < length
      invariant out == Blocks(hash, seed, counter) && counter <= Pow(256, 4)
      invariant counter == 0 || 48 * (counter - 1) < length
    {
      var c := I2osp(counter, 4);
      if c.Err? { return c; }
      out := out + Digest(hash, seed + c.value);
      counter := counter + 1;
    }
    BlockCount(length, counter);
    r := Ok(out[..length]);
  }

  lemma {:induction false} LastBlock(hash: Hash, seed: Bytes, b: nat, j: nat)
    requires j < H_LEN
    ensures 48 * b + j < |Blocks(hash, seed, b + 1)|
    ensures Blocks(hash, seed, b + 1)[48 * b + j] == Digest(hash, seed + LowOctets(b, 4))[j]
  {
    var t, d := Blocks(hash, seed, b), Digest(hash, seed + LowOctets(b, 4));
    assert (t + d)[|t| + j] == d[j];
  }

  lemma {:induction false} BlocksGrow(hash: Hash, seed: Bytes, b: nat, count: nat)
    requires b <= count
    ensures Blocks(hash, seed, b) <= Blocks(hash, seed, count)
  {
    if b < count { BlocksGrow(hash, seed, b, count - 1); }
  }

  lemma PrefixAt(s: Bytes, t: Bytes, k: nat)
    requires s <= t && k < |s|
    ensures k < |t| && t[k] == s[k]
  {}

  /** Octet `i` of the mask is octet `i mod hLen` of block `i div hLen`. */
  lemma {:induction false} MaskAt(hash: Hash, seed: Bytes, count: nat, b: nat, j: nat)
    requires b < count && j < H_LEN
    ensures 48 * b + j < |Blocks(hash, seed, count)|
    ensures Blocks(hash, seed, count)[48 * b + j] == Digest(hash, seed + LowOctets(b, 4))[j]
  {
    LastBlock(hash, seed, b, j);
    BlocksGrow(hash, seed, b + 1, count);
    PrefixAt(Blocks(hash, seed, b + 1), Blocks(hash, seed, count), 48 * b + j);
  }

  // ----- the encoding

  function XorAll(a: Bytes, b: Bytes): (c: Bytes)
    requires |a| == |b|
    ensures |c| == |a|
    ensures forall i | 0 <= i < |a| :: c[i] == Xor(a[i], b[i])
  {
    if a == [] then [] else XorAll(a[..|a| - 1], b[..|b| - 1]) + [Xor(a[|a| - 1], b[|b| - 1])]
  }

  /** One more than `0xFF >> clear`. */
  function Limit(clear: nat): (m: int)
    requires clear < 8
    ensures 2 <= m <= 256
  {
    if clear == 0 then 256 else if clear == 1 then 128 else if clear == 2 then 64
    else if clear == 3 then 32 else if clear == 4 then 16 else if clear == 5 then 8
    else if clear == 6 then 4 else 2
  }

  lemma {:induction false} LimitIsPow(clear: nat)
    requires clear < 8
    ensures Limit(clear) == Pow(2, 8 - clear)
  {
    PowTwo8();
  }

  /** `b[0] &= 0xFF >> clear`: keeps the low `8 - clear` bits of the first octet. */
  function ClearTop(b: Bytes, clear: nat): (c: Bytes)
    requires b != [] && clear < 8
    ensures |c| == |b| && c[0] < Limit(clear)
  {
    b[0 := b[0] % Limit(clear)]
  }

  function SpareBits(emBits: nat): (c: nat)
    ensures c < 8
  {
    8 * ByteLength(emBits) - emBits
  }

  const LEAST_LEN: nat := H_LEN + SALT_LEN + 2

  predicate LargeEnough(emBits: nat)
  {
    ByteLength(emBits) >= LEAST_LEN
  }

  /** The block is longer than what a mask counter of four octets covers. */
  predicate TooLong(emBits: nat)
  {
    ByteLength(emBits) - H_LEN - 1 > 48 * Pow(256, 4)
  }

  function DataBlock(emLen: nat, salt: Bytes): (db: Bytes)
    requires emLen >= LEAST_LEN && |salt| == SALT_LEN
    ensures |db| == emLen - H_LEN - 1
  {
    Zeros(emLen - SALT_LEN - H_LEN - 2) + [1] + salt
  }

  function SaltedHash(hash: Hash, msg: Bytes, salt: Bytes): (h: Bytes)
    ensures |h| == H_LEN
  {
    Digest(hash, Zeros(8) + Digest(hash, msg) + salt)
  }

  /** Masks a data block, or unmasks a masked one, keeping the spare bits clear. */
  function Masked(hash: Hash, h: Bytes, db: Bytes, clear: nat): (b: Bytes)
    requires db != [] && clear < 8
    ensures |b| == |db| && b[0] < Limit(clear)
  {
    ClearTop(XorAll(db, Mask(hash, h, |db|)), clear)
  }

  /** The encoded message for a given salt. */
  function Encoded(hash: Hash, msg: Bytes, emBits: nat, salt: Bytes): (em: Bytes)
    requires LargeEnough(emBits) && |salt| == SALT_LEN
    ensures |em| == ByteLength(emBits) && em[0] < Limit(SpareBits(emBits))
  {
    var h := SaltedHash(hash, msg, salt);
    Masked(hash, h, DataBlock(ByteLength(emBits), salt), SpareBits(emBits)) + h + [TRAILER]
  }

  const EIGHT_ZEROS: Bytes := [0, 0, 0, 0, 0, 0, 0, 0]

  lemma EightZeros()
    ensures Zeros(8) == EIGHT_ZEROS
  {
    ZerosAreZero(8);
  }

  method EmsaPssEncode(hash: Hash, msg: Bytes, emBits: nat, salt: Bytes) returns (r: Result<Bytes>)
    requires |salt| == SALT_LEN
    ensures r.Ok? <==> LargeEnough(emBits) && !TooLong(emBits)
    ensures r.Ok? ==> r.value == Encoded(hash, msg, emBits, salt)
    ensures r.Ok? ==> var em := r.value;
                      && |em| == (emBits + 7) / 8 && em[|em| - 1] == 0xbc
                      && em[|em| - 49..|em| - 1] == Digest(hash, EIGHT_ZEROS + Digest(hash, msg) + salt)
    ensures r.Err? ==> r.error == if LargeEnough(emBits) then Overflow else ModulusTooSmall
  {
    var emLen := (emBits + 7) / 8;
    var mHash := Digest(hash, msg);
    if emLen < H_LEN + SALT_LEN + 2 { return Err(ModulusTooSmall); }
    var mPrime := Zeros(8) + mHash + salt;
    var h := Digest(hash, mPrime);
    var ps := Zeros(emLen - SALT_LEN - H_LEN - 2);
    var db := ps + [1] + salt;
    assert h == SaltedHash(hash, msg, salt);
    assert db == DataBlock(emLen, salt);
    var maskedDb := MaskBlock(hash, h, db, 8 * emLen - emBits);
    if maskedDb.Err? { return maskedDb; }
    EightZeros();
    Parts(maskedDb.value, h, TRAILER);
    r := Ok(maskedDb.value + h + [TRAILER]);
  }

  /** The mask, the exclusive or, and the spare bits cleared where there are any. */
  method MaskBlock(hash: Hash, h: Bytes, db: Bytes, clear: nat) returns (r: Result<Bytes>)
    requires db != [] && clear < 8
    ensures r.Ok? <==> |db| <= 48 * Pow(256, 4)
    ensures r.Ok? ==> r.value == Masked(hash, h, db, clear)
    ensures r.Err? ==> r.error == Overflow
  {
    var dbMask := Mgf1(hash, h, |db|);
    if dbMask.Err? { return dbMask; }
    var b := XorAll(db, dbMask.value);
    if clear != 0 {
      b := b[0 := b[0] % Limit(clear)];
    } else {
      ClearTopFixed(b, clear);
    }
    r := Ok(b);
  }

  // ----- the verifier of section 9.1.2 of RFC 8017

  predicate Verifies(hash: Hash, msg: Bytes, em: Bytes, emBits: nat)
  {
    && LargeEnough(emBits) && |em| == ByteLength(emBits)
    && em[|em| - 1] == TRAILER
    && var cut := |em| - H_LEN - 1;
       BlockVerifies(hash, msg, em[..cut], em[cut..|em| - 1], SpareBits(emBits))
  }

  predicate BlockVerifies(hash: Hash, msg: Bytes, maskedDb: Bytes, h: Bytes, clear: nat)
    requires |maskedDb| > SALT_LEN && clear < 8
  {
    && maskedDb[0] < Limit(clear)
    && var db := Masked(hash, h, maskedDb, clear);
       var padding := |db| - SALT_LEN - 1;
       && db[..padding] == Zeros(padding) && db[padding] == 1
       && SaltedHash(hash, msg, db[padding + 1..]) == h
  }

  // ----- the encoding fits below the modulus

  lemma PowSplit(len: nat, clear: nat)
    requires len > 0 && clear < 8
    ensures Limit(clear) * Pow(256, len - 1) == Pow(2, 8 * len - clear)
  {
    LimitIsPow(clear);
    PowBytes(len - 1);
    PowAdd(2, 8 - clear, 8 * (len - 1));
  }

  lemma {:induction false} HeadBound(em: Bytes, clear: nat)
    requires em != [] && clear < 8 && em[0] < Limit(clear)
    ensures Os2ip(em) < Pow(2, 8 * |em| - clear)
  {
    var tail := em[1..];
    assert em == [em[0]] + tail;
    Os2ipConcat([em[0]], tail);
    assert [em[0]][..0] == [];
    assert Os2ip([em[0]]) == em[0];
    Os2ipBound(tail);
    PowSplit(|em|, clear);
    ScaledBetween(0, em[0], Limit(clear), Pow(256, |em| - 1), Os2ip(tail));
  }

  lemma {:induction false} FitsInBits(em: Bytes, emBits: nat)
    requires em != [] && |em| == ByteLength(emBits) && em[0] < Limit(SpareBits(emBits))
    ensures Os2ip(em) < Pow(2, emBits)
  {
    HeadBound(em, SpareBits(emBits));
    assert 8 * |em| - SpareBits(emBits) == emBits;
  }

  /** The integer of an encoding is below `2^emBits`. */
  lemma {:induction false} EncodedBelow(hash: Hash, msg: Bytes, emBits: nat, salt: Bytes)
    requires LargeEnough(emBits) && |salt| == SALT_LEN
    ensures Os2ip(Encoded(hash, msg, emBits, salt)) < Pow(2, emBits)
  {
    FitsInBits(Encoded(hash, msg, emBits, salt), emBits);
  }

  // ----- masking is undone by masking again

  lemma XorInvolution(a: Byte, b: Byte)
    ensures Xor(Xor(a, b), b) == a
  {
    PowTwo8();
    XorTwice(a, b, 8);
  }

  /** Masking twice, clearing the spare bits after each pass, clears the spare
      bits of the original and changes nothing else. */
  lemma {:induction false} UnmaskInvolution(x: Bytes, mask: Bytes, clear: nat)
    requires x != [] && |mask| == |x| && clear < 8
    ensures ClearTop(XorAll(ClearTop(XorAll(x, mask), clear), mask), clear) == ClearTop(x, clear)
  {
    var once := ClearTop(XorAll(x, mask), clear);
    var twice := ClearTop(XorAll(once, mask), clear);
    LimitIsPow(clear);
    XorLowInvolution(x[0], mask[0], 8, 8 - clear, 8);
    forall i | 0 < i < |x| ensures twice[i] == x[i] {
      XorInvolution(x[i], mask[i]);
    }
  }

  lemma MaskedTwice(hash: Hash, h: Bytes, x: Bytes, clear: nat)
    requires x != [] && clear < 8 && x[0] < Limit(clear)
    ensures Masked(hash, h, Masked(hash, h, x, clear), clear) == x
  {
    UnmaskInvolution(x, Mask(hash, h, |x|), clear);
    ClearTopFixed(x, clear);
  }

  lemma ClearTopFixed(x: Bytes, clear: nat)
    requires x != [] && clear < 8 && x[0] < Limit(clear)
    ensures ClearTop(x, clear) == x
  {
    QuotientUnique(x[0], Limit(clear), 0, x[0]);
  }

  // ----- the verifier accepts exactly the encodings

  lemma DataBlockParts(emLen: nat, salt: Bytes, db: Bytes)
    requires emLen >= LEAST_LEN && |salt| == SALT_LEN && |db| == emLen - H_LEN - 1
    ensures var padding := |db| - SALT_LEN - 1;
            db == DataBlock(emLen, salt) <==>
            db[..padding] == Zeros(padding) && db[padding] == 1 && db[padding + 1..] == salt
  {
    var padding := |db| - SALT_LEN - 1;
    assert db == db[..padding] + [db[padding]] + db[padding + 1..];
    var d := DataBlock(emLen, salt);
    assert d[..padding] == Zeros(padding) && d[padding] == 1 && d[padding + 1..] == salt;
  }

  lemma DataBlockHead(emLen: nat, salt: Bytes)
    requires emLen >= LEAST_LEN && |salt| == SALT_LEN
    ensures DataBlock(emLen, salt)[0] <= 1
  {
    ZerosAreZero(emLen - LEAST_LEN);
  }

  lemma {:induction false} ZerosAreZero(n: nat)
    ensures forall i | 0 <= i < n :: Zeros(n)[i] == 0
  {
    if n > 0 { ZerosAreZero(n - 1); }
  }

  lemma EncodedBlockVerifies(hash: Hash, msg: Bytes, emLen: nat, salt: Bytes, clear: nat)
    requires emLen >= LEAST_LEN && |salt| == SALT_LEN && clear < 8
    ensures var h := SaltedHash(hash, msg, salt);
            BlockVerifies(hash, msg, Masked(hash, h, DataBlock(emLen, salt), clear), h, clear)
  {
    var h := SaltedHash(hash, msg, salt);
    var db := DataBlock(emLen, salt);
    DataBlockHead(emLen, salt);
    MaskedTwice(hash, h, db, clear);
    DataBlockParts(emLen, salt, db);
    UnmaskedVerifies(hash, msg, Masked(hash, h, db, clear), h, clear, db, salt);
  }

  lemma UnmaskedVerifies(hash: Hash, msg: Bytes, maskedDb: Bytes, h: Bytes, clear: nat, db: Bytes, salt: Bytes)
    requires |maskedDb| > SALT_LEN && clear < 8 && maskedDb[0] < Limit(clear)
    requires db == Masked(hash, h, maskedDb, clear) && h == SaltedHash(hash, msg, salt)
    requires var padding := |db| - SALT_LEN - 1;
             db[..padding] == Zeros(padding) && db[padding] == 1 && db[padding + 1..] == salt
    ensures BlockVerifies(hash, msg, maskedDb, h, clear)
  {}

  lemma VerifiedBlockIsEncoded(hash: Hash, msg: Bytes, maskedDb: Bytes, h: Bytes, clear: nat) returns (salt: Bytes)
    requires |maskedDb| > SALT_LEN && clear < 8
    requires BlockVerifies(hash, msg, maskedDb, h, clear)
    ensures |salt| == SALT_LEN && h == SaltedHash(hash, msg, salt)
    ensures maskedDb == Masked(hash, h, DataBlock(|maskedDb| + H_LEN + 1, salt), clear)
  {
    var db := Masked(hash, h, maskedDb, clear);
    salt := db[|db| - SALT_LEN..];
    DataBlockParts(|db| + H_LEN + 1, salt, db);
    MaskedTwice(hash, h, maskedDb, clear);
  }

  lemma EncodedVerifies(hash: Hash, msg: Bytes, emBits: nat, salt: Bytes)
    requires LargeEnough(emBits) && |salt| == SALT_LEN
    ensures Verifies(hash, msg, Encoded(hash, msg, emBits, salt), emBits)
  {
    var h, emLen := SaltedHash(hash, msg, salt), ByteLength(emBits);
    var maskedDb := Masked(hash, h, DataBlock(emLen, salt), SpareBits(emBits));
    EncodedBlockVerifies(hash, msg, emLen, salt, SpareBits(emBits));
    AssembledVerifies(hash, msg, maskedDb, h, emBits);
  }

  lemma AssembledVerifies(hash: Hash, msg: Bytes, maskedDb: Bytes, h: Bytes, emBits: nat)
    requires LargeEnough(emBits) && |h| == H_LEN && |maskedDb| == ByteLength(emBits) - H_LEN - 1
    requires BlockVerifies(hash, msg, maskedDb, h, SpareBits(emBits))
    ensures Verifies(hash, msg, maskedDb + h + [TRAILER], emBits)
  {
    Parts(maskedDb, h, TRAILER);
  }

  lemma Parts(a: Bytes, b: Bytes, c: Byte)
    ensures var s := a + b + [c];
            s[..|a|] == a && s[|a|..|s| - 1] == b && s[|s| - 1] == c
  {}

  lemma Reassembled(em: Bytes, cut: nat)
    requires cut < |em|
    ensures em == em[..cut] + em[cut..|em| - 1] + [em[|em| - 1]]
  {}

  lemma VerifiedIsEncoded(hash: Hash, msg: Bytes, em: Bytes, emBits: nat) returns (salt: Bytes)
    requires LargeEnough(emBits) && Verifies(hash, msg, em, emBits)
    ensures |salt| == SALT_LEN && em == Encoded(hash, msg, emBits, salt)
  {
    var cut := |em| - H_LEN - 1;
    salt := VerifiedBlockIsEncoded(hash, msg, em[..cut], em[cut..|em| - 1], SpareBits(emBits));
    Reassembled(em, cut);
    EncodedIs(hash, msg, emBits, salt, em[..cut], em[cut..|em| - 1]);
  }

  lemma EncodedIs(hash: Hash, msg: Bytes, emBits: nat, salt: Bytes, maskedDb: Bytes, h: Bytes)
    requires LargeEnough(emBits) && |salt| == SALT_LEN && h == SaltedHash(hash, msg, salt)
    requires maskedDb == Masked(hash, h, DataBlock(ByteLength(emBits), salt), SpareBits(emBits))
    ensures maskedDb + h + [TRAILER] == Encoded(hash, msg, emBits, salt)
  {}

  /** The verifier accepts an octet string for a message if and only if it is
      the encoding of that message under some salt. */
  lemma VerifiesIff(hash: Hash, msg: Bytes, em: Bytes, emBits: nat)
    requires LargeEnough(emBits)
    ensures Verifies(hash, msg, em, emBits) <==>
            exists salt: Bytes :: |salt| == SALT_LEN && em == Encoded(hash, msg, emBits, salt)
  {
    if Verifies(hash, msg, em, emBits) {
      var salt := VerifiedIsEncoded(hash, msg, em, emBits);
    } else {
      forall salt: Bytes | |salt| == SALT_LEN ensures em != Encoded(hash, msg, emBits, salt) {
        EncodedVerifies(hash, msg, emBits, salt);
      }
    }
  }

  // ----- every octet of an encoding

  /** Octet `i` under the mask: zeros, a one, and the salt. */
  function PlainOctet(emLen: nat, salt: Bytes, i: nat): Byte
    requires emLen >= LEAST_LEN && |salt| == SALT_LEN && i < emLen - 49
  {
    if i < emLen - 98 then 0 else if i == emLen - 98 then 1 else salt[i - (emLen - 97)]
  }

  lemma DataBlockAt(emLen: nat, salt: Bytes, i: nat)
    requires emLen >= LEAST_LEN && |salt| == SALT_LEN && i < emLen - 49
    ensures DataBlock(emLen, salt)[i] == PlainOctet(emLen, salt, i)
  {
    ZerosAreZero(emLen - 98);
  }

  lemma {:induction false} MaskOctet(hash: Hash, seed: Bytes, length: nat, i: nat)
    requires i < length
    ensures Mask(hash, seed, length)[i] == Digest(hash, seed + LowOctets(i / 48, 4))[i % 48]
  {
    MaskAt(hash, seed, (length + 47) / 48, i / 48, i % 48);
  }

  /** The octets of an encoding one by one, in the terms of section 9.1.1 of RFC 8017:
      the masked block with its spare bits cleared, the hash of eight zero octets, the
      hash of the message and the salt, and the trailer. */
  lemma {:induction false} EncodedOctet(hash: Hash, msg: Bytes, emBits: nat, salt: Bytes, i: nat)
    requires LargeEnough(emBits) && |salt| == SALT_LEN && i < ByteLength(emBits)
    ensures var em, emLen := Encoded(hash, msg, emBits, salt), (emBits + 7) / 8;
            var h := Digest(hash, EIGHT_ZEROS + Digest(hash, msg) + salt);
            |em| == emLen && Pow(2, emBits + 8 - 8 * emLen) > 0 &&
            em[i] == if i == emLen - 1 then 0xbc
                     else if i >= emLen - 49 then h[i - (emLen - 49)]
                     else
                       var o := Xor(PlainOctet(emLen, salt, i), Digest(hash, h + LowOctets(i / 48, 4))[i % 48]);
                       if i == 0 then o % Pow(2, emBits + 8 - 8 * emLen) else o
  {
    EightZeros();
    var emLen, h := ByteLength(emBits), SaltedHash(hash, msg, salt);
    LimitIsPow(SpareBits(emBits));
    if i < emLen - 49 {
      DataBlockAt(emLen, salt, i);
      MaskOctet(hash, h, emLen - 49, i);
    }
  }

  // ----- an encoding binds its message

  predicate Collide(hash: Hash, a: Bytes, b: Bytes)
  {
    a != b && Digest(hash, a) == Digest(hash, b)
  }

  /** An octet string that is accepted for two messages yields a collision of the hash:
      on the messages, or on what their encodings hash. */
  lemma {:induction false} EncodingBinds(hash: Hash, a: Bytes, b: Bytes, em: Bytes, emBits: nat) returns (salt: Bytes)
    requires Verifies(hash, a, em, emBits) && Verifies(hash, b, em, emBits) && a != b
    ensures |salt| == SALT_LEN
    ensures Collide(hash, a, b)
            || Collide(hash, EIGHT_ZEROS + Digest(hash, a) + salt, EIGHT_ZEROS + Digest(hash, b) + salt)
  {
    EightZeros();
    var cut := |em| - H_LEN - 1;
    var db := Masked(hash, em[cut..|em| - 1], em[..cut], SpareBits(emBits));
    salt := db[|db| - SALT_LEN..];
    if EIGHT_ZEROS + Digest(hash, a) + salt == EIGHT_ZEROS + Digest(hash, b) + salt {
      SameMiddle(EIGHT_ZEROS, Digest(hash, a), Digest(hash, b), salt);
    }
  }

  lemma SameMiddle(x: Bytes, a: Bytes, b: Bytes, y: Bytes)
    requires x + a + y == x + b + y && |a| == |b|
    ensures a == b
  {
    assert a == (x + a + y)[|x|..|x| + |a|];
    assert b == (x + b + y)[|x|..|x| + |b|];
  }
}
