/** The SHA-256 proof of work that prices a stranger's first token: a solution
    is a nonce whose digest has enough leading zero bits. */
module Hashcash {
  import opened NumberTheory
  import opened Octets

  /** Counts zero octets in steps of eight and stops inside the first other one. */
  method LeadingZeroBits(digest: Bytes) returns (bits: nat)
    ensures bits == 8 * |digest| - BitLength(Os2ip(digest))
  {
    bits := 0;
    for i := 0 to |digest|
      invariant bits == 8 * i && Os2ip(digest[..i]) == 0
    {
      var octet := digest[i];
      assert digest[..i + 1][..i] == digest[..i];
      if octet == 0 {
        bits := bits + 8;
        continue;
      }
      LeadingOctet(digest, i);
      bits := bits + (8 - BitLength(octet));
      return;
    }
    assert digest[..|digest|] == digest;
  }

  lemma {:induction false} LeadingOctet(d: Bytes, i: nat)
    requires i < |d| && Os2ip(d[..i]) == 0 && d[i] != 0
    ensures BitLength(d[i]) <= 8
    ensures BitLength(Os2ip(d)) == 8 * (|d| - i - 1) + BitLength(d[i])
  {
    var tail := d[i + 1..];
    OctetsAfter(d[..i], d[i], tail);
    assert d == d[..i] + ([d[i]] + tail);
    Os2ipBound(tail);
    PowBytes(|tail|);
    PowTwo8();
    BitLengthIff(d[i], 8);
    ShiftedBitLength(d[i], 8 * |tail|, Os2ip(tail));
  }

  lemma {:induction false} OctetsAfter(head: Bytes, b: Byte, tail: Bytes)
    requires Os2ip(head) == 0
    ensures Os2ip(head + ([b] + tail)) == b * Pow(256, |tail|) + Os2ip(tail)
  {
    Os2ipConcat(head, [b] + tail);
    Os2ipConcat([b], tail);
    assert [b][..0] == [];
    assert Os2ip([b]) == b;
  }

  /** Putting `s` lower bits after a positive number lengthens it by `s` bits. */
  lemma ShiftedBitLength(x: nat, s: nat, rest: nat)
    requires x > 0 && rest < Pow(2, s)
    ensures x * Pow(2, s) + rest >= 0
    ensures BitLength(x * Pow(2, s) + rest) == BitLength(x) + s
  {
    var b, u := BitLength(x), Pow(2, s);
    BitLengthBounds(x);
    PowAdd(2, b, s);
    PowAdd(2, b - 1, s);
    ScaledBetween(Pow(2, b - 1), x, Pow(2, b), u, rest);
    BitLengthIff(x * u + rest, b + s);
    BitLengthIff(x * u + rest, b + s - 1);
  }

  /** The digest of `challenge:nonce`, read as an integer, is below
      `2^(256 - difficulty)`; no digest meets more than 256 bits. */
  predicate Solves(sha256: seq<char> -> Bytes, challenge: string, nonce: string, difficulty: int)
  {
    var digest := sha256(challenge + ":" + nonce);
    difficulty <= 0 || (difficulty <= 8 * |digest| && Os2ip(digest) < Pow(2, 8 * |digest| - difficulty))
  }

  /** All octets are zero. */
  predicate AllZero(b: Bytes)
  {
    forall i | 0 <= i < |b| :: b[i] == 0
  }

  lemma {:induction false} ZeroIff(b: Bytes)
    ensures Os2ip(b) == 0 <==> AllZero(b)
  {
    if b != [] { ZeroIff(b[..|b| - 1]); }
  }

  lemma ScaledBelow(x: nat, limit: nat, unit: nat, rest: nat)
    requires rest < unit
    ensures x * unit + rest < limit * unit <==> x < limit
  {
    if x < limit {
      ScaledBetween(0, x, limit, unit, rest);
    } else {
      ScaledGap(limit, x, unit);
    }
  }

  lemma {:induction false} SplitOctets(b: Bytes, head: nat)
    requires head <= |b|
    ensures Os2ip(b) < Pow(256, |b| - head) <==> AllZero(b[..head])
    ensures AllZero(b[..head]) ==> Os2ip(b) == Os2ip(b[head..])
  {
    var h, tail := b[..head], b[head..];
    assert b == h + tail;
    Os2ipConcat(h, tail);
    Os2ipBound(tail);
    ZeroIff(h);
    ScaledBelow(Os2ip(h), 1, Pow(256, |tail|), Os2ip(tail));
  }

  lemma {:induction false} HeadOctet(b: Bytes, spare: nat)
    requires b != [] && spare < 8
    ensures Os2ip(b) < Pow(2, 8 * |b| - spare) <==> b[0] < Pow(2, 8 - spare)
  {
    var rest := b[1..];
    OctetsAfter([], b[0], rest);
    assert [] + ([b[0]] + rest) == b;
    Os2ipBound(rest);
    PowBytes(|rest|);
    PowAdd(2, 8 - spare, 8 * |rest|);
    PowPositive(2, 8 - spare);
    ScaledBelow(b[0], Pow(2, 8 - spare), Pow(256, |rest|), Os2ip(rest));
  }

  /** A nonce solves a challenge if and only if that many bits of the digest of
      `challenge:nonce` are zero from its first octet on. */
  lemma {:induction false} SolvesIff(sha256: seq<char> -> Bytes, challenge: string, nonce: string, difficulty: nat)
    requires 0 < difficulty <= 8 * |sha256(challenge + ":" + nonce)|
    ensures var digest, whole, spare := sha256(challenge + ":" + nonce), difficulty / 8, difficulty % 8;
            Solves(sha256, challenge, nonce, difficulty) <==>
            AllZero(digest[..whole]) && (spare != 0 ==> digest[whole] < Pow(2, 8 - spare))
  {
    var digest, whole, spare := sha256(challenge + ":" + nonce), difficulty / 8, difficulty % 8;
    var tail := digest[whole..];
    SplitOctets(digest, whole);
    PowBytes(|tail|);
    assert 8 * |digest| - difficulty == 8 * |tail| - spare;
    if spare != 0 {
      PowMonotone(2, 8 * |tail| - spare, 8 * |tail|);
      HeadOctet(tail, spare);
    }
  }

  /** `verify_pow` counts leading zero bits instead. */
  method VerifyPow(sha256: seq<char> -> Bytes, challenge: string, nonce: string, difficulty: int) returns (ok: bool)
    ensures ok <==> Solves(sha256, challenge, nonce, difficulty)
  {
    var digest := sha256(challenge + ":" + nonce);
    var zeros := LeadingZeroBits(digest);
    ok := zeros >= difficulty;
    if 0 < difficulty <= 8 * |digest| {
      BitLengthIff(Os2ip(digest), 8 * |digest| - difficulty);
    }
  }
}
