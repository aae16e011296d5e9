/** The Redis side of deposit tokens: workers agree on one issuer key through
    SETNX, each with a one-entry cache, and a token is spent by SETNX with a TTL. */
module TokenStore {
  import opened Basics
  import opened NumberTheory
  import opened Octets
  import opened Pss
  import opened BlindRsa
  import opened DepositAuth
  import opened Hashcash

  /** A private key in PEM form; parsing is a function, so the PEM stands for the key. */
  type Pem = nat

  // ----- the issuer key: one call, alone

  class IssuerKey {
    var stored: Option<Pem>

    constructor ()
      ensures stored == None
    {
      stored := None;
    }

    method SetNx(pem: Pem) returns (won: bool)
      modifies this
      ensures won <==> old(stored) == None
      ensures stored == if won then Some(pem) else old(stored)
    {
      won := stored == None;
      if won { stored := Some(pem); }
    }
  }

  class StoreWorker {
    /** `_cache`: the PEM of the one cached entry. */
    var cache: Option<Pem>

    constructor ()
      ensures cache == None
    {
      cache := None;
    }

    /** `issuer_key`. Parameters are the key it would generate and the key a rival
        worker may store between the GET and the SETNX. */
    method GetIssuerKey(redis: IssuerKey, newPem: Pem, rival: Option<Pem>) returns (pem: Pem)
      modifies this, redis
      ensures redis.stored == Some(pem) && cache == Some(pem)
      ensures redis.stored == if old(redis.stored).Some? then old(redis.stored)
                              else if rival.Some? then rival else Some(newPem)
    {
      var got := redis.stored;
      if got == None {
        redis.stored := rival;
        var won := redis.SetNx(newPem);
        got := if won then Some(newPem) else redis.stored;
      }
      if cache != got { cache := got; }
      pem := got.value;
    }
  }

  // ----- the issuer key: calls interleaved

  /** Where a worker is inside `issuer_key`. A GET that finds nothing after a lost
      SETNX crashes the call. */
  datatype Phase = Idle | Absent | Lost | Got(pem: Pem) | Crashed

  datatype Worker = Worker(phase: Phase, cache: Option<Pem>)

  datatype State = State(stored: Option<Pem>, workers: seq<Worker>)

  datatype Step =
    | Get(w: nat)
    | SetNx(w: nat, newPem: Pem)
    | GetAgain(w: nat)
    | Return(w: nat)
    | Rotate

  predicate Enabled(s: State, step: Step)
  {
    match step
    case Rotate => true
    case Get(w) => w < |s.workers| && s.workers[w].phase == Idle
    case SetNx(w, _) => w < |s.workers| && s.workers[w].phase == Absent
    case GetAgain(w) => w < |s.workers| && s.workers[w].phase == Lost
    case Return(w) => w < |s.workers| && s.workers[w].phase.Got?
  }

  function Phased(s: State, w: nat, p: Phase): State
    requires w < |s.workers|
  {
    s.(workers := s.workers[w := s.workers[w].(phase := p)])
  }

  function After(s: State, step: Step): State
    requires Enabled(s, step)
  {
    match step
    case Rotate => s.(stored := None)
    case Get(w) => Phased(s, w, if s.stored.Some? then Got(s.stored.value) else Absent)
    case SetNx(w, newPem) =>
      if s.stored.None? then Phased(s, w, Got(newPem)).(stored := Some(newPem)) else Phased(s, w, Lost)
    case GetAgain(w) => Phased(s, w, if s.stored.Some? then Got(s.stored.value) else Crashed)
    case Return(w) => s.(workers := s.workers[w := Worker(Idle, Some(s.workers[w].phase.pem))])
  }

  /** A run; a step that is not enabled does nothing. */
  function Run(s: State, steps: seq<Step>): State
  {
    if steps == [] then s
    else
      var t := Run(s, steps[..|steps| - 1]);
      if Enabled(t, steps[|steps| - 1]) then After(t, steps[|steps| - 1]) else t
  }

  function Boot(n: nat): State
  {
    State(None, seq(n, _ => Worker(Idle, None)))
  }

  /** Every key a worker has in hand or in its cache is the stored one. */
  predicate Agreed(s: State)
  {
    forall i | 0 <= i < |s.workers| ::
      && (s.workers[i].phase.Got? ==> s.stored == Some(s.workers[i].phase.pem))
      && (s.workers[i].phase == Lost ==> s.stored.Some?)
      && (s.workers[i].cache.Some? ==> s.stored == s.workers[i].cache)
      && s.workers[i].phase != Crashed
  }

  predicate Undisturbed(steps: seq<Step>)
  {
    forall i | 0 <= i < |steps| :: steps[i] != Rotate
  }

  /** Without a rotation, all workers in every interleaving use the one stored
      key, no call crashes, and the key never changes once it is there. */
  lemma {:induction false} OneIssuerKey(n: nat, steps: seq<Step>)
    requires Undisturbed(steps)
    ensures Agreed(Run(Boot(n), steps)) && |Run(Boot(n), steps).workers| == n
  {
    if steps != [] {
      OneIssuerKey(n, steps[..|steps| - 1]);
      assert steps[|steps| - 1] != Rotate;
    }
  }

  lemma {:induction false} IssuerKeyStays(s: State, steps: seq<Step>)
    requires Undisturbed(steps) && s.stored.Some?
    ensures Run(s, steps).stored == s.stored
  {
    if steps != [] {
      IssuerKeyStays(s, steps[..|steps| - 1]);
      assert steps[|steps| - 1] != Rotate;
    }
  }

  // ----- the call that a rotation crashes

  /** The state in which step `i` of a run is taken. */
  function At(n: nat, steps: seq<Step>, i: nat): State
    requires i <= |steps|
  {
    Run(Boot(n), steps[..i])
  }

  predicate Taken(n: nat, steps: seq<Step>, i: nat)
  {
    i < |steps| && Enabled(At(n, steps, i), steps[i])
  }

  /** Step `i` is a SETNX that stores its key. */
  predicate Wins(n: nat, steps: seq<Step>, i: nat)
  {
    Taken(n, steps, i) && steps[i].SetNx? && At(n, steps, i).stored.None?
  }

  /** Step `i` is a SETNX of worker `w` that finds a key. */
  predicate Loses(n: nat, steps: seq<Step>, i: nat, w: nat)
  {
    Taken(n, steps, i) && steps[i].SetNx? && steps[i].w == w && At(n, steps, i).stored.Some?
  }

  /** Since step `i` the key was rotated away, and no SETNX has stored one again. */
  ghost predicate RotatedAway(n: nat, steps: seq<Step>, i: nat, k: nat)
  {
    exists j: nat :: i < j < k <= |steps| && steps[j] == Rotate && forall m: nat | j < m < k :: !Wins(n, steps, m)
  }

  /** The second GET of worker `w` at step `k` follows a SETNX it lost and a rotation
      that no winning SETNX followed. */
  ghost predicate Stranded(n: nat, steps: seq<Step>, w: nat, i: nat, k: nat)
  {
    && Loses(n, steps, i, w) && Taken(n, steps, k) && steps[k] == GetAgain(w)
    && RotatedAway(n, steps, i, k)
  }

  lemma {:induction false} PrefixAt(n: nat, steps: seq<Step>, step: Step, i: nat)
    requires i <= |steps|
    ensures At(n, steps + [step], i) == At(n, steps, i)
    ensures i < |steps| ==> Taken(n, steps + [step], i) == Taken(n, steps, i)
    ensures i < |steps| ==> Wins(n, steps + [step], i) == Wins(n, steps, i)
    ensures forall w: nat :: i < |steps| ==> Loses(n, steps + [step], i, w) == Loses(n, steps, i, w)
  {
    assert (steps + [step])[..i] == steps[..i];
  }

  lemma {:induction false} RunSnoc(n: nat, steps: seq<Step>, step: Step)
    ensures At(n, steps + [step], |steps|) == Run(Boot(n), steps)
    ensures var t := Run(Boot(n), steps);
            Run(Boot(n), steps + [step]) == if Enabled(t, step) then After(t, step) else t
  {
    assert (steps + [step])[..|steps|] == steps;
  }

  lemma {:induction false} AwaySnoc(n: nat, steps: seq<Step>, step: Step, i: nat, k: nat)
    requires k <= |steps|
    ensures RotatedAway(n, steps + [step], i, k) == RotatedAway(n, steps, i, k)
  {
    var all := steps + [step];
    forall m: nat | m < |steps| ensures Wins(n, all, m) == Wins(n, steps, m) {
      PrefixAt(n, steps, step, m);
    }
    if RotatedAway(n, steps, i, k) {
      var j: nat :| i < j < k <= |steps| && steps[j] == Rotate && forall m: nat | j < m < k :: !Wins(n, steps, m);
      assert all[j] == Rotate;
    }
    if RotatedAway(n, all, i, k) {
      var j: nat :| i < j < k <= |all| && all[j] == Rotate && forall m: nat | j < m < k :: !Wins(n, all, m);
      assert steps[j] == Rotate;
    }
  }

  lemma {:induction false} AwayLater(n: nat, steps: seq<Step>, step: Step, i: nat)
    requires i < |steps|
    ensures RotatedAway(n, steps + [step], i, |steps| + 1) <==>
            step == Rotate || (RotatedAway(n, steps, i, |steps|) && !Wins(n, steps + [step], |steps|))
  {
    var all := steps + [step];
    AwaySnoc(n, steps, step, i, |steps|);
    if RotatedAway(n, all, i, |steps| + 1) && step != Rotate {
      var j: nat :| i < j < |steps| + 1 && all[j] == Rotate && forall m: nat | j < m < |steps| + 1 :: !Wins(n, all, m);
      assert all[|steps|] == step;
      assert RotatedAway(n, all, i, |steps|);
    }
    if step == Rotate {
      assert all[|steps|] == Rotate;
    } else if RotatedAway(n, all, i, |steps|) && !Wins(n, all, |steps|) {
      var j: nat :| i < j < |steps| && all[j] == Rotate && forall m: nat | j < m < |steps| :: !Wins(n, all, m);
      assert all[j] == Rotate;
    }
  }

  /** After a lost SETNX the stored key is gone exactly if it was rotated away. */
  lemma {:induction false} GoneIff(n: nat, steps: seq<Step>, i: nat, w: nat)
    requires Loses(n, steps, i, w)
    ensures Run(Boot(n), steps).stored.None? <==> RotatedAway(n, steps, i, |steps|)
  {
    var front, step := steps[..|steps| - 1], steps[|steps| - 1];
    assert steps == front + [step];
    RunSnoc(n, front, step);
    if i < |front| {
      PrefixAt(n, front, step, i);
      GoneIff(n, front, i, w);
      AwayLater(n, front, step, i);
    }
  }

  /** A worker between its two commands lost the SETNX at some step. */
  lemma {:induction false} LostSomewhere(n: nat, steps: seq<Step>, w: nat) returns (i: nat)
    requires var t := Run(Boot(n), steps); w < |t.workers| && t.workers[w].phase == Lost
    ensures Loses(n, steps, i, w)
  {
    if steps == [] {
      assert false;
    }
    var front, step := steps[..|steps| - 1], steps[|steps| - 1];
    assert steps == front + [step];
    RunSnoc(n, front, step);
    var t := Run(Boot(n), front);
    if t.workers[w].phase == Lost {
      i := LostSomewhere(n, front, w);
      PrefixAt(n, front, step, i);
    } else {
      i := |front|;
    }
  }

  predicate CrashedAt(s: State, w: nat)
  {
    w < |s.workers| && s.workers[w].phase == Crashed
  }

  ghost predicate Strands(n: nat, steps: seq<Step>, w: nat)
  {
    exists i, k: nat :: Stranded(n, steps, w, i, k)
  }

  /** In every run, a worker's call crashes if and only if a rotation falls between
      its lost SETNX and its second GET and no SETNX wins after that rotation. */
  lemma {:induction false} CrashIff(n: nat, steps: seq<Step>, w: nat)
    ensures CrashedAt(Run(Boot(n), steps), w) <==> Strands(n, steps, w)
  {
    if steps != [] {
      var front, step := steps[..|steps| - 1], steps[|steps| - 1];
      assert steps == front + [step];
      CrashIff(n, front, w);
      StrandsSnoc(n, front, step, w);
      CrashStep(n, front, step, w);
      CrashSnoc(n, front, step, w);
    }
  }

  lemma {:induction false} CrashSnoc(n: nat, front: seq<Step>, step: Step, w: nat)
    ensures var t := Run(Boot(n), front);
            CrashedAt(Run(Boot(n), front + [step]), w) <==>
            CrashedAt(t, w) || (step == GetAgain(w) && Enabled(t, step) && t.stored.None?)
  {
    RunSnoc(n, front, step);
  }

  lemma {:induction false} StrandsSnoc(n: nat, front: seq<Step>, step: Step, w: nat)
    ensures Strands(n, front + [step], w) <==>
            Strands(n, front, w) || exists i: nat :: Stranded(n, front + [step], w, i, |front|)
  {
    forall i: nat, k: nat | k < |front|
      ensures Stranded(n, front + [step], w, i, k) == Stranded(n, front, w, i, k)
    {
      AwaySnoc(n, front, step, i, k);
      PrefixAt(n, front, step, k);
      if i < |front| { PrefixAt(n, front, step, i); }
    }
    if Strands(n, front, w) {
      var i, k: nat :| Stranded(n, front, w, i, k);
      assert Stranded(n, front + [step], w, i, k);
    }
  }

  /** The last step strands a worker exactly if the worker crashes there. */
  lemma {:induction false} CrashStep(n: nat, front: seq<Step>, step: Step, w: nat)
    ensures (exists i: nat :: Stranded(n, front + [step], w, i, |front|)) <==>
            var t := Run(Boot(n), front);
            step == GetAgain(w) && Enabled(t, step) && t.stored.None?
  {
    var all, t := front + [step], Run(Boot(n), front);
    RunSnoc(n, front, step);
    assert all[|front|] == step;
    if i: nat :| Stranded(n, all, w, i, |front|) {
      PrefixAt(n, front, step, i);
      AwaySnoc(n, front, step, i, |front|);
      GoneIff(n, front, i, w);
    }
    if step == GetAgain(w) && Enabled(t, step) && t.stored.None? {
      var i := LostSomewhere(n, front, w);
      PrefixAt(n, front, step, i);
      AwaySnoc(n, front, step, i, |front|);
      GoneIff(n, front, i, w);
      assert Stranded(n, all, w, i, |front|);
    }
  }

  /** Such a run. */
  lemma RotationCanCrash(a: Pem, b: Pem)
    ensures var steps := [Get(0), Get(1), SetNx(0, a), SetNx(1, b), Rotate, GetAgain(1)];
            var t := Run(Boot(2), steps);
            |t.workers| == 2 && t.workers[1].phase == Crashed
  {
    var s0 := Boot(2);
    var p1 := [Get(0)];
    var p2 := p1 + [Get(1)];
    var p3 := p2 + [SetNx(0, a)];
    var p4 := p3 + [SetNx(1, b)];
    var p5 := p4 + [Rotate];
    var p6 := p5 + [GetAgain(1)];
    assert s0.workers == [Worker(Idle, None), Worker(Idle, None)];
    assert p1[..0] == [] && p2[..1] == p1 && p3[..2] == p2 && p4[..3] == p3 && p5[..4] == p4 && p6[..5] == p5;
    assert Run(s0, p2) == State(None, [Worker(Absent, None), Worker(Absent, None)]);
    assert Run(s0, p4) == State(Some(a), [Worker(Got(a), None), Worker(Lost, None)]);
    assert p6 == [Get(0), Get(1), SetNx(0, a), SetNx(1, b), Rotate, GetAgain(1)];
  }

  /** In every run without rotation a call that is not interrupted returns the stored key,
      or the one it brought if there was none, and leaves it stored and cached. */
  lemma {:induction false} CallCompletes(n: nat, steps: seq<Step>, w: nat, newPem: Pem)
    requires Undisturbed(steps) && w < |Run(Boot(n), steps).workers| && Run(Boot(n), steps).workers[w].phase == Idle
    ensures var s := Run(Boot(n), steps);
            var t := Run(Boot(n), steps + [Get(w)] + [SetNx(w, newPem)] + [GetAgain(w)] + [Return(w)]);
            && t.stored == (if s.stored.Some? then s.stored else Some(newPem))
            && t.workers == s.workers[w := Worker(Idle, t.stored)]
  {
    RunSnoc(n, steps, Get(w));
    RunSnoc(n, steps + [Get(w)], SetNx(w, newPem));
    RunSnoc(n, steps + [Get(w)] + [SetNx(w, newPem)], GetAgain(w));
    RunSnoc(n, steps + [Get(w)] + [SetNx(w, newPem)] + [GetAgain(w)], Return(w));
  }

  // ----- spending

  const SPENT_TTL: nat := 1209600

  /** The key in force, and the three digests: SHA-384 for signatures, `token_id` on
      octets and `epoch_id` on keys. */
  datatype Issuer = Issuer(n: nat, e: nat)

  datatype Scheme = Scheme(hash: Hash, ids: Bytes -> string, epochs: Issuer -> string)

  datatype Token = Token(epoch: string, prepared: Bytes, sig: Bytes)

  /** A presentation: the decoded token (none when it is malformed), the issuer key in
      force, and the time. */
  datatype Presented = Presented(token: Option<Token>, key: Issuer, now: nat)

  /** The octets a token id is the digest of. */
  function IdInput(prepared: Bytes, sig: Bytes): Bytes
  {
    prepared + sig
  }

  /** `depauth:spent:<epoch>:<id>`. */
  datatype SpentKey = SpentKey(epoch: string, id: string)

  predicate Valid(s: Scheme, p: Presented)
  {
    && p.token.Some? && p.token.value.epoch == s.epochs(p.key)
    && p.key.n > 0 && Verify(s.hash, p.key.n, p.key.e, p.token.value.prepared, p.token.value.sig)
  }

  function KeyOf(s: Scheme, t: Token): SpentKey
  {
    SpentKey(t.epoch, s.ids(IdInput(t.prepared, t.sig)))
  }

  /** What a presentation means to the spent entries. */
  datatype Entry = Entry(key: SpentKey, valid: bool, now: nat)

  function EntryOf(s: Scheme, p: Presented): Entry
  {
    if p.token.None? then Entry(SpentKey("", ""), false, p.now)
    else Entry(KeyOf(s, p.token.value), Valid(s, p), p.now)
  }

  /** The spent entries with the time at which each expires. */
  class SpentSet {
    var spent: map<SpentKey, nat>

    constructor ()
      ensures spent == map[]
    {
      spent := map[];
    }

    /** `verify_and_consume_token`. */
    method Consume(s: Scheme, p: Presented, spentTtl: nat := SPENT_TTL) returns (ok: bool)
      modifies this
      ensures ok <==> Fresh(old(spent), EntryOf(s, p))
      ensures spent == Spend(old(spent), EntryOf(s, p), spentTtl)
    {
      var valid := Verified(s, p);
      if !valid { return false; }
      ok := SetNx(KeyOf(s, p.token.value), p.now, spentTtl);
    }

    /** `SET key 1 NX EX ttl` */
    method SetNx(key: SpentKey, now: nat, ttl: nat) returns (ok: bool)
      modifies this
      ensures ok <==> !(key in old(spent) && now < old(spent)[key])
      ensures spent == if ok then old(spent)[key := now + ttl] else old(spent)
    {
      ok := !(key in spent && now < spent[key]);
      if ok { spent := spent[key := now + ttl]; }
    }
  }

  /** The checks before the SETNX: well formed, of this epoch, and signed. */
  method Verified(s: Scheme, p: Presented) returns (ok: bool)
    ensures ok <==> Valid(s, p)
  {
    if p.token.None? { return false; }
    if p.token.value.epoch != s.epochs(p.key) { return false; }
    if p.key.n == 0 { return false; }
    return Verify(s.hash, p.key.n, p.key.e, p.token.value.prepared, p.token.value.sig);
  }

  predicate Fresh(spent: map<SpentKey, nat>, e: Entry)
  {
    e.valid && !(e.key in spent && e.now < spent[e.key])
  }

  function Spend(spent: map<SpentKey, nat>, e: Entry, ttl: nat): map<SpentKey, nat>
  {
    if Fresh(spent, e) then spent[e.key := e.now + ttl] else spent
  }

  function Ledger(es: seq<Entry>, ttl: nat): map<SpentKey, nat>
  {
    if es == [] then map[] else Spend(Ledger(es[..|es| - 1], ttl), es[|es| - 1], ttl)
  }

  predicate Accepted(es: seq<Entry>, ttl: nat, i: nat)
    requires i < |es|
  {
    Fresh(Ledger(es[..i], ttl), es[i])
  }

  predicate InOrder(es: seq<Entry>)
  {
    forall i, j | 0 <= i <= j < |es| :: es[i].now <= es[j].now
  }

  /** Entry `i` was accepted and still blocks its key at time `now`. */
  predicate Blocks(es: seq<Entry>, ttl: nat, i: nat, key: SpentKey, now: nat)
  {
    i < |es| && es[i].key == key && Accepted(es, ttl, i) && now < es[i].now + ttl
  }

  lemma {:induction false} LedgerIff(es: seq<Entry>, ttl: nat, n: nat, key: SpentKey, now: nat)
    requires InOrder(es) && n <= |es| && forall i | 0 <= i < n :: es[i].now <= now
    ensures var l := Ledger(es[..n], ttl);
            key in l && now < l[key] <==> exists i: nat :: i < n && Blocks(es, ttl, i, key, now)
    decreases n
  {
    if n > 0 {
      LedgerIff(es, ttl, n - 1, key, now);
      var l, l' := Ledger(es[..n - 1], ttl), Ledger(es[..n], ttl);
      assert es[..n][..n - 1] == es[..n - 1];
      assert l' == Spend(l, es[n - 1], ttl);
      if Blocks(es, ttl, n - 1, key, now) {
        assert key in l' && now < l'[key];
      } else if key in l' && now < l'[key] {
        if !(key in l && now < l[key]) {
          assert Blocks(es, ttl, n - 1, key, now);
        }
      }
    }
  }

  /** A valid entry is accepted if and only if its key was not accepted during the
      last `ttl` seconds: at most once within the TTL, and again after it. */
  lemma AcceptedIff(es: seq<Entry>, ttl: nat, j: nat)
    requires InOrder(es) && j < |es|
    ensures Accepted(es, ttl, j) <==>
            es[j].valid && !exists i: nat :: i < j && Blocks(es, ttl, i, es[j].key, es[j].now)
  {
    LedgerIff(es, ttl, j, es[j].key, es[j].now);
  }

  // ----- tokens

  function Entries(s: Scheme, ps: seq<Presented>): (es: seq<Entry>)
    ensures |es| == |ps| && forall i | 0 <= i < |ps| :: es[i] == EntryOf(s, ps[i])
  {
    if ps == [] then [] else Entries(s, ps[..|ps| - 1]) + [EntryOf(s, ps[|ps| - 1])]
  }

  /** Presentation `i` is accepted, after all those before it. */
  predicate Accepts(s: Scheme, ps: seq<Presented>, ttl: nat, i: nat)
    requires i < |ps|
  {
    Accepted(Entries(s, ps), ttl, i)
  }

  predicate Nondecreasing(ps: seq<Presented>)
  {
    forall i, j | 0 <= i <= j < |ps| :: ps[i].now <= ps[j].now
  }

  /** On the presentations at hand neither `token_id` nor `epoch_id` collides. */
  predicate NoCollision(s: Scheme, p: Presented, q: Presented)
  {
    && (s.epochs(p.key) == s.epochs(q.key) ==> p.key == q.key)
    && (p.token.Some? && q.token.Some? ==>
          var a := IdInput(p.token.value.prepared, p.token.value.sig);
          var b := IdInput(q.token.value.prepared, q.token.value.sig);
          s.ids(a) == s.ids(b) ==> a == b)
  }

  predicate NoCollisions(s: Scheme, ps: seq<Presented>)
  {
    forall i, j | 0 <= i < |ps| && 0 <= j < |ps| :: NoCollision(s, ps[i], ps[j])
  }

  /** Tokens that verify under one key never share the input of their ids. */
  lemma IdInputInjective(hash: Hash, n: nat, e: nat, p1: Bytes, s1: Bytes, p2: Bytes, s2: Bytes)
    requires n > 0 && Verify(hash, n, e, p1, s1) && Verify(hash, n, e, p2, s2)
    requires IdInput(p1, s1) == IdInput(p2, s2)
    ensures p1 == p2 && s1 == s2
  {
    var a := IdInput(p1, s1);
    var cut := |a| - ModLen(n);
    assert p1 == a[..cut] && s1 == a[cut..];
    assert p2 == a[..cut] && s2 == a[cut..];
  }

  /** Valid presentations share a spent key exactly if they are of one token. */
  lemma SameKeyIff(s: Scheme, p: Presented, q: Presented)
    requires NoCollision(s, p, q) && Valid(s, p) && Valid(s, q)
    ensures KeyOf(s, p.token.value) == KeyOf(s, q.token.value) <==> p.token == q.token
  {
    var a, b := p.token.value, q.token.value;
    if KeyOf(s, a) == KeyOf(s, b) {
      IdInputInjective(s.hash, p.key.n, p.key.e, a.prepared, a.sig, b.prepared, b.sig);
    }
  }

  lemma {:induction false} SameKeys(s: Scheme, ps: seq<Presented>, j: nat)
    requires NoCollisions(s, ps) && j < |ps| && Valid(s, ps[j])
    ensures var es := Entries(s, ps);
            forall i: nat | i < j && es[i].valid :: es[i].key == es[j].key <==> ps[i].token == ps[j].token
  {
    var es := Entries(s, ps);
    forall i: nat | i < j && es[i].valid ensures es[i].key == es[j].key <==> ps[i].token == ps[j].token {
      SameKeyIff(s, ps[i], ps[j]);
    }
  }

  lemma {:induction false} EntriesTell(s: Scheme, ps: seq<Presented>, j: nat)
    requires j < |ps|
    ensures var es := Entries(s, ps);
            (es[j].valid <==> Valid(s, ps[j])) && forall i | 0 <= i < |ps| :: es[i].now == ps[i].now
  {}

  lemma AcceptedAmong(es: seq<Entry>, ttl: nat, j: nat, same: set<nat>)
    requires InOrder(es) && j < |es| && forall i | i in same :: i < j
    requires es[j].valid ==> forall i: nat | i < j && es[i].valid :: es[i].key == es[j].key <==> i in same
    ensures Accepted(es, ttl, j) <==>
            es[j].valid && forall i | i in same && Accepted(es, ttl, i) :: es[j].now >= es[i].now + ttl
  {
    AcceptedIff(es, ttl, j);
    if es[j].valid {
      forall i: nat | i < j
        ensures Blocks(es, ttl, i, es[j].key, es[j].now) <==>
                i in same && Accepted(es, ttl, i) && es[j].now < es[i].now + ttl
      {}
    }
  }

  /** In terms of the tokens presented, when valid entries share a key as tokens do. */
  lemma AcceptedOf(es: seq<Entry>, ps: seq<Presented>, ttl: nat, j: nat)
    requires Nondecreasing(ps) && |es| == |ps| && j < |ps| && forall i | 0 <= i < |ps| :: es[i].now == ps[i].now
    requires es[j].valid ==>
               forall i: nat | i < j && es[i].valid :: es[i].key == es[j].key <==> ps[i].token == ps[j].token
    ensures Accepted(es, ttl, j) <==>
            && es[j].valid
            && forall i: nat | i < j && ps[i].token == ps[j].token && Accepted(es, ttl, i) ::
                 ps[j].now >= ps[i].now + ttl
  {
    AcceptedAmong(es, ttl, j, set i: nat | i < j && ps[i].token == ps[j].token);
  }

  /** A token is accepted if and only if it is valid under the key in force and that
      very token was not accepted during the last `ttl` seconds, whatever other
      tokens were presented. */
  lemma {:induction false} TokenAcceptedIff(s: Scheme, ps: seq<Presented>, ttl: nat, j: nat)
    requires Nondecreasing(ps) && NoCollisions(s, ps) && j < |ps|
    ensures Accepts(s, ps, ttl, j) <==>
            && Valid(s, ps[j])
            && forall i: nat | i < j && ps[i].token == ps[j].token && Accepts(s, ps, ttl, i) ::
                 ps[j].now >= ps[i].now + ttl
  {
    EntriesTell(s, ps, j);
    if Valid(s, ps[j]) { SameKeys(s, ps, j); }
    AcceptedOf(Entries(s, ps), ps, ttl, j);
  }

  /** Two acceptances of one token are at least the TTL apart, collisions or not. */
  lemma {:induction false} SpentOnceWithinTtl(s: Scheme, ps: seq<Presented>, ttl: nat, i: nat, j: nat)
    requires Nondecreasing(ps) && i < j < |ps| && ps[i].token == ps[j].token
    requires Accepts(s, ps, ttl, i) && Accepts(s, ps, ttl, j)
    ensures ps[j].now >= ps[i].now + ttl
  {
    var es := Entries(s, ps);
    AcceptedIff(es, ttl, j);
    assert !Blocks(es, ttl, i, es[j].key, es[j].now);
  }

  /** No SHA-384 collision lets a signature pass for both messages. */
  ghost predicate Binding(hash: Hash, a: Bytes, b: Bytes)
  {
    && !Collide(hash, a, b)
    && forall salt: Bytes | |salt| == SALT_LEN ::
         !Collide(hash, EIGHT_ZEROS + Digest(hash, a) + salt, EIGHT_ZEROS + Digest(hash, b) + salt)
  }

  /** One signature spends once: presented again within the TTL under the same key it is
      refused, whatever message comes with it. */
  lemma {:induction false} SignatureSpendsOnce(s: Scheme, ps: seq<Presented>, ttl: nat, i: nat, j: nat)
    requires Nondecreasing(ps) && i < j < |ps| && Accepts(s, ps, ttl, i) && Accepts(s, ps, ttl, j)
    requires ps[i].key == ps[j].key && ps[i].token.Some? && ps[j].token.Some?
    requires ps[i].token.value.sig == ps[j].token.value.sig
    requires Binding(s.hash, ps[i].token.value.prepared, ps[j].token.value.prepared)
    ensures ps[i].token == ps[j].token && ps[j].now >= ps[i].now + ttl
  {
    EntriesTell(s, ps, i);
    EntriesTell(s, ps, j);
    AcceptedIsValid(s, ps, ttl, i);
    AcceptedIsValid(s, ps, ttl, j);
    SameMessage(s, ps[i], ps[j]);
    SpentOnceWithinTtl(s, ps, ttl, i, j);
  }

  lemma {:induction false} AcceptedIsValid(s: Scheme, ps: seq<Presented>, ttl: nat, i: nat)
    requires i < |ps| && Accepts(s, ps, ttl, i)
    ensures Valid(s, ps[i])
  {
    EntriesTell(s, ps, i);
  }

  lemma SameMessage(s: Scheme, p: Presented, q: Presented)
    requires Valid(s, p) && Valid(s, q) && p.key == q.key && p.token.value.sig == q.token.value.sig
    requires Binding(s.hash, p.token.value.prepared, q.token.value.prepared)
    ensures p.token == q.token
  {
    var a, b := p.token.value, q.token.value;
    if a.prepared != b.prepared {
      var salt := SignatureBinds(s.hash, p.key.n, p.key.e, a.prepared, b.prepared, a.sig);
      assert false;
    }
  }

  // ----- issuing

  datatype Reason = StaleEpoch | BadBase64 | LowPow | Malformed

  datatype Answer = Signed(sig: Bytes) | Denied(why: Reason)

  /** A request to sign: the epoch it names, the blinded value in base64, and the
      nonce of its proof of work. */
  datatype SignRequest = SignRequest(epoch: string, blinded: string, nonce: string)

  /** The text whose digest is the work of a request. */
  function WorkText(q: SignRequest): string
  {
    q.epoch + ":" + q.blinded + ":" + q.nonce
  }

  /** The digest, read as an integer, has enough leading zero bits. */
  predicate Worked(digest: Bytes, bits: int)
  {
    bits <= 0 || (bits <= 8 * |digest| && Os2ip(digest) < Pow(2, 8 * |digest| - bits))
  }

  /** `sign_blinded` under the current key, whose epoch id is `epoch`. */
  method SignBlinded(sha256: seq<char> -> Bytes, decode: string -> Option<Bytes>, k: PrivateKey, epoch: string,
                     q: SignRequest, bits: int) returns (a: Answer)
    requires WellFormed(k) && k.n > 0
    ensures a.Signed? <==> && q.epoch == epoch && decode(q.blinded).Some? && Os2ip(decode(q.blinded).value) < k.n
                           && Worked(sha256(q.epoch + ":" + q.blinded + ":" + q.nonce), bits)
    ensures a.Signed? ==>
              a.sig == LowOctets(Pow(Os2ip(decode(q.blinded).value), k.d) % k.n, ModLen(k.n))
    ensures a.Denied? ==>
              a.why == if q.epoch != epoch then StaleEpoch
                       else if decode(q.blinded).None? then BadBase64
                       else if !Worked(sha256(WorkText(q)), bits) then LowPow else Malformed
  {
    if q.epoch != epoch { return Denied(StaleEpoch); }
    var blinded := decode(q.blinded);
    if blinded.None? { return Denied(BadBase64); }
    var solved := VerifyPow(sha256, q.epoch + ":" + q.blinded, q.nonce, bits);
    if !solved { return Denied(LowPow); }
    BlindSignIsTextbook(blinded.value, k);
    var r := BlindSign(blinded.value, k);
    if r.Err? { return Denied(Malformed); }
    return Signed(r.value);
  }

  /** The second request reads a later ':' as the end of its blinded text. */
  predicate Shifted(p: SignRequest, q: SignRequest, mid: string)
  {
    q.blinded == p.blinded + ":" + mid && p.nonce == mid + ":" + q.nonce
  }

  lemma Suffix(x: string, a: string, b: string)
    requires x + a == x + b
    ensures a == b
  {
    assert a == (x + a)[|x|..] && b == (x + b)[|x|..];
  }

  lemma ShorterShifts(p: SignRequest, q: SignRequest) returns (mid: string)
    requires p.blinded + ":" + p.nonce == q.blinded + ":" + q.nonce && |p.blinded| < |q.blinded|
    ensures Shifted(p, q, mid)
  {
    var text, i, j := p.blinded + ":" + p.nonce, |p.blinded|, |q.blinded|;
    assert text[..j] == q.blinded && text[j..j + 1] == ":" && text[j + 1..] == q.nonce;
    assert text[..i] == p.blinded && text[i..i + 1] == ":" && text[i + 1..] == p.nonce;
    mid := text[i + 1..j];
    assert text[..j] == text[..i] + text[i..i + 1] + mid;
    assert text[i + 1..] == mid + text[j..j + 1] + text[j + 1..];
  }

  /** One solve is one request, up to where the blinded text ends: two requests of one
      epoch hash the same text if and only if they are equal, or the text of one
      continues past a ':' that separates the other's. */
  lemma {:induction false} SameWorkIff(p: SignRequest, q: SignRequest)
    requires p.epoch == q.epoch
    ensures WorkText(p) == WorkText(q) <==>
            p == q || exists mid: string :: Shifted(p, q, mid) || Shifted(q, p, mid)
  {
    if WorkText(p) == WorkText(q) {
      var a, b := p.blinded + ":" + p.nonce, q.blinded + ":" + q.nonce;
      assert WorkText(p) == (p.epoch + ":") + a && WorkText(q) == (p.epoch + ":") + b;
      Suffix(p.epoch + ":", a, b);
      if |p.blinded| < |q.blinded| {
        var mid := ShorterShifts(p, q);
      } else if |q.blinded| < |p.blinded| {
        var mid := ShorterShifts(q, p);
      } else {
        assert p.blinded == a[..|p.blinded|] && q.blinded == b[..|p.blinded|];
        assert p.nonce == a[|p.blinded| + 1..] && q.nonce == b[|p.blinded| + 1..];
      }
    }
    forall mid: string | Shifted(p, q, mid) || Shifted(q, p, mid) ensures WorkText(p) == WorkText(q) {
      if Shifted(p, q, mid) { ShiftedSame(p, q, mid); } else { ShiftedSame(q, p, mid); }
    }
  }

  lemma ShiftedSame(p: SignRequest, q: SignRequest, mid: string)
    requires p.epoch == q.epoch && Shifted(p, q, mid)
    ensures WorkText(p) == WorkText(q)
  {}

  /** Base64 has no ':'. Where the blinded texts have none, work that hashes alike under a
      SHA-256 that does not collide on the two texts is work for the same request. */
  lemma {:induction false} OneSolveOneRequest(sha256: seq<char> -> Bytes, p: SignRequest, q: SignRequest)
    requires p.epoch == q.epoch && ':' !in p.blinded && ':' !in q.blinded
    requires sha256(WorkText(p)) == sha256(WorkText(q)) ==> WorkText(p) == WorkText(q)
    requires sha256(p.epoch + ":" + p.blinded + ":" + p.nonce) == sha256(q.epoch + ":" + q.blinded + ":" + q.nonce)
    ensures p == q
  {
    SameWorkIff(p, q);
    forall mid: string ensures !Shifted(p, q, mid) && !Shifted(q, p, mid) {
      NoShift(p, q, mid);
      NoShift(q, p, mid);
    }
  }

  lemma NoShift(p: SignRequest, q: SignRequest, mid: string)
    requires ':' !in q.blinded
    ensures !Shifted(p, q, mid)
  {
    assert (p.blinded + ":" + mid)[|p.blinded|] == ':';
  }

  /** The token a client holds after the whole exchange. */
  function Minted(s: Scheme, k: PrivateKey, prepared: Bytes, salt: Bytes, r: nat): Token
    requires k.p > 0 && k.q > 0 && k.n > 1 && LargeEnough(EmBits(k.n)) && |salt| == SALT_LEN && Coprime(r, k.n)
  {
    var sig := Issue(s.hash, k, prepared, salt, r);
    Token(s.epochs(Issuer(k.n, k.e)), prepared, if sig.Ok? then sig.value else [])
  }

  /** From issue to replay: a token minted under the key in force is accepted exactly
      if it was not accepted within the TTL, and once it is, it is refused under
      every key until the TTL is over. */
  lemma {:induction false} MintedTokenSpendsOnce(s: Scheme, k: PrivateKey, prepared: Bytes, salt: Bytes, r: nat,
                                                 ps: seq<Presented>, i: nat)
    requires WellFormed(k) && k.n > 1 && LargeEnough(EmBits(k.n)) && |salt| == SALT_LEN && Coprime(r, k.n)
    requires Nondecreasing(ps) && NoCollisions(s, ps) && i < |ps|
    requires ps[i].key == Issuer(k.n, k.e) && ps[i].token == Some(Minted(s, k, prepared, salt, r))
    ensures Accepts(s, ps, SPENT_TTL, i) <==>
            forall m: nat | m < i && ps[m].token == ps[i].token && Accepts(s, ps, SPENT_TTL, m) ::
              ps[i].now >= ps[m].now + SPENT_TTL
    ensures Accepts(s, ps, SPENT_TTL, i) ==>
            forall j: nat | i < j < |ps| && ps[j].token == ps[i].token && ps[j].now < ps[i].now + SPENT_TTL ::
              !Accepts(s, ps, SPENT_TTL, j)
  {
    IssuanceYieldsDirectSignature(s.hash, k, prepared, salt, r);
    TokenAcceptedIff(s, ps, SPENT_TTL, i);
    forall j: nat | i < j < |ps| && ps[j].token == ps[i].token && ps[j].now < ps[i].now + SPENT_TTL
                    && Accepts(s, ps, SPENT_TTL, i)
      ensures !Accepts(s, ps, SPENT_TTL, j)
    {
      if Accepts(s, ps, SPENT_TTL, j) { SpentOnceWithinTtl(s, ps, SPENT_TTL, i, j); }
    }
  }
}
