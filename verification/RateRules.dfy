/** The rules built on the two windows: limits that fail soft or closed when Redis
    is gone. One Redis and several workers serve every key; whether Redis answers is
    decided per request, by an arbitrary outage pattern. */
module RateRules {
  import opened Basics
  import opened Sets
  import S = SlidingWindow
  import L = LocalWindow

  /** What became of the script call: answered, run although the reply was lost, or
      never run. */
  datatype Reply = Answered | Unheard | Down

  /** One evaluation: the key, whether its rule keeps a local window while Redis is
      gone, when it happened, the reply of Redis, and the worker that asked. */
  datatype Request = Request(key: L.Key, failClosed: bool, now: real, redis: Reply, worker: nat)

  /** What one worker can see: Redis, and its own map of deques. */
  datatype View = View(buckets: map<L.Key, S.Bucket>, hits: L.Hits)

  ghost function Decide(v: View, q: Request): L.Outcome
  {
    var rule := q.key.rule;
    if q.redis.Answered? then
      var d := S.Decision(S.Get(v.buckets, q.key), q.now, rule.window, rule.limit);
      if d.accepted then L.Allowed else L.Refused(d.retryAfter)
    else if !q.failClosed then L.Allowed
    else L.Decision(L.Found(v.hits, v.hits, q.key), q.now, rule)
  }

  ghost function Seen(v: View, q: Request): View
  {
    var rule, b := q.key.rule, S.Get(v.buckets, q.key);
    View(if q.redis.Down? then v.buckets else v.buckets[q.key := S.After(b, q.now, rule.window, rule.limit)],
         if q.redis.Answered? || !q.failClosed then v.hits else L.After(v.hits, q.key, q.now, rule))
  }

  /** `enforce_rate_limit` in one worker. */
  class Limiter {
    const redis: S.Limiter<L.Key>
    const local: L.LocalHits

    constructor (redis: S.Limiter<L.Key>)
      ensures this.redis == redis && fresh(local) && local.hits == map[]
    {
      this.redis := redis;
      local := new L.LocalHits();
    }

    ghost function Value(): View
      reads redis, local
    {
      View(redis.buckets, local.hits)
    }

    method Enforce(q: Request) returns (outcome: L.Outcome)
      modifies redis, local
      ensures outcome == Decide(old(Value()), q)
      ensures Value() == Seen(old(Value()), q)
    {
      var limit, window := q.key.rule.limit, q.key.rule.window;
      if !q.redis.Down? {
        var accepted, retryAfter := redis.Hit(q.key, q.now, window, limit);
        if q.redis.Answered? {
          return if accepted then L.Allowed else L.Refused(retryAfter);
        }
      }
      if !q.failClosed { return L.Allowed; }
      outcome := local.LocalAllow(q.key, limit, window, q.now);
    }
  }

  // ----- every run of the island

  datatype State = State(buckets: map<L.Key, S.Bucket>, locals: map<nat, L.Hits>)

  function Local(s: State, w: nat): L.Hits
  {
    if w in s.locals then s.locals[w] else map[]
  }

  function At(s: State, w: nat): View
  {
    View(s.buckets, Local(s, w))
  }

  ghost function After(s: State, q: Request): State
  {
    var v := Seen(At(s, q.worker), q);
    State(v.buckets, s.locals[q.worker := v.hits])
  }

  ghost function Run(qs: seq<Request>): State
  {
    if qs == [] then State(map[], map[]) else After(Run(qs[..|qs| - 1]), qs[|qs| - 1])
  }

  /** Request `q` is let through after the requests `qs`. */
  ghost predicate Passes(qs: seq<Request>, q: Request)
  {
    Decide(At(Run(qs), q.worker), q).Allowed?
  }

  predicate Nondecreasing(qs: seq<Request>)
  {
    forall i, j | 0 <= i <= j < |qs| :: qs[i].now <= qs[j].now
  }

  /** The request counts in an interval for `key`. */
  predicate Counts(q: Request, key: L.Key, lo: real, hi: real)
  {
    q.key == key && lo <= q.now <= hi
  }

  /** How many requests for `key` were let through in an interval. */
  ghost function AdmittedIn(qs: seq<Request>, key: L.Key, lo: real, hi: real): nat
  {
    if qs == [] then 0
    else
      var front, q := qs[..|qs| - 1], qs[|qs| - 1];
      AdmittedIn(front, key, lo, hi) + if Counts(q, key, lo, hi) && Passes(front, q) then 1 else 0
  }

  /** How many of them Redis let through. */
  ghost function RedisIn(qs: seq<Request>, key: L.Key, lo: real, hi: real): nat
  {
    if qs == [] then 0
    else
      var front, q := qs[..|qs| - 1], qs[|qs| - 1];
      RedisIn(front, key, lo, hi) +
      if Counts(q, key, lo, hi) && q.redis.Answered? && Passes(front, q) then 1 else 0
  }

  // ----- the run of one Redis key, and of one worker's map

  /** The times at which Redis ran the script for `key`. */
  function Evaluated(qs: seq<Request>, key: L.Key): seq<real>
  {
    if qs == [] then []
    else
      var front, q := qs[..|qs| - 1], qs[|qs| - 1];
      if !q.redis.Down? && q.key == key then Evaluated(front, key) + [q.now] else Evaluated(front, key)
  }

  predicate Locally(q: Request)
  {
    !q.redis.Answered? && q.failClosed
  }

  /** The calls that worker `w` made on its local map. */
  function Calls(qs: seq<Request>, w: nat): seq<L.Call>
  {
    if qs == [] then []
    else
      var front, q := qs[..|qs| - 1], qs[|qs| - 1];
      if Locally(q) && q.worker == w then Calls(front, w) + [L.Call(q.key, q.now)] else Calls(front, w)
  }

  lemma {:induction false} EvaluatedInOrder(qs: seq<Request>, key: L.Key, last: real)
    requires Nondecreasing(qs) && forall i | 0 <= i < |qs| :: qs[i].now <= last
    ensures S.Nondecreasing(Evaluated(qs, key))
    ensures forall i | 0 <= i < |Evaluated(qs, key)| :: Evaluated(qs, key)[i] <= last
  {
    if qs != [] { EvaluatedInOrder(qs[..|qs| - 1], key, qs[|qs| - 1].now); }
  }

  lemma {:induction false} CallsInOrder(qs: seq<Request>, w: nat, last: real)
    requires Nondecreasing(qs) && forall i | 0 <= i < |qs| :: qs[i].now <= last
    ensures L.Timely(Calls(qs, w), last)
  {
    if qs != [] {
      var front, q := qs[..|qs| - 1], qs[|qs| - 1];
      CallsInOrder(front, w, q.now);
      assert (Calls(front, w) + [L.Call(q.key, q.now)])[..|Calls(front, w)|] == Calls(front, w);
    }
  }

  lemma {:induction false} BucketIsRun(qs: seq<Request>, key: L.Key)
    ensures S.Get(Run(qs).buckets, key) == S.Run(Evaluated(qs, key), key.rule.window, key.rule.limit)
  {
    if qs != [] {
      var front, q := qs[..|qs| - 1], qs[|qs| - 1];
      BucketIsRun(front, key);
      if !q.redis.Down? && q.key == key {
        assert Evaluated(qs, key)[..|Evaluated(front, key)|] == Evaluated(front, key);
      }
    }
  }

  lemma {:induction false} LocalIsRun(qs: seq<Request>, w: nat)
    ensures Local(Run(qs), w) == L.Run(Calls(qs, w))
  {
    if qs != [] {
      var front, q := qs[..|qs| - 1], qs[|qs| - 1];
      LocalIsRun(front, w);
      L.RunSnoc(Calls(front, w), L.Call(q.key, q.now));
    }
  }

  // ----- who let a request through

  /** Every request comes from one of `n` workers. */
  predicate From(qs: seq<Request>, n: nat)
  {
    forall i | 0 <= i < |qs| :: qs[i].worker < n
  }

  /** The rule of `key` fails closed, or soft, in every request. */
  predicate Uses(qs: seq<Request>, key: L.Key, failClosed: bool)
  {
    forall i | 0 <= i < |qs| && qs[i].key == key :: qs[i].failClosed == failClosed
  }

  function Sum(xs: seq<nat>): nat
  {
    if xs == [] then 0 else Sum(xs[..|xs| - 1]) + xs[|xs| - 1]
  }

  /** How many requests the local window of worker `w` let through in an interval. */
  function WorkerIn(qs: seq<Request>, key: L.Key, w: nat, lo: real, hi: real): nat
  {
    L.AdmitsIn(Calls(qs, w), key, lo, hi)
  }

  function WorkersIn(qs: seq<Request>, key: L.Key, n: nat, lo: real, hi: real): (xs: seq<nat>)
    ensures |xs| == n && forall w | 0 <= w < n :: xs[w] == WorkerIn(qs, key, w, lo, hi)
  {
    if n == 0 then [] else WorkersIn(qs, key, n - 1, lo, hi) + [WorkerIn(qs, key, n - 1, lo, hi)]
  }

  /** One when a local window lets `q` through in the interval for `key`. */
  ghost function LocalOne(front: seq<Request>, q: Request, key: L.Key, lo: real, hi: real): nat
  {
    if Counts(q, key, lo, hi) && Locally(q) && Passes(front, q) then 1 else 0
  }

  lemma {:induction false} WorkerSnoc(front: seq<Request>, q: Request, key: L.Key, w: nat, lo: real, hi: real)
    ensures WorkerIn(front + [q], key, w, lo, hi) ==
            WorkerIn(front, key, w, lo, hi) + if q.worker == w then LocalOne(front, q, key, lo, hi) else 0
  {
    var c, calls := L.Call(q.key, q.now), Calls(front, w);
    assert (front + [q])[..|front|] == front;
    assert (calls + [c])[..|calls|] == calls;
    LocalIsRun(front, w);
  }

  lemma {:induction false} SumGrows(a: seq<nat>, b: seq<nat>, v: nat, x: nat)
    requires |a| == |b| && forall w | 0 <= w < |a| :: b[w] == a[w] + if v == w then x else 0
    ensures Sum(b) == Sum(a) + if v < |a| then x else 0
  {
    if a != [] { SumGrows(a[..|a| - 1], b[..|b| - 1], v, x); }
  }

  lemma {:induction false} WorkersSnoc(front: seq<Request>, q: Request, key: L.Key, n: nat, lo: real, hi: real)
    requires q.worker < n
    ensures Sum(WorkersIn(front + [q], key, n, lo, hi)) ==
            Sum(WorkersIn(front, key, n, lo, hi)) + LocalOne(front, q, key, lo, hi)
  {
    forall w: nat | w < n
      ensures WorkerIn(front + [q], key, w, lo, hi) ==
              WorkerIn(front, key, w, lo, hi) + if q.worker == w then LocalOne(front, q, key, lo, hi) else 0
    {
      WorkerSnoc(front, q, key, w, lo, hi);
    }
    SumGrows(WorkersIn(front, key, n, lo, hi), WorkersIn(front + [q], key, n, lo, hi), q.worker,
             LocalOne(front, q, key, lo, hi));
  }

  lemma {:induction false} CountSnoc(front: seq<Request>, q: Request, key: L.Key, lo: real, hi: real)
    ensures AdmittedIn(front + [q], key, lo, hi) ==
            AdmittedIn(front, key, lo, hi) + if Counts(q, key, lo, hi) && Passes(front, q) then 1 else 0
    ensures RedisIn(front + [q], key, lo, hi) ==
            RedisIn(front, key, lo, hi) +
            if Counts(q, key, lo, hi) && q.redis.Answered? && Passes(front, q) then 1 else 0
  {
    assert (front + [q])[..|front|] == front;
  }

  lemma {:induction false} NoWorkers(key: L.Key, n: nat, lo: real, hi: real)
    ensures Sum(WorkersIn([], key, n, lo, hi)) == 0
  {
    if n > 0 {
      NoWorkers(key, n - 1, lo, hi);
      assert WorkersIn([], key, n, lo, hi)[..n - 1] == WorkersIn([], key, n - 1, lo, hi);
    }
  }

  /** Every admission under a rule that fails closed came from Redis or from the
      local window of one worker. */
  lemma {:induction false} AdmittedSplit(qs: seq<Request>, key: L.Key, n: nat, lo: real, hi: real)
    requires From(qs, n) && Uses(qs, key, true)
    ensures AdmittedIn(qs, key, lo, hi) == RedisIn(qs, key, lo, hi) + Sum(WorkersIn(qs, key, n, lo, hi))
  {
    if qs == [] {
      NoWorkers(key, n, lo, hi);
    } else {
      var front, q := qs[..|qs| - 1], qs[|qs| - 1];
      assert qs == front + [q];
      AdmittedSplit(front, key, n, lo, hi);
      CountSnoc(front, q, key, lo, hi);
      WorkersSnoc(front, q, key, n, lo, hi);
    }
  }

  // ----- the bound

  /** How many limits' worth a worker can let through between `lo` and `hi`: one, and
      one more for every time it clears its map. */
  function Share(qs: seq<Request>, w: nat, lo: real, hi: real): nat
  {
    1 + L.ClearsIn(Calls(qs, w), lo, hi)
  }

  function Shares(qs: seq<Request>, n: nat, lo: real, hi: real): (shares: seq<nat>)
    ensures |shares| == n && forall w | 0 <= w < n :: shares[w] == Share(qs, w, lo, hi)
  {
    if n == 0 then [] else Shares(qs, n - 1, lo, hi) + [Share(qs, n - 1, lo, hi)]
  }

  lemma {:induction false} SumBound(xs: seq<nat>, shares: seq<nat>, cap: nat)
    requires |xs| == |shares| && forall w | 0 <= w < |xs| :: xs[w] <= shares[w] * cap
    ensures Sum(xs) <= Sum(shares) * cap
  {
    if xs != [] {
      var n := |xs| - 1;
      SumBound(xs[..n], shares[..n], cap);
      Distribute(Sum(shares[..n]), shares[n], cap);
    }
  }

  lemma Distribute(a: nat, b: nat, cap: nat)
    ensures (a + b) * cap == a * cap + b * cap
  {}

  lemma {:induction false} WorkersBound(qs: seq<Request>, key: L.Key, n: nat, lo: real, hi: real)
    requires Nondecreasing(qs) && hi - lo <= key.rule.window as real
    ensures Sum(WorkersIn(qs, key, n, lo, hi)) <= Sum(Shares(qs, n, lo, hi)) * Cap(key.rule.limit)
  {
    forall w: nat | w < n ensures WorkerIn(qs, key, w, lo, hi) <= Share(qs, w, lo, hi) * Cap(key.rule.limit) {
      WorkerBound(qs, key, w, lo, hi);
    }
    SumBound(WorkersIn(qs, key, n, lo, hi), Shares(qs, n, lo, hi), Cap(key.rule.limit));
  }

  lemma {:induction false} WorkerBound(qs: seq<Request>, key: L.Key, w: nat, lo: real, hi: real)
    requires Nondecreasing(qs) && hi - lo <= key.rule.window as real
    ensures WorkerIn(qs, key, w, lo, hi) <= Share(qs, w, lo, hi) * Cap(key.rule.limit)
  {
    var last := if qs == [] then 0.0 else qs[|qs| - 1].now;
    CallsInOrder(qs, w, last);
    L.TimelyNondecreasing(Calls(qs, w), last);
    L.ClearedBound(Calls(qs, w), key, lo, hi);
  }

  /** Redis counts a request only when its timestamp is new. It counts every one when
      the limit is at most one or the times at which it runs the script differ. */
  predicate Fair(qs: seq<Request>, key: L.Key)
  {
    key.rule.limit <= 1 || S.Rising(Evaluated(qs, key))
  }

  lemma {:induction false} RedisAccepts(qs: seq<Request>, key: L.Key, lo: real, hi: real)
    ensures RedisIn(qs, key, lo, hi) <= S.AcceptedIn(Evaluated(qs, key), key.rule.window, key.rule.limit, lo, hi)
  {
    if qs != [] {
      var front, q := qs[..|qs| - 1], qs[|qs| - 1];
      RedisAccepts(front, key, lo, hi);
      BucketIsRun(front, key);
      AcceptedSnoc(Evaluated(front, key), q.now, key, lo, hi);
    }
  }

  lemma {:induction false} AcceptedSnoc(times: seq<real>, now: real, key: L.Key, lo: real, hi: real)
    ensures var window, limit := key.rule.window, key.rule.limit;
            S.AcceptedIn(times + [now], window, limit, lo, hi) ==
            S.AcceptedIn(times, window, limit, lo, hi) +
            if S.Decision(S.Run(times, window, limit), now, window, limit).accepted && lo <= now <= hi then 1 else 0
  {
    assert (times + [now])[..|times|] == times;
  }

  /** A rule that fails closed lets through, in any interval shorter than its window
      and under any outage pattern, beside what Redis lets through at most its limit
      once for each worker and once more for each time a worker clears its map
      meanwhile. Redis lets through at most the limit, provided it counts fairly. */
  lemma {:induction false} FailClosedBound(qs: seq<Request>, key: L.Key, n: nat, lo: real, hi: real)
    requires Nondecreasing(qs) && From(qs, n) && Uses(qs, key, true) && hi - lo < key.rule.window as real
    ensures AdmittedIn(qs, key, lo, hi) <=
            RedisIn(qs, key, lo, hi) + Sum(Shares(qs, n, lo, hi)) * Cap(key.rule.limit)
    ensures Fair(qs, key) ==> RedisIn(qs, key, lo, hi) <= Cap(key.rule.limit)
  {
    AdmittedSplit(qs, key, n, lo, hi);
    WorkersBound(qs, key, n, lo, hi);
    if Fair(qs, key) {
      EvaluatedInOrder(qs, key, if qs == [] then 0.0 else qs[|qs| - 1].now);
      RedisAccepts(qs, key, lo, hi);
      S.FairBounded(Evaluated(qs, key), key.rule.window, key.rule.limit, lo, hi);
    }
  }

  // ----- a soft rule has no bound

  /** What a run of `n` workers lets through in an interval beside Redis stays within
      the shares of the workers. */
  ghost predicate KeepsShares(qs: seq<Request>, key: L.Key, failClosed: bool, n: nat, lo: real, hi: real)
  {
    Nondecreasing(qs) && From(qs, n) && Uses(qs, key, failClosed) && hi - lo < key.rule.window as real ==>
      AdmittedIn(qs, key, lo, hi) <= RedisIn(qs, key, lo, hi) + Sum(Shares(qs, n, lo, hi)) * Cap(key.rule.limit)
  }

  /** On an island with at least one worker, a rule keeps to its shares under every
      outage pattern if and only if it fails closed: a soft one admits any number
      while Redis is gone. */
  lemma {:induction false} OutageBoundIff(key: L.Key, failClosed: bool, n: nat)
    requires key.rule.window >= 1 && n >= 1
    ensures failClosed <==> forall qs, lo, hi :: KeepsShares(qs, key, failClosed, n, lo, hi)
  {
    if failClosed {
      forall qs, lo, hi ensures KeepsShares(qs, key, true, n, lo, hi) {
        if Nondecreasing(qs) && From(qs, n) && Uses(qs, key, true) && hi - lo < key.rule.window as real {
          FailClosedBound(qs, key, n, lo, hi);
        }
      }
    } else {
      var m := n * Cap(key.rule.limit) + 1;
      var qs := Burst(key, false, Down, m);
      SoftBurst(key, m);
      FewKeysShares(qs, n, {}, INSTANT, INSTANT);
      assert !KeepsShares(qs, key, false, n, INSTANT, INSTANT);
    }
  }

  const INSTANT: real := 1.0

  /** `m` equal requests of one worker at one instant. */
  function Burst(key: L.Key, failClosed: bool, reply: Reply, m: nat): (qs: seq<Request>)
    ensures |qs| == m
    ensures forall i | 0 <= i < m :: qs[i] == Request(key, failClosed, INSTANT, reply, 0)
  {
    if m == 0 then [] else Burst(key, failClosed, reply, m - 1) + [Request(key, failClosed, INSTANT, reply, 0)]
  }

  lemma {:induction false} SoftBurst(key: L.Key, m: nat)
    ensures var qs := Burst(key, false, Down, m);
            AdmittedIn(qs, key, INSTANT, INSTANT) == m && RedisIn(qs, key, INSTANT, INSTANT) == 0
  {
    if m > 0 {
      SoftBurst(key, m - 1);
      CountSnoc(Burst(key, false, Down, m - 1), Request(key, false, INSTANT, Down, 0), key, INSTANT, INSTANT);
    }
  }

  // ----- when no map is ever cleared

  /** The keys that reach a local window come from `keys`. */
  predicate Keyed(qs: seq<Request>, keys: set<L.Key>)
  {
    forall i | 0 <= i < |qs| && qs[i].failClosed :: qs[i].key in keys
  }

  lemma {:induction false} CallsKeyed(qs: seq<Request>, w: nat, keys: set<L.Key>)
    requires Keyed(qs, keys)
    ensures forall i | 0 <= i < |Calls(qs, w)| :: Calls(qs, w)[i].key in keys
  {
    if qs != [] { CallsKeyed(qs[..|qs| - 1], w, keys); }
  }

  lemma {:induction false} AllOnes(xs: seq<nat>)
    requires forall i | 0 <= i < |xs| :: xs[i] == 1
    ensures Sum(xs) == |xs|
  {
    if xs != [] { AllOnes(xs[..|xs| - 1]); }
  }

  lemma {:induction false} FewKeysShares(qs: seq<Request>, n: nat, keys: set<L.Key>, lo: real, hi: real)
    requires Keyed(qs, keys) && |keys| <= L.MAX_KEYS
    ensures Sum(Shares(qs, n, lo, hi)) == n
  {
    forall w: nat | w < n ensures Share(qs, w, lo, hi) == 1 {
      CallsKeyed(qs, w, keys);
      L.FewKeysNeverClear(Calls(qs, w), keys, lo, hi);
    }
    AllOnes(Shares(qs, n, lo, hi));
  }

  // ----- what exceeds the shares

  /** With a limit of two or more Redis accepts any number at one instant. */
  lemma {:induction false} InstantBurst(key: L.Key, m: nat)
    requires key.rule.limit >= 2 && key.rule.window >= 1
    ensures var qs := Burst(key, true, Answered, m);
            AdmittedIn(qs, key, INSTANT, INSTANT) == m && Evaluated(qs, key) == S.Repeated(m, INSTANT)
  {
    if m > 0 {
      InstantBurst(key, m - 1);
      var front, q := Burst(key, true, Answered, m - 1), Request(key, true, INSTANT, Answered, 0);
      CountSnoc(front, q, key, INSTANT, INSTANT);
      BucketIsRun(front, key);
      S.SameInstantUnbounded(m - 1, INSTANT, key.rule.window, key.rule.limit);
      S.RepeatAccepted(S.Get(Run(front).buckets, key), INSTANT, key.rule.window, key.rule.limit);
      assert Burst(key, true, Answered, m)[..m - 1] == front;
    }
  }

  /** A request that finds Redis gone, on the first worker. */
  function Ask(key: L.Key): Request
  {
    Request(key, true, INSTANT, Down, 0)
  }

  lemma {:induction false} RunSnoc(qs: seq<Request>, q: Request)
    ensures Run(qs + [q]) == After(Run(qs), q)
  {
    assert (qs + [q])[..|qs|] == qs;
  }

  /** The keys that a local call leaves open: a map over its cap loses the others. */
  lemma {:induction false} CallOpens(qs: seq<Request>, k: L.Key, open: set<L.Key>)
    requires Local(Run(qs), 0).Keys == open
    ensures Local(Run(qs + [Ask(k)]), 0).Keys == (if |open| > L.MAX_KEYS then {} else open) + {k}
  {
    RunSnoc(qs, Ask(k));
    assert |open| == |Local(Run(qs), 0)|;
  }

  lemma {:induction false} FreshPasses(qs: seq<Request>, key: L.Key, open: set<L.Key>)
    requires Local(Run(qs), 0).Keys == open && key.rule.limit >= 1 && (|open| > L.MAX_KEYS || key !in open)
    ensures Passes(qs, Ask(key))
  {
    assert |open| == |Local(Run(qs), 0)|;
    L.FreshAllows(Local(Run(qs), 0), key, INSTANT);
  }

  /** Requests that found Redis gone on the first worker, for keys of `keys`. */
  predicate Plan(qs: seq<Request>, keys: set<L.Key>)
  {
    forall i | 0 <= i < |qs| :: qs[i].key in keys && qs[i] == Ask(qs[i].key)
  }

  /** Such a run has left the keys `open` in the first worker's map and let `key`
      through `admitted` times. */
  ghost predicate Stage(qs: seq<Request>, keys: set<L.Key>, key: L.Key, open: set<L.Key>, admitted: nat)
  {
    && Plan(qs, keys) && Local(Run(qs), 0).Keys == open
    && AdmittedIn(qs, key, INSTANT, INSTANT) == admitted
  }

  lemma {:induction false} StageSnoc(qs: seq<Request>, keys: set<L.Key>, key: L.Key, open: set<L.Key>,
                                     admitted: nat, k: L.Key)
    requires k in keys && Stage(qs, keys, key, open, admitted)
    requires k == key ==> key.rule.limit >= 1 && (|open| > L.MAX_KEYS || key !in open)
    ensures Stage(qs + [Ask(k)], keys, key,
                  (if |open| > L.MAX_KEYS then {} else open) + {k}, admitted + if k == key then 1 else 0)
  {
    CountSnoc(qs, Ask(k), key, INSTANT, INSTANT);
    CallOpens(qs, k, open);
    if k == key { FreshPasses(qs, key, open); }
  }

  /** Keys of `keys` that fit beside the ones in `open`. */
  predicate Strangers(others: set<L.Key>, keys: set<L.Key>, open: set<L.Key>)
  {
    others <= keys && open !! others && |open + others| <= L.MAX_KEYS + 1
  }

  lemma OneFewer(others: set<L.Key>, keys: set<L.Key>, open: set<L.Key>, k: L.Key)
    requires Strangers(others, keys, open) && k in others
    ensures var rest := others - {k};
            && Strangers(rest, keys, open) && |others| == |rest| + 1
            && |open + rest| <= L.MAX_KEYS && open + rest + {k} == open + others
  {
    assert open + others - {k} == open + (others - {k});
  }

  /** One call for each of `others` opens them all. */
  lemma {:induction false} OpenAll(qs: seq<Request>, keys: set<L.Key>, key: L.Key, admitted: nat, others: set<L.Key>)
    returns (rs: seq<Request>)
    requires Stage(qs, keys, key, {key}, admitted) && Strangers(others, keys, {key})
    ensures Stage(rs, keys, key, {key} + others, admitted)
    decreases |others|
  {
    if others == {} {
      rs := qs;
      assert {key} + others == {key};
    } else {
      var k := Pick(others);
      OneFewer(others, keys, {key}, k);
      rs := OpenAll(qs, keys, key, admitted, others - {k});
      StageSnoc(rs, keys, key, {key} + (others - {k}), admitted, k);
      rs := rs + [Ask(k)];
    }
  }

  /** A round lets `key` through once and fills the map again, so that the next round
      finds nothing of it. */
  lemma {:induction false} Round(qs: seq<Request>, keys: set<L.Key>, key: L.Key, open: set<L.Key>, admitted: nat,
                                 others: set<L.Key>) returns (rs: seq<Request>)
    requires key in keys && key.rule.limit >= 1 && Strangers(others, keys, {key})
    requires Stage(qs, keys, key, open, admitted) && (|open| > L.MAX_KEYS || open == {})
    ensures Stage(rs, keys, key, {key} + others, admitted + 1)
  {
    StageSnoc(qs, keys, key, open, admitted, key);
    assert (if |open| > L.MAX_KEYS then {} else open) + {key} == {key};
    rs := OpenAll(qs + [Ask(key)], keys, key, admitted + 1, others);
  }

  lemma {:induction false} Rounds(key: L.Key, keys: set<L.Key>, others: set<L.Key>, r: nat) returns (qs: seq<Request>)
    requires key in keys && key.rule.limit >= 1
    requires Strangers(others, keys, {key}) && |{key} + others| > L.MAX_KEYS
    ensures Stage(qs, keys, key, if r == 0 then {} else {key} + others, r)
  {
    if r == 0 {
      qs := [];
      NoStage(keys, key);
    } else {
      qs := Rounds(key, keys, others, r - 1);
      qs := Round(qs, keys, key, if r == 1 then {} else {key} + others, r - 1, others);
    }
  }

  lemma {:induction false} NoStage(keys: set<L.Key>, key: L.Key)
    ensures Stage([], keys, key, {}, 0)
  {}

  /** With one key more than a map may hold, a rule that fails closed admits any
      number of requests while Redis is gone. */
  lemma {:induction false} ClearedRun(key: L.Key, keys: set<L.Key>, r: nat) returns (qs: seq<Request>)
    requires key in keys && |keys| > L.MAX_KEYS && key.rule.limit >= 1
    ensures Plan(qs, keys) && AdmittedIn(qs, key, INSTANT, INSTANT) == r
  {
    var others := SubsetOfSize(keys - {key}, L.MAX_KEYS);
    qs := Rounds(key, keys, others, r);
  }

  /** A run of `n` workers over the local keys `keys`; when `distinct`, Redis runs the
      script for `key` at distinct times. */
  ghost predicate Island(qs: seq<Request>, key: L.Key, keys: set<L.Key>, n: nat, distinct: bool)
  {
    && Nondecreasing(qs) && From(qs, n) && Uses(qs, key, true) && Keyed(qs, keys)
    && (distinct ==> S.Rising(Evaluated(qs, key)))
  }

  /** The rule lets through at most its limit for Redis and once for each worker. */
  ghost predicate KeepsOneEach(qs: seq<Request>, key: L.Key, keys: set<L.Key>, n: nat, distinct: bool, lo: real, hi: real)
  {
    Island(qs, key, keys, n, distinct) && hi - lo < key.rule.window as real ==>
      AdmittedIn(qs, key, lo, hi) <= (1 + n) * Cap(key.rule.limit)
  }

  /** Every request of the rule is counted, and no map is cleared. */
  predicate Countable(limit: int, keys: set<L.Key>, distinct: bool)
  {
    |keys| <= L.MAX_KEYS && (limit <= 1 || distinct)
  }

  /** A rule that fails closed lets through at most its limit once for Redis and once
      for each of `n` workers, in every run over a set of local keys, if and only if a
      map can hold those keys without being cleared, and the limit is at most one or
      Redis never runs the script twice at one instant (or nothing is ever let
      through). */
  lemma {:induction false} UnclearedBoundIff(key: L.Key, keys: set<L.Key>, n: nat, distinct: bool)
    requires key in keys
    ensures n == 0 || key.rule.limit <= 0 || key.rule.window <= 0 || Countable(key.rule.limit, keys, distinct) <==>
            forall qs, lo, hi :: KeepsOneEach(qs, key, keys, n, distinct, lo, hi)
  {
    if n == 0 || key.rule.limit <= 0 || key.rule.window <= 0 || Countable(key.rule.limit, keys, distinct) {
      forall qs, lo, hi ensures KeepsOneEach(qs, key, keys, n, distinct, lo, hi) {
        if Island(qs, key, keys, n, distinct) && hi - lo < key.rule.window as real {
          UnclearedBound(qs, key, keys, n, distinct, lo, hi);
        }
      }
    } else {
      var qs := Excess(key, keys, n, distinct);
      assert !KeepsOneEach(qs, key, keys, n, distinct, INSTANT, INSTANT);
    }
  }

  lemma {:induction false} Excess(key: L.Key, keys: set<L.Key>, n: nat, distinct: bool) returns (qs: seq<Request>)
    requires key in keys && n >= 1 && key.rule.limit >= 1 && key.rule.window >= 1
    requires !Countable(key.rule.limit, keys, distinct)
    ensures Island(qs, key, keys, n, distinct)
    ensures AdmittedIn(qs, key, INSTANT, INSTANT) == (1 + n) * key.rule.limit + 1
  {
    var r := (1 + n) * key.rule.limit + 1;
    if |keys| > L.MAX_KEYS {
      qs := ClearedRun(key, keys, r);
      PlanEvaluates(qs, keys, key);
    } else {
      qs := Burst(key, true, Answered, r);
      InstantBurst(key, r);
    }
  }

  lemma {:induction false} PlanEvaluates(qs: seq<Request>, keys: set<L.Key>, key: L.Key)
    requires Plan(qs, keys)
    ensures Evaluated(qs, key) == []
  {
    if qs != [] {
      PlanEvaluates(qs[..|qs| - 1], keys, key);
      assert qs[|qs| - 1] == Ask(qs[|qs| - 1].key);
    }
  }

  lemma {:induction false} UnclearedBound(qs: seq<Request>, key: L.Key, keys: set<L.Key>, n: nat, distinct: bool,
                                          lo: real, hi: real)
    requires Island(qs, key, keys, n, distinct) && hi - lo < key.rule.window as real
    requires n == 0 || key.rule.limit <= 0 || key.rule.window <= 0 || Countable(key.rule.limit, keys, distinct)
    ensures AdmittedIn(qs, key, lo, hi) <= (1 + n) * Cap(key.rule.limit)
  {
    if n == 0 {
      NobodyAdmits(qs, key, lo, hi);
    } else if key.rule.window <= 0 {
      NoneInEmpty(qs, key, lo, hi);
    } else {
      FailClosedBound(qs, key, n, lo, hi);
      if key.rule.limit > 0 { FewKeysShares(qs, n, keys, lo, hi); }
      OneEach(AdmittedIn(qs, key, lo, hi), RedisIn(qs, key, lo, hi), Sum(Shares(qs, n, lo, hi)), n, Cap(key.rule.limit));
    }
  }

  lemma {:induction false} NobodyAdmits(qs: seq<Request>, key: L.Key, lo: real, hi: real)
    requires From(qs, 0)
    ensures AdmittedIn(qs, key, lo, hi) == 0
  {}

  lemma OneEach(size: nat, redis: nat, sum: nat, n: nat, cap: nat)
    requires size <= redis + sum * cap && redis <= cap && (cap == 0 || sum == n)
    ensures size <= (1 + n) * cap
  {}

  lemma {:induction false} NoneInEmpty(qs: seq<Request>, key: L.Key, lo: real, hi: real)
    requires hi < lo
    ensures AdmittedIn(qs, key, lo, hi) == 0
  {
    if qs != [] { NoneInEmpty(qs[..|qs| - 1], key, lo, hi); }
  }
}
