/** Exactly when the hourly ceiling holds. Redis counts an instant once, however many
    registrations fall on it; the limit of the minute decides whether that shows. */
module CeilingHour {
  import opened Basics
  import Sets
  import opened RateRules
  import opened IslandCeiling
  import S = SlidingWindow
  import L = LocalWindow

  // ----- one registration a minute

  lemma {:induction false} SplitAt(es: seq<Event>, c: Ceiling, lo: real, mid: real, hi: real)
    ensures MintsIn(es, c, lo, hi) <= MintsIn(es, c, lo, mid) + MintsIn(es, c, mid, hi)
  {
    if es != [] { SplitAt(es[..|es| - 1], c, lo, mid, hi); }
  }

  /** The end of `k` intervals of length `d` from `lo` on. */
  function End(lo: real, d: real, k: nat): real
  {
    if k == 0 then lo else End(lo, d, k - 1) + d
  }

  lemma {:induction false} EndIs(lo: real, d: real, k: nat)
    ensures End(lo, d, k) == lo + k as real * d
  {
    if k > 0 {
      EndIs(lo, d, k - 1);
      assert k as real * d == (k - 1) as real * d + d;
    }
  }

  /** `k + 1` intervals of less than a minute each, up to `hi`. */
  lemma {:induction false} Slices(mints: (real, real) -> nat, share: nat, lo: real, hi: real, d: real, k: nat)
    requires forall x, y, z :: mints(x, z) <= mints(x, y) + mints(y, z)
    requires forall x, y | y - x < 60.0 :: mints(x, y) <= share
    requires d < 60.0 && hi == End(lo, d, k + 1)
    ensures mints(lo, hi) <= L.Times(k + 1, share)
    decreases k
  {
    if k > 0 { Slices(mints, share, lo, End(lo, d, k), d, k - 1); }
  }

  lemma {:induction false} OneMinute(es: seq<Event>, c: Ceiling, keys: set<L.Key>, n: nat, lo: real, hi: real)
    requires {MinuteKey(c), HourKey(c)} <= keys && Events(es, c, n, keys) && |keys| <= L.MAX_KEYS
    requires c.perMinute == 1 && hi - lo < 60.0
    ensures MintsIn(es, c, lo, hi) <= 1 + n
  {
    MinuteBound(es, c, keys, n, false, lo, hi);
    OneShare(n);
  }

  lemma OneShare(n: nat)
    ensures (1 + n) * Cap(1) == 1 + n
  {}

  lemma {:induction false} WithinAnHour(mints: (real, real) -> nat, n: nat, limit: int, lo: real, hi: real)
    requires forall x, y, z :: mints(x, z) <= mints(x, y) + mints(y, z)
    requires forall x, y | y - x < 60.0 :: mints(x, y) <= 1 + n
    requires hi - lo < 3600.0 && limit >= 60
    ensures mints(lo, hi) <= (1 + n) * limit
  {
    var d := (hi - lo) / 60.0;
    EndIs(lo, d, 60);
    Slices(mints, 1 + n, lo, hi, d, 59);
    L.TimesIs(60, 1 + n);
    Sixty(n, limit);
  }

  lemma Sixty(n: nat, limit: int)
    requires limit >= 60
    ensures 60 * (1 + n) <= (1 + n) * limit
  {}

  lemma {:induction false} SlowMinuteBound(es: seq<Event>, c: Ceiling, keys: set<L.Key>, n: nat, lo: real, hi: real)
    requires {MinuteKey(c), HourKey(c)} <= keys && Events(es, c, n, keys) && |keys| <= L.MAX_KEYS
    requires c.perMinute == 1 && hi - lo < 3600.0 && c.perHour >= 60
    ensures MintsIn(es, c, lo, hi) <= (1 + n) * c.perHour
  {
    var mints := (x, y) => MintsIn(es, c, x, y);
    forall x, y, z ensures mints(x, z) <= mints(x, y) + mints(y, z) {
      SplitAt(es, c, x, y, z);
    }
    forall x, y | y - x < 60.0 ensures mints(x, y) <= 1 + n {
      OneMinute(es, c, keys, n, x, y);
    }
    WithinAnHour(mints, n, c.perHour, lo, hi);
  }

  // ----- a run that exceeds an hourly limit below sixty

  /** The instants of the run, just over a minute apart. */
  function Instant(i: nat): real
  {
    INSTANT + 61.0 * i as real
  }

  /** No time of the deque is less than 61 seconds before instant `i`. */
  predicate Past(d: seq<real>, i: nat)
  {
    forall k | 0 <= k < |d| :: d[k] <= Instant(i) - 61.0
  }

  /** The worker's map before its attempt at instant `i`: no clear is near, the minute
      is empty again, and the hour holds at most `taken` times. */
  predicate Rested(m: L.Hits, c: Ceiling, i: nat, taken: nat)
  {
    m.Keys <= {MinuteKey(c), HourKey(c)} && Past(L.Get(m, MinuteKey(c)), i) && |L.Get(m, HourKey(c))| <= taken
  }

  /** How many times of the hour a worker has used before instant `i`: Redis counts
      the hour at the first one. */
  function Used(i: nat): nat
  {
    if i == 0 then 0 else i - 1
  }

  predicate RedisRested(s: State, c: Ceiling, i: nat)
  {
    && (forall t | t in S.Get(s.buckets, MinuteKey(c)).hits :: t <= Instant(i) - 61.0)
    && (if i == 0 then S.Get(s.buckets, HourKey(c)).hits <= {Instant(0)} else |S.Get(s.buckets, HourKey(c)).hits| <= i)
  }

  /** At instant `i`, after the attempts of the first `j` workers. */
  predicate Ready(s: State, c: Ceiling, n: nat, i: nat, j: nat)
  {
    && RedisRested(s, c, i)
    && forall w: nat | w < n ::
         if w < j then Rested(Local(s, w), c, i + 1, Used(i + 1)) else Rested(Local(s, w), c, i, Used(i))
  }

  /** A worker's attempt without Redis; at the first instant Redis counts the hour. */
  function ByWorker(i: nat, w: nat): Event
  {
    Attempt(Instant(i), w, Down, if i == 0 then Answered else Down)
  }

  function ByRedis(i: nat): Event
  {
    Attempt(Instant(i), 0, Answered, Answered)
  }

  lemma {:induction false} PastPops(d: seq<real>, i: nat)
    requires Past(d, i)
    ensures L.Popped(d, Instant(i) - 60.0) == []
  {
    if d != [] { PastPops(d[1..], i); }
  }

  lemma {:induction false} PoppedShorter(d: seq<real>, cutoff: real)
    ensures |L.Popped(d, cutoff)| <= |d|
  {
    if d != [] && d[0] < cutoff { PoppedShorter(d[1..], cutoff); }
  }

  lemma TwoKeys(m: L.Hits, a: L.Key, b: L.Key)
    requires m.Keys <= {a, b}
    ensures |m| <= L.MAX_KEYS
  {
    Sets.SubsetSize(m.Keys, {a, b});
    assert |m| == |m.Keys|;
  }

  /** A local evaluation with room in its window lets the request through and touches
      nothing but that deque. */
  lemma LocalStep(s: State, q: Request)
    requires q.redis.Down? && q.failClosed && |Local(s, q.worker)| <= L.MAX_KEYS
    requires |L.Popped(L.Get(Local(s, q.worker), q.key), q.now - q.key.rule.window as real)| < q.key.rule.limit
    ensures Decide(At(s, q.worker), q).Allowed?
    ensures After(s, q).buckets == s.buckets
    ensures forall w: nat | w != q.worker :: Local(After(s, q), w) == Local(s, w)
    ensures var m := Local(s, q.worker);
            Local(After(s, q), q.worker) ==
            m[q.key := L.Popped(L.Get(m, q.key), q.now - q.key.rule.window as real) + [q.now]]
  {}

  lemma RedisStep(s: State, q: Request)
    requires q.redis.Answered?
    requires |S.Swept(S.Get(s.buckets, q.key), q.now, q.key.rule.window)| < q.key.rule.limit
    ensures Decide(At(s, q.worker), q).Allowed?
    ensures S.Get(After(s, q).buckets, q.key).hits == S.Swept(S.Get(s.buckets, q.key), q.now, q.key.rule.window) + {q.now}
    ensures forall k | k != q.key :: S.Get(After(s, q).buckets, k) == S.Get(s.buckets, k)
    ensures forall w: nat :: Local(After(s, q), w) == Local(s, w)
  {}

  predicate Limits(c: Ceiling)
  {
    c.perMinute == 1 && 2 <= c.perHour <= 59
  }

  /** The worker's minute. */
  lemma MinuteTaken(s: State, c: Ceiling, i: nat, w: nat, taken: nat)
    requires Limits(c) && Rested(Local(s, w), c, i, taken)
    ensures var q := Request(MinuteKey(c), true, Instant(i), Down, w);
            && Decide(At(s, w), q).Allowed? && After(s, q).buckets == s.buckets
            && (forall v: nat | v != w :: Local(After(s, q), v) == Local(s, v))
            && Rested(Local(After(s, q), w), c, i + 1, taken)
  {
    var m := Local(s, w);
    TwoKeys(m, MinuteKey(c), HourKey(c));
    PastPops(L.Get(m, MinuteKey(c)), i);
    LocalStep(s, Request(MinuteKey(c), true, Instant(i), Down, w));
  }

  /** The worker's hour. */
  lemma HourTaken(s: State, c: Ceiling, i: nat, w: nat, taken: nat)
    requires Limits(c) && taken < c.perHour && Rested(Local(s, w), c, i + 1, taken)
    ensures var q := Request(HourKey(c), true, Instant(i), Down, w);
            && Decide(At(s, w), q).Allowed? && After(s, q).buckets == s.buckets
            && (forall v: nat | v != w :: Local(After(s, q), v) == Local(s, v))
            && Rested(Local(After(s, q), w), c, i + 1, taken + 1)
  {
    var m := Local(s, w);
    TwoKeys(m, MinuteKey(c), HourKey(c));
    PoppedShorter(L.Get(m, HourKey(c)), Instant(i) - 3600.0);
    LocalStep(s, Request(HourKey(c), true, Instant(i), Down, w));
  }

  /** The first instant in Redis' hour, any number of times. */
  lemma FirstHour(s: State, c: Ceiling, w: nat)
    requires Limits(c) && S.Get(s.buckets, HourKey(c)).hits <= {Instant(0)}
    ensures var q := Request(HourKey(c), true, Instant(0), Answered, w);
            && Decide(At(s, w), q).Allowed? && (forall v: nat :: Local(After(s, q), v) == Local(s, v))
            && S.Get(After(s, q).buckets, MinuteKey(c)) == S.Get(s.buckets, MinuteKey(c))
            && S.Get(After(s, q).buckets, HourKey(c)).hits <= {Instant(0)}
  {
    var q := Request(HourKey(c), true, Instant(0), Answered, w);
    Sets.SubsetSize(S.Swept(S.Get(s.buckets, HourKey(c)), Instant(0), 3600), {Instant(0)});
    RedisStep(s, q);
  }

  /** A later instant in Redis' hour. */
  lemma NextHour(s: State, c: Ceiling, i: nat)
    requires Limits(c) && |S.Get(s.buckets, HourKey(c)).hits| <= i < c.perHour
    ensures var q := Request(HourKey(c), true, Instant(i), Answered, 0);
            && Decide(At(s, 0), q).Allowed? && (forall v: nat :: Local(After(s, q), v) == Local(s, v))
            && S.Get(After(s, q).buckets, MinuteKey(c)) == S.Get(s.buckets, MinuteKey(c))
            && |S.Get(After(s, q).buckets, HourKey(c)).hits| <= i + 1
  {
    var q, b := Request(HourKey(c), true, Instant(i), Answered, 0), S.Get(s.buckets, HourKey(c));
    Sets.SubsetSize(S.Swept(b, Instant(i), 3600), b.hits);
    RedisStep(s, q);
  }

  /** Redis' minute is empty again at every instant. */
  lemma RedisMinute(s: State, c: Ceiling, i: nat)
    requires Limits(c) && RedisRested(s, c, i)
    ensures var q := Request(MinuteKey(c), true, Instant(i), Answered, 0);
            && Decide(At(s, 0), q).Allowed? && (forall v: nat :: Local(After(s, q), v) == Local(s, v))
            && S.Get(After(s, q).buckets, HourKey(c)) == S.Get(s.buckets, HourKey(c))
            && forall t | t in S.Get(After(s, q).buckets, MinuteKey(c)).hits :: t <= Instant(i)
  {
    assert S.Swept(S.Get(s.buckets, MinuteKey(c)), Instant(i), 60) == {};
    RedisStep(s, Request(MinuteKey(c), true, Instant(i), Answered, 0));
  }

  /** The state after an attempt that is let through. */
  ghost function AfterBoth(s: State, e: Event, c: Ceiling): State
  {
    if e.Attempt? then After(After(s, MinuteAsk(e, c)), HourAsk(e, c)) else s
  }

  ghost predicate BothPass(s: State, e: Event, c: Ceiling)
  {
    e.Attempt? && Decide(At(s, e.worker), MinuteAsk(e, c)).Allowed? &&
    Decide(At(After(s, MinuteAsk(e, c)), e.worker), HourAsk(e, c)).Allowed?
  }

  lemma WorkerAttempt(s: State, c: Ceiling, n: nat, i: nat, j: nat)
    requires Limits(c) && j < n && i <= c.perHour && Ready(s, c, n, i, j)
    ensures BothPass(s, ByWorker(i, j), c) && Ready(AfterBoth(s, ByWorker(i, j), c), c, n, i, j + 1)
  {
    var e := ByWorker(i, j);
    MinuteTaken(s, c, i, j, Used(i));
    var t := After(s, MinuteAsk(e, c));
    if i == 0 {
      FirstHour(t, c, j);
    } else {
      HourTaken(t, c, i, j, Used(i));
    }
  }

  lemma RedisAttempt(s: State, c: Ceiling, n: nat, i: nat)
    requires Limits(c) && i < c.perHour && Ready(s, c, n, i, n)
    ensures BothPass(s, ByRedis(i), c) && Ready(AfterBoth(s, ByRedis(i), c), c, n, i + 1, 0)
  {
    var e := ByRedis(i);
    RedisMinute(s, c, i);
    var t := After(s, MinuteAsk(e, c));
    if i == 0 {
      FirstHour(t, c, 0);
      Sets.SubsetSize(S.Get(After(t, HourAsk(e, c)).buckets, HourKey(c)).hits, {Instant(0)});
    } else {
      NextHour(t, c, i);
    }
  }

  // ----- the run, event by event

  /** The state after attempts that are all let through. */
  ghost function Final(es: seq<Event>, c: Ceiling): State
  {
    if es == [] then State(map[], map[]) else AfterBoth(Final(es[..|es| - 1], c), es[|es| - 1], c)
  }

  ghost predicate AllPass(es: seq<Event>, c: Ceiling)
  {
    es != [] ==> AllPass(es[..|es| - 1], c) && BothPass(Final(es[..|es| - 1], c), es[|es| - 1], c)
  }

  lemma {:induction false} PassingAttempt(es: seq<Event>, e: Event, c: Ceiling, lo: real, hi: real)
    requires BothPass(Run(Asked(es, c)), e, c) && lo <= e.now <= hi
    ensures Run(Asked(es + [e], c)) == AfterBoth(Run(Asked(es, c)), e, c)
    ensures MintsIn(es + [e], c, lo, hi) == MintsIn(es, c, lo, hi) + 1
  {
    var qs, m, h := Asked(es, c), MinuteAsk(e, c), HourAsk(e, c);
    MintsSnoc(es, e, c, lo, hi);
    RunSnoc(qs, m);
    RunSnoc(qs + [m], h);
  }

  /** In order, by the workers of the island, no later than `last`. */
  predicate Timeline(es: seq<Event>, n: nat, last: real)
  {
    es != [] ==>
      var e := es[|es| - 1];
      e.Attempt? && e.worker < n && INSTANT <= e.now <= last && Timeline(es[..|es| - 1], n, e.now)
  }

  lemma {:induction false} OneMint(es: seq<Event>, e: Event, rs: seq<Event>, c: Ceiling, hi: real)
    requires rs == es + [e] && Run(Asked(es, c)) == Final(es, c) && MintsIn(es, c, INSTANT, hi) == |es|
    requires BothPass(Final(es, c), e, c) && INSTANT <= e.now <= hi
    ensures Run(Asked(rs, c)) == Final(rs, c) && MintsIn(rs, c, INSTANT, hi) == |rs|
  {
    PassingAttempt(es, e, c, INSTANT, hi);
    assert rs[..|es|] == es;
  }

  lemma {:induction false} NoMint(c: Ceiling, hi: real)
    ensures Run(Asked([], c)) == Final([], c) && MintsIn([], c, INSTANT, hi) == 0
  {
    assert Asked([], c) == [];
  }

  lemma LastOf(es: seq<Event>)
    requires es != []
    ensures es == es[..|es| - 1] + [es[|es| - 1]]
  {}

  /** Attempts that are all let through all mint. */
  lemma {:induction false} AllMint(es: seq<Event>, c: Ceiling, n: nat, last: real, hi: real)
    requires AllPass(es, c) && Timeline(es, n, last) && last <= hi
    ensures Run(Asked(es, c)) == Final(es, c) && MintsIn(es, c, INSTANT, hi) == |es|
  {
    if es == [] {
      NoMint(c, hi);
    } else {
      var front, e := es[..|es| - 1], es[|es| - 1];
      AllMint(front, c, n, e.now, hi);
      LastOf(es);
      OneMint(front, e, es, c, hi);
    }
  }

  lemma {:induction false} TimelineEvents(es: seq<Event>, c: Ceiling, n: nat, keys: set<L.Key>, last: real)
    requires Timeline(es, n, last)
    ensures Events(es, c, n, keys) && forall k | 0 <= k < |es| :: INSTANT <= When(es[k]) <= last
  {
    if es != [] { TimelineEvents(es[..|es| - 1], c, n, keys, es[|es| - 1].now); }
  }

  lemma {:induction false} TimelineSnoc(es: seq<Event>, e: Event, n: nat, now: real, last: real)
    requires Timeline(es, n, now) && e.Attempt? && e.now == now && e.worker < n && INSTANT <= now <= last
    ensures Timeline(es + [e], n, last)
  {
    assert (es + [e])[..|es|] == es;
  }

  /** Attempts up to instant `i`, all let through, after those of the first `j` workers
      there. */
  ghost predicate Hourly(es: seq<Event>, c: Ceiling, n: nat, i: nat, j: nat)
  {
    Timeline(es, n, Instant(i)) && AllPass(es, c) && Ready(Final(es, c), c, n, i, j)
  }

  lemma {:induction false} OneMore(es: seq<Event>, e: Event, c: Ceiling, n: nat, i: nat, i': nat, j': nat)
    requires Timeline(es, n, Instant(i)) && AllPass(es, c) && i <= i'
    requires e.Attempt? && e.now == Instant(i) && e.worker < n && BothPass(Final(es, c), e, c)
    requires Ready(AfterBoth(Final(es, c), e, c), c, n, i', j')
    ensures Hourly(es + [e], c, n, i', j')
  {
    var rs := es + [e];
    assert rs[..|es|] == es;
    assert Final(rs, c) == AfterBoth(Final(es, c), e, c);
    TimelineSnoc(es, e, n, Instant(i), Instant(i'));
  }

  lemma {:induction false} WorkerNext(es: seq<Event>, c: Ceiling, n: nat, i: nat, j: nat)
    requires Limits(c) && j < n && i <= c.perHour && Hourly(es, c, n, i, j)
    ensures Hourly(es + [ByWorker(i, j)], c, n, i, j + 1)
  {
    WorkerAttempt(Final(es, c), c, n, i, j);
    OneMore(es, ByWorker(i, j), c, n, i, i, j + 1);
  }

  lemma {:induction false} RedisNext(es: seq<Event>, c: Ceiling, n: nat, i: nat)
    requires Limits(c) && n >= 1 && i < c.perHour && Hourly(es, c, n, i, n)
    ensures Hourly(es + [ByRedis(i)], c, n, i + 1, 0)
  {
    RedisAttempt(Final(es, c), c, n, i);
    OneMore(es, ByRedis(i), c, n, i, i + 1, 0);
  }

  /** `k` events in a row at row `i` of a grid. */
  lemma {:induction false} AlongRow(can: (seq<Event>, nat, nat) -> bool, event: (nat, nat) -> Event,
                                    es: seq<Event>, i: nat, k: nat) returns (rs: seq<Event>)
    requires can(es, i, 0) && forall rs, j: nat | j < k && can(rs, i, j) :: can(rs + [event(i, j)], i, j + 1)
    ensures can(rs, i, k) && |rs| == |es| + k
  {
    if k == 0 {
      rs := es;
    } else {
      rs := AlongRow(can, event, es, i, k - 1);
      rs := rs + [event(i, k - 1)];
    }
  }

  /** All rows before row `i`, with `n` events and one that ends the row each. */
  lemma {:induction false} Rows(can: (seq<Event>, nat, nat) -> bool, event: (nat, nat) -> Event, last: nat -> Event,
                                n: nat, i: nat) returns (rs: seq<Event>)
    requires can([], 0, 0)
    requires forall rs, k: nat, j: nat | k < i && j < n && can(rs, k, j) :: can(rs + [event(k, j)], k, j + 1)
    requires forall rs, k: nat | k < i && can(rs, k, n) :: can(rs + [last(k)], k + 1, 0)
    ensures can(rs, i, 0) && |rs| == L.Times(i, 1 + n)
  {
    if i == 0 {
      rs := [];
    } else {
      rs := Rows(can, event, last, n, i - 1);
      rs := AlongRow(can, event, rs, i - 1, n);
      rs := rs + [last(i - 1)];
    }
  }

  lemma {:induction false} NothingYet(c: Ceiling, n: nat)
    ensures Hourly([], c, n, 0, 0)
  {
    assert Final([], c) == State(map[], map[]);
  }

  lemma {:induction false} HourlyExceeds(es: seq<Event>, c: Ceiling, n: nat, keys: set<L.Key>)
    requires Limits(c) && Hourly(es, c, n, c.perHour, 1) && |es| == L.Times(c.perHour, 1 + n) + 1
    ensures !KeepsCeiling(es, c, keys, n, HourKey(c), false, INSTANT, Instant(c.perHour))
  {
    TimelineEvents(es, c, n, keys, Instant(c.perHour));
    AllMint(es, c, n, Instant(c.perHour), Instant(c.perHour));
    SharesOf(c.perHour, n);
    TooMany(es, c, n, keys, Instant(c.perHour));
  }

  lemma SharesOf(limit: nat, n: nat)
    ensures L.Times(limit, 1 + n) == (1 + n) * Cap(limit)
  {
    L.TimesIs(limit, 1 + n);
  }

  lemma {:induction false} TooMany(es: seq<Event>, c: Ceiling, n: nat, keys: set<L.Key>, hi: real)
    requires Events(es, c, n, keys) && hi - INSTANT < 3600.0
    requires MintsIn(es, c, INSTANT, hi) > (1 + n) * Cap(c.perHour)
    ensures !KeepsCeiling(es, c, keys, n, HourKey(c), false, INSTANT, hi)
  {}

  lemma {:induction false} WorkersCan(c: Ceiling, n: nat, can: (seq<Event>, nat, nat) -> bool)
    requires Limits(c) && forall rs, i: nat, j: nat :: can(rs, i, j) <==> Hourly(rs, c, n, i, j)
    ensures forall rs, i: nat, j: nat | i <= c.perHour && j < n && can(rs, i, j) ::
              can(rs + [ByWorker(i, j)], i, j + 1)
  {
    forall rs, i: nat, j: nat | i <= c.perHour && j < n && can(rs, i, j)
      ensures can(rs + [ByWorker(i, j)], i, j + 1)
    {
      WorkerNext(rs, c, n, i, j);
    }
  }

  lemma {:induction false} RedisCan(c: Ceiling, n: nat, can: (seq<Event>, nat, nat) -> bool)
    requires Limits(c) && n >= 1 && forall rs, i: nat, j: nat :: can(rs, i, j) <==> Hourly(rs, c, n, i, j)
    ensures forall rs, i: nat | i < c.perHour && can(rs, i, n) :: can(rs + [ByRedis(i)], i + 1, 0)
  {
    forall rs, i: nat | i < c.perHour && can(rs, i, n) ensures can(rs + [ByRedis(i)], i + 1, 0) {
      RedisNext(rs, c, n, i);
    }
  }

  /** With one registration a minute and an hourly limit below sixty, the first instant
      counts once for Redis and `1 + n` times on the island, so that one account more
      than the shares allow is minted within the hour. */
  lemma {:induction false} SlowMinuteExceeds(c: Ceiling, n: nat, keys: set<L.Key>) returns (es: seq<Event>)
    requires Limits(c) && n >= 1
    ensures !KeepsCeiling(es, c, keys, n, HourKey(c), false, INSTANT, Instant(c.perHour))
  {
    var can := (rs: seq<Event>, i: nat, j: nat) => Hourly(rs, c, n, i, j);
    NothingYet(c, n);
    WorkersCan(c, n, can);
    RedisCan(c, n, can);
    es := Rows(can, ByWorker, ByRedis, n, c.perHour);
    es := AlongRow(can, ByWorker, es, c.perHour, 1);
    HourlyExceeds(es, c, n, keys);
  }

  // ----- the exact condition

  /** A local map can hold the keys without being cleared, and Redis counts every
      registration: it counts the hour at distinct times, or one an hour is all there
      is, or one a minute stays below the hour's limit anyway. */
  predicate HourCountable(c: Ceiling, keys: set<L.Key>, distinct: bool)
  {
    |keys| <= L.MAX_KEYS && (distinct || c.perHour <= 1 || (c.perMinute <= 1 && c.perHour >= 60))
  }

  lemma {:induction false} HourBound(es: seq<Event>, c: Ceiling, keys: set<L.Key>, n: nat, distinct: bool,
                                     lo: real, hi: real)
    requires {MinuteKey(c), HourKey(c)} <= keys && Events(es, c, n, keys) && hi - lo < 3600.0
    requires distinct ==> S.Rising(Evaluated(Asked(es, c), HourKey(c)))
    requires n == 0 || c.perMinute <= 0 || c.perHour <= 0 || HourCountable(c, keys, distinct)
    ensures MintsIn(es, c, lo, hi) <= (1 + n) * Cap(c.perHour)
  {
    if c.perMinute <= 0 {
      NeverMinted(es, c, lo, hi);
    } else if n == 0 || c.perHour <= 1 || distinct {
      WindowBound(es, c, keys, n, HourKey(c), distinct, lo, hi);
    } else {
      SlowMinuteBound(es, c, keys, n, lo, hi);
    }
  }

  /** A run that mints too many within less than an hour. */
  lemma {:induction false} HourExcess(c: Ceiling, keys: set<L.Key>, n: nat, distinct: bool)
    returns (es: seq<Event>, hi: real)
    requires n >= 1 && 1 <= c.perMinute && 1 <= c.perHour && !HourCountable(c, keys, distinct)
    ensures !KeepsCeiling(es, c, keys, n, HourKey(c), distinct, INSTANT, hi)
  {
    var r := (1 + n) * c.perHour + 1;
    hi := INSTANT;
    if |keys| > L.MAX_KEYS {
      es := CeilingClearedRun(c, keys, r);
      AtOnceEvents(es, c, n, keys);
    } else if c.perMinute >= 2 {
      es := InstantMints(c, keys, r);
      AtOnceEvents(es, c, n, keys);
    } else {
      es := SlowMinuteExceeds(c, n, keys);
      hi := Instant(c.perHour);
    }
  }

  /** The island mints, within less than an hour and in every run, at most the hour's
      limit once for Redis and once for each worker if and only if a local map can
      hold the keys and Redis counts every registration (or nothing is ever minted). */
  lemma {:induction false} HourBoundIff(c: Ceiling, keys: set<L.Key>, n: nat, distinct: bool)
    requires {MinuteKey(c), HourKey(c)} <= keys
    ensures n == 0 || c.perMinute <= 0 || c.perHour <= 0 || HourCountable(c, keys, distinct) <==>
            forall es, lo, hi :: KeepsCeiling(es, c, keys, n, HourKey(c), distinct, lo, hi)
  {
    if n == 0 || c.perMinute <= 0 || c.perHour <= 0 || HourCountable(c, keys, distinct) {
      forall es, lo, hi ensures KeepsCeiling(es, c, keys, n, HourKey(c), distinct, lo, hi) {
        if && Events(es, c, n, keys) && hi - lo < 3600 as real
           && (distinct ==> S.Rising(Evaluated(Asked(es, c), HourKey(c)))) {
          HourBound(es, c, keys, n, distinct, lo, hi);
        }
      }
    } else {
      var es, hi := HourExcess(c, keys, n, distinct);
    }
  }
}
