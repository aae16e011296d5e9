/** The island-wide ceiling on registrations: a limit over a minute and one over an
    hour, both of which fail closed, beside every other rule of the island. */
module IslandCeiling {
  import opened Basics
  import opened Sets
  import opened RateRules
  import S = SlidingWindow
  import L = LocalWindow

  datatype Ceiling = Ceiling(name: string, perMinute: int, perHour: int)

  function MinuteKey(c: Ceiling): L.Key
  {
    L.Key(L.Rule(c.perMinute, 60), c.name)
  }

  function HourKey(c: Ceiling): L.Key
  {
    L.Key(L.Rule(c.perHour, 3600), c.name)
  }

  /** A registration attempt: one evaluation per window, each with its own luck; or an
      evaluation of some other rule, on the same Redis and the same local maps. */
  datatype Event =
    | Attempt(now: real, worker: nat, minute: Reply, hour: Reply)
    | Other(q: Request)

  function MinuteAsk(e: Event, c: Ceiling): Request
    requires e.Attempt?
  {
    Request(MinuteKey(c), true, e.now, e.minute, e.worker)
  }

  function HourAsk(e: Event, c: Ceiling): Request
    requires e.Attempt?
  {
    Request(HourKey(c), true, e.now, e.hour, e.worker)
  }

  /** The evaluations; the hour is asked only after the minute has said yes. */
  ghost function Asked(es: seq<Event>, c: Ceiling): seq<Request>
  {
    if es == [] then [] else Asking(Asked(es[..|es| - 1], c), es[|es| - 1], c)
  }

  ghost function Asking(qs: seq<Request>, e: Event, c: Ceiling): seq<Request>
  {
    if e.Other? then qs + [e.q]
    else
      var m := MinuteAsk(e, c);
      if Passes(qs, m) then qs + [m] + [HourAsk(e, c)] else qs + [m]
  }

  ghost predicate Minted(qs: seq<Request>, e: Event, c: Ceiling)
  {
    && e.Attempt? && Passes(qs, MinuteAsk(e, c))
    && Passes(qs + [MinuteAsk(e, c)], HourAsk(e, c))
  }

  /** How many accounts the island minted in an interval. */
  ghost function MintsIn(es: seq<Event>, c: Ceiling, lo: real, hi: real): nat
  {
    if es == [] then 0
    else
      var front, e := es[..|es| - 1], es[|es| - 1];
      MintsIn(front, c, lo, hi) + if Minted(Asked(front, c), e, c) && lo <= e.now <= hi then 1 else 0
  }

  function When(e: Event): real
  {
    if e.Attempt? then e.now else e.q.now
  }

  function Who(e: Event): nat
  {
    if e.Attempt? then e.worker else e.q.worker
  }

  predicate Ordered(es: seq<Event>)
  {
    forall i, j | 0 <= i <= j < |es| :: When(es[i]) <= When(es[j])
  }

  /** The events of `n` workers, in order; other rules have other keys, and those of
      them that fail closed come from `keys`. */
  predicate Events(es: seq<Event>, c: Ceiling, n: nat, keys: set<L.Key>)
  {
    && Ordered(es)
    && forall i | 0 <= i < |es| ::
         && Who(es[i]) < n
         && (es[i].Other? ==> es[i].q.key != MinuteKey(c) && es[i].q.key != HourKey(c)
                              && (es[i].q.failClosed ==> es[i].q.key in keys))
  }

  predicate OfCeiling(key: L.Key, c: Ceiling)
  {
    key == MinuteKey(c) || key == HourKey(c)
  }

  // ----- the bound

  /** The evaluations of the ceiling and of other rules on `n` workers, in order. */
  predicate Asks(qs: seq<Request>, c: Ceiling, n: nat, keys: set<L.Key>)
  {
    && Nondecreasing(qs) && From(qs, n) && Keyed(qs, keys)
    && Uses(qs, MinuteKey(c), true) && Uses(qs, HourKey(c), true)
  }

  predicate NoLater(qs: seq<Request>, last: real)
  {
    forall i | 0 <= i < |qs| :: qs[i].now <= last
  }

  lemma AsksSnoc(qs: seq<Request>, q: Request, c: Ceiling, n: nat, keys: set<L.Key>)
    requires Asks(qs, c, n, keys) && NoLater(qs, q.now) && q.worker < n && (q.failClosed ==> q.key in keys)
    requires q.failClosed || !OfCeiling(q.key, c)
    ensures Asks(qs + [q], c, n, keys) && NoLater(qs + [q], q.now)
  {}

  lemma {:induction false} AskedInOrder(es: seq<Event>, c: Ceiling, n: nat, keys: set<L.Key>, last: real)
    requires Events(es, c, n, keys) && {MinuteKey(c), HourKey(c)} <= keys
    requires forall i | 0 <= i < |es| :: When(es[i]) <= last
    ensures Asks(Asked(es, c), c, n, keys) && NoLater(Asked(es, c), last)
  {
    if es != [] {
      var front, e := es[..|es| - 1], es[|es| - 1];
      AskedInOrder(front, c, n, keys, When(e));
      var qs := Asked(front, c);
      if e.Other? {
        AsksSnoc(qs, e.q, c, n, keys);
      } else {
        AsksSnoc(qs, MinuteAsk(e, c), c, n, keys);
        AsksSnoc(qs + [MinuteAsk(e, c)], HourAsk(e, c), c, n, keys);
      }
    }
  }

  lemma {:induction false} AskedAsks(es: seq<Event>, c: Ceiling, n: nat, keys: set<L.Key>)
    requires Events(es, c, n, keys) && {MinuteKey(c), HourKey(c)} <= keys
    ensures Asks(Asked(es, c), c, n, keys)
  {
    AskedInOrder(es, c, n, keys, if es == [] then 0.0 else When(es[|es| - 1]));
  }

  lemma {:induction false} MintPasses(qs: seq<Request>, e: Event, c: Ceiling, key: L.Key, lo: real, hi: real)
    requires OfCeiling(key, c)
    ensures AdmittedIn(Asking(qs, e, c), key, lo, hi) >=
            AdmittedIn(qs, key, lo, hi) + if Minted(qs, e, c) && lo <= e.now <= hi then 1 else 0
  {
    if e.Other? {
      CountSnoc(qs, e.q, key, lo, hi);
    } else {
      CountSnoc(qs, MinuteAsk(e, c), key, lo, hi);
      CountSnoc(qs + [MinuteAsk(e, c)], HourAsk(e, c), key, lo, hi);
    }
  }

  /** Every mint passed both windows. */
  lemma {:induction false} MintsPassBoth(es: seq<Event>, c: Ceiling, key: L.Key, lo: real, hi: real)
    requires OfCeiling(key, c)
    ensures MintsIn(es, c, lo, hi) <= AdmittedIn(Asked(es, c), key, lo, hi)
  {
    if es != [] {
      var front, e := es[..|es| - 1], es[|es| - 1];
      MintsPassBoth(front, c, key, lo, hi);
      MintPasses(Asked(front, c), e, c, key, lo, hi);
    }
  }

  /** Under any outage pattern the island mints, in an interval shorter than a minute or
      than an hour, beside what Redis lets through at most that window's limit once
      for each worker and once more for each clear; and Redis lets through at most
      the limit, provided it counts fairly. */
  lemma {:induction false} CeilingBound(es: seq<Event>, c: Ceiling, n: nat, keys: set<L.Key>, key: L.Key, lo: real, hi: real)
    requires Events(es, c, n, keys) && {MinuteKey(c), HourKey(c)} <= keys
    requires OfCeiling(key, c) && hi - lo < key.rule.window as real
    ensures var qs := Asked(es, c);
            && MintsIn(es, c, lo, hi) <= RedisIn(qs, key, lo, hi) + Sum(Shares(qs, n, lo, hi)) * Cap(key.rule.limit)
            && (Fair(qs, key) ==> RedisIn(qs, key, lo, hi) <= Cap(key.rule.limit))
  {
    AskedAsks(es, c, n, keys);
    MintsPassBoth(es, c, key, lo, hi);
    AsksBound(Asked(es, c), c, n, keys, key, lo, hi);
  }

  lemma {:induction false} AsksBound(qs: seq<Request>, c: Ceiling, n: nat, keys: set<L.Key>, key: L.Key, lo: real, hi: real)
    requires Asks(qs, c, n, keys) && OfCeiling(key, c) && hi - lo < key.rule.window as real
    ensures AdmittedIn(qs, key, lo, hi) <= RedisIn(qs, key, lo, hi) + Sum(Shares(qs, n, lo, hi)) * Cap(key.rule.limit)
    ensures Fair(qs, key) ==> RedisIn(qs, key, lo, hi) <= Cap(key.rule.limit)
  {
    FailClosedBound(qs, key, n, lo, hi);
  }

  // ----- what exceeds the ceiling

  lemma {:induction false} MintsSnoc(es: seq<Event>, e: Event, c: Ceiling, lo: real, hi: real)
    ensures Asked(es + [e], c) == Asking(Asked(es, c), e, c)
    ensures MintsIn(es + [e], c, lo, hi) ==
            MintsIn(es, c, lo, hi) + if Minted(Asked(es, c), e, c) && lo <= e.now <= hi then 1 else 0
  {
    assert (es + [e])[..|es|] == es;
  }

  /** The hour is neither asked nor charged when the minute refuses. */
  lemma {:induction false} MinuteRefusesFirst(es: seq<Event>, e: Event, c: Ceiling)
    requires e.Attempt? && !Passes(Asked(es, c), MinuteAsk(e, c))
    ensures Evaluated(Asked(es + [e], c), HourKey(c)) == Evaluated(Asked(es, c), HourKey(c))
    ensures forall w: nat :: L.Get(Local(Run(Asked(es + [e], c)), w), HourKey(c)) in
              {[], L.Get(Local(Run(Asked(es, c)), w), HourKey(c))}
  {
    assert (es + [e])[..|es|] == es;
    var qs := Asked(es, c);
    assert (qs + [MinuteAsk(e, c)])[..|qs|] == qs;
  }

  /** Events at one instant, in one worker. */
  predicate AtOnce(es: seq<Event>, c: Ceiling, keys: set<L.Key>)
  {
    forall i | 0 <= i < |es| ::
      && When(es[i]) == INSTANT && Who(es[i]) == 0
      && (es[i].Other? ==> !OfCeiling(es[i].q.key, c) && es[i].q.key in keys)
  }

  lemma AtOnceEvents(es: seq<Event>, c: Ceiling, n: nat, keys: set<L.Key>)
    requires AtOnce(es, c, keys) && n >= 1
    ensures Events(es, c, n, keys)
  {}

  /** An attempt that finds Redis gone. */
  const TRY: Event := Attempt(INSTANT, 0, Down, Down)

  /** Events that left the keys `open` in the first worker's map, minted `minted`
      times, and never reached Redis. */
  ghost predicate Phase(es: seq<Event>, c: Ceiling, keys: set<L.Key>, open: set<L.Key>, minted: nat)
  {
    && AtOnce(es, c, keys) && Local(Run(Asked(es, c)), 0).Keys == open && MintsIn(es, c, INSTANT, INSTANT) == minted
    && Evaluated(Asked(es, c), MinuteKey(c)) == [] && Evaluated(Asked(es, c), HourKey(c)) == []
  }

  lemma {:induction false} DownSnoc(qs: seq<Request>, q: Request, key: L.Key)
    requires q.redis.Down?
    ensures Evaluated(qs + [q], key) == Evaluated(qs, key)
  {
    assert (qs + [q])[..|qs|] == qs;
  }

  /** A try on a full or an empty map finds both windows empty. */
  lemma {:induction false} FreshMints(qs: seq<Request>, c: Ceiling, open: set<L.Key>)
    requires 1 <= c.perMinute && 1 <= c.perHour
    requires Local(Run(qs), 0).Keys == open && (|open| > L.MAX_KEYS || open == {})
    ensures Minted(qs, TRY, c)
    ensures Asking(qs, TRY, c) == qs + [Ask(MinuteKey(c))] + [Ask(HourKey(c))]
    ensures Local(Run(qs + [Ask(MinuteKey(c))] + [Ask(HourKey(c))]), 0).Keys == {MinuteKey(c), HourKey(c)}
  {
    FreshPasses(qs, MinuteKey(c), open);
    CallOpens(qs, MinuteKey(c), open);
    assert (if |open| > L.MAX_KEYS then {} else open) + {MinuteKey(c)} == {MinuteKey(c)};
    FreshPasses(qs + [Ask(MinuteKey(c))], HourKey(c), {MinuteKey(c)});
    CallOpens(qs + [Ask(MinuteKey(c))], HourKey(c), {MinuteKey(c)});
  }

  lemma {:induction false} PhaseTry(es: seq<Event>, c: Ceiling, keys: set<L.Key>, open: set<L.Key>, minted: nat)
    requires 1 <= c.perMinute && 1 <= c.perHour
    requires Phase(es, c, keys, open, minted) && (|open| > L.MAX_KEYS || open == {})
    ensures Phase(es + [TRY], c, keys, {MinuteKey(c), HourKey(c)}, minted + 1)
  {
    var qs, m, h := Asked(es, c), Ask(MinuteKey(c)), Ask(HourKey(c));
    FreshMints(qs, c, open);
    MintsSnoc(es, TRY, c, INSTANT, INSTANT);
    DownSnoc(qs, m, MinuteKey(c));
    DownSnoc(qs, m, HourKey(c));
    DownSnoc(qs + [m], h, MinuteKey(c));
    DownSnoc(qs + [m], h, HourKey(c));
  }

  lemma {:induction false} PhaseOther(es: seq<Event>, c: Ceiling, keys: set<L.Key>, open: set<L.Key>, minted: nat, k: L.Key)
    requires Phase(es, c, keys, open, minted) && k in keys && !OfCeiling(k, c) && |open| <= L.MAX_KEYS
    ensures Phase(es + [Other(Ask(k))], c, keys, open + {k}, minted)
  {
    var qs, e := Asked(es, c), Other(Ask(k));
    CallOpens(qs, k, open);
    MintsSnoc(es, e, c, INSTANT, INSTANT);
    assert Asking(qs, e, c) == qs + [Ask(k)] && !Minted(qs, e, c);
    DownSnoc(qs, Ask(k), MinuteKey(c));
    DownSnoc(qs, Ask(k), HourKey(c));
  }

  /** One call for each of `others` opens them all. */
  lemma {:induction false} OpenOthers(es: seq<Event>, c: Ceiling, keys: set<L.Key>, open: set<L.Key>, minted: nat,
                                      others: set<L.Key>) returns (rs: seq<Event>)
    requires Phase(es, c, keys, open, minted) && {MinuteKey(c), HourKey(c)} <= open && Strangers(others, keys, open)
    ensures Phase(rs, c, keys, open + others, minted)
    decreases |others|
  {
    if others == {} {
      rs := es;
      assert open + others == open;
    } else {
      var k := Pick(others);
      OneFewer(others, keys, open, k);
      rs := OpenOthers(es, c, keys, open, minted, others - {k});
      PhaseOther(rs, c, keys, open + (others - {k}), minted, k);
      rs := rs + [Other(Ask(k))];
    }
  }

  /** Every round mints once and fills the map again. */
  lemma {:induction false} MintRounds(c: Ceiling, keys: set<L.Key>, others: set<L.Key>, r: nat) returns (es: seq<Event>)
    requires 1 <= c.perMinute && 1 <= c.perHour
    requires var both := {MinuteKey(c), HourKey(c)}; Strangers(others, keys, both) && |both + others| > L.MAX_KEYS
    ensures Phase(es, c, keys, if r == 0 then {} else {MinuteKey(c), HourKey(c)} + others, r)
  {
    if r == 0 {
      es := [];
    } else {
      var both := {MinuteKey(c), HourKey(c)};
      es := MintRounds(c, keys, others, r - 1);
      PhaseTry(es, c, keys, if r == 1 then {} else both + others, r - 1);
      es := OpenOthers(es + [TRY], c, keys, both, r, others);
    }
  }

  /** Enough other keys to fill a map. */
  lemma OtherKeys(keys: set<L.Key>, both: set<L.Key>) returns (others: set<L.Key>)
    requires |both| == 2 && |keys| > L.MAX_KEYS
    ensures Strangers(others, keys, both) && |both + others| == L.MAX_KEYS + 1
  {
    SplitSize(keys, both);
    SubsetSize(keys * both, both);
    others := SubsetOfSize(keys - both, L.MAX_KEYS - 1);
  }

  /** With one key more than a map may hold, the island mints any number of accounts
      while Redis is gone. */
  lemma {:induction false} CeilingClearedRun(c: Ceiling, keys: set<L.Key>, r: nat) returns (es: seq<Event>)
    requires |keys| > L.MAX_KEYS && 1 <= c.perMinute && 1 <= c.perHour
    ensures AtOnce(es, c, keys) && MintsIn(es, c, INSTANT, INSTANT) == r
    ensures Evaluated(Asked(es, c), MinuteKey(c)) == [] && Evaluated(Asked(es, c), HourKey(c)) == []
  {
    var others := OtherKeys(keys, {MinuteKey(c), HourKey(c)});
    es := MintRounds(c, keys, others, r);
  }

  /** An attempt that Redis answers for both windows. */
  const ANSWERED: Event := Attempt(INSTANT, 0, Answered, Answered)

  lemma {:induction false} AnsweredSnoc(qs: seq<Request>, k: L.Key, key: L.Key, m: nat)
    requires Evaluated(qs, key) == S.Repeated(m, INSTANT)
    ensures Evaluated(qs + [Request(k, true, INSTANT, Answered, 0)], key) ==
            S.Repeated(if k == key then m + 1 else m, INSTANT)
  {
    assert (qs + [Request(k, true, INSTANT, Answered, 0)])[..|qs|] == qs;
  }

  lemma {:induction false} RepeatPasses(qs: seq<Request>, key: L.Key, m: nat)
    requires key.rule.limit >= 2 && key.rule.window >= 1 && Evaluated(qs, key) == S.Repeated(m, INSTANT)
    ensures Passes(qs, Request(key, true, INSTANT, Answered, 0))
  {
    BucketIsRun(qs, key);
    S.SameInstantUnbounded(m, INSTANT, key.rule.window, key.rule.limit);
    S.RepeatAccepted(S.Get(Run(qs).buckets, key), INSTANT, key.rule.window, key.rule.limit);
  }

  /** With limits of two or more, Redis lets any number of attempts through at one
      instant. */
  lemma {:induction false} InstantMints(c: Ceiling, keys: set<L.Key>, r: nat) returns (es: seq<Event>)
    requires 2 <= c.perMinute && 2 <= c.perHour
    ensures AtOnce(es, c, keys) && MintsIn(es, c, INSTANT, INSTANT) == r
    ensures Evaluated(Asked(es, c), MinuteKey(c)) == Evaluated(Asked(es, c), HourKey(c)) == S.Repeated(r, INSTANT)
  {
    if r == 0 {
      es := [];
    } else {
      es := InstantMints(c, keys, r - 1);
      AnsweredMints(Asked(es, c), c, r - 1);
      MintsSnoc(es, ANSWERED, c, INSTANT, INSTANT);
      es := es + [ANSWERED];
    }
  }

  lemma {:induction false} AnsweredMints(qs: seq<Request>, c: Ceiling, m: nat)
    requires 2 <= c.perMinute && 2 <= c.perHour
    requires Evaluated(qs, MinuteKey(c)) == Evaluated(qs, HourKey(c)) == S.Repeated(m, INSTANT)
    ensures Minted(qs, ANSWERED, c)
    ensures var rs := Asking(qs, ANSWERED, c);
            Evaluated(rs, MinuteKey(c)) == Evaluated(rs, HourKey(c)) == S.Repeated(m + 1, INSTANT)
  {
    var first := qs + [MinuteAsk(ANSWERED, c)];
    RepeatPasses(qs, MinuteKey(c), m);
    AnsweredSnoc(qs, MinuteKey(c), MinuteKey(c), m);
    AnsweredSnoc(qs, MinuteKey(c), HourKey(c), m);
    RepeatPasses(first, HourKey(c), m);
    AnsweredSnoc(first, HourKey(c), MinuteKey(c), m + 1);
    AnsweredSnoc(first, HourKey(c), HourKey(c), m);
  }

  // ----- the exact condition

  /** The island mints, in an interval shorter than the window of `key`, at most that
      limit once for Redis and once for each worker, provided `distinct` is false or
      Redis runs the script for `key` at distinct times. */
  ghost predicate KeepsCeiling(es: seq<Event>, c: Ceiling, keys: set<L.Key>, n: nat, key: L.Key, distinct: bool,
                               lo: real, hi: real)
  {
    && Events(es, c, n, keys) && hi - lo < key.rule.window as real
    && (distinct ==> S.Rising(Evaluated(Asked(es, c), key))) ==>
      MintsIn(es, c, lo, hi) <= (1 + n) * Cap(key.rule.limit)
  }

  /** The ceiling keeps the minute's bound if and only if a local map can hold the keys
      of all rules that fail closed without being cleared, and one of the two limits
      is at most one or Redis never counts two attempts of one instant as one (or
      nothing is ever minted). */
  lemma {:induction false} MinuteBoundIff(c: Ceiling, keys: set<L.Key>, n: nat, distinct: bool)
    requires {MinuteKey(c), HourKey(c)} <= keys
    ensures n == 0 || c.perMinute <= 0 || c.perHour <= 0
            || (|keys| <= L.MAX_KEYS && (c.perMinute <= 1 || c.perHour <= 1 || distinct)) <==>
            forall es, lo, hi :: KeepsCeiling(es, c, keys, n, MinuteKey(c), distinct, lo, hi)
  {
    var holds := n == 0 || c.perMinute <= 0 || c.perHour <= 0
                 || (|keys| <= L.MAX_KEYS && (c.perMinute <= 1 || c.perHour <= 1 || distinct));
    if holds {
      forall es, lo, hi ensures KeepsCeiling(es, c, keys, n, MinuteKey(c), distinct, lo, hi) {
        if && Events(es, c, n, keys) && hi - lo < 60 as real
           && (distinct ==> S.Rising(Evaluated(Asked(es, c), MinuteKey(c)))) {
          MinuteBound(es, c, keys, n, distinct, lo, hi);
        }
      }
    } else {
      var r := (1 + n) * c.perMinute + 1;
      var es: seq<Event>;
      if |keys| > L.MAX_KEYS {
        es := CeilingClearedRun(c, keys, r);
      } else {
        es := InstantMints(c, keys, r);
      }
      AtOnceEvents(es, c, n, keys);
      assert !KeepsCeiling(es, c, keys, n, MinuteKey(c), distinct, INSTANT, INSTANT);
    }
  }

  lemma {:induction false} MinuteBound(es: seq<Event>, c: Ceiling, keys: set<L.Key>, n: nat, distinct: bool,
                                       lo: real, hi: real)
    requires {MinuteKey(c), HourKey(c)} <= keys && Events(es, c, n, keys) && hi - lo < 60.0
    requires distinct ==> S.Rising(Evaluated(Asked(es, c), MinuteKey(c)))
    requires n == 0 || c.perMinute <= 0 || c.perHour <= 0
             || (|keys| <= L.MAX_KEYS && (c.perMinute <= 1 || c.perHour <= 1 || distinct))
    ensures MintsIn(es, c, lo, hi) <= (1 + n) * Cap(c.perMinute)
  {
    if n == 0 || c.perMinute <= 0 || (|keys| <= L.MAX_KEYS && (c.perMinute <= 1 || distinct)) {
      WindowBound(es, c, keys, n, MinuteKey(c), distinct, lo, hi);
    } else {
      WindowBound(es, c, keys, n, HourKey(c), false, lo, hi);
      SmallerCap(MintsIn(es, c, lo, hi), n, Cap(c.perHour), Cap(c.perMinute));
    }
  }

  lemma SmallerCap(size: nat, n: nat, cap: nat, larger: nat)
    requires size <= (1 + n) * cap && cap <= 1 <= larger
    ensures size <= (1 + n) * larger
  {
    assert (1 + n) * cap <= 1 + n <= (1 + n) * larger;
  }

  lemma {:induction false} WindowBound(es: seq<Event>, c: Ceiling, keys: set<L.Key>, n: nat, key: L.Key, distinct: bool,
                                       lo: real, hi: real)
    requires {MinuteKey(c), HourKey(c)} <= keys && Events(es, c, n, keys)
    requires OfCeiling(key, c) && hi - lo < key.rule.window as real
    requires distinct ==> S.Rising(Evaluated(Asked(es, c), key))
    requires n == 0 || key.rule.limit <= 0 || Countable(key.rule.limit, keys, distinct)
    ensures MintsIn(es, c, lo, hi) <= (1 + n) * Cap(key.rule.limit)
  {
    AskedAsks(es, c, n, keys);
    MintsPassBoth(es, c, key, lo, hi);
    AsksUncleared(Asked(es, c), c, keys, n, key, distinct, lo, hi);
  }

  lemma {:induction false} AsksUncleared(qs: seq<Request>, c: Ceiling, keys: set<L.Key>, n: nat, key: L.Key, distinct: bool,
                                         lo: real, hi: real)
    requires Asks(qs, c, n, keys) && OfCeiling(key, c) && hi - lo < key.rule.window as real
    requires distinct ==> S.Rising(Evaluated(qs, key))
    requires n == 0 || key.rule.limit <= 0 || Countable(key.rule.limit, keys, distinct)
    ensures AdmittedIn(qs, key, lo, hi) <= (1 + n) * Cap(key.rule.limit)
  {
    UnclearedBound(qs, key, keys, n, distinct, lo, hi);
  }

  /** A minute whose limit admits nothing stops every attempt. */
  lemma {:induction false} NeverMinted(es: seq<Event>, c: Ceiling, lo: real, hi: real)
    requires c.perMinute <= 0
    ensures MintsIn(es, c, lo, hi) == 0
  {
    if es != [] { NeverMinted(es[..|es| - 1], c, lo, hi); }
  }
}
