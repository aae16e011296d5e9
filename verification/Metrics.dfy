/** The ring of one-minute buckets behind the operator panel, against the full
    log of everything that was ever recorded. */
module Metrics {
  import opened Basics
  import opened Sets

  const WINDOW_MINUTES: nat := 60
  const BOOT_CHAIN_PATH: nat := 0

  type Counts = map<nat, nat>
  type Amounts = map<nat, real>

  /** A `defaultdict` read. */
  function Count(c: Counts, k: nat): nat
  {
    if k in c then c[k] else 0
  }

  function Amount(a: Amounts, k: nat): real
  {
    if k in a then a[k] else 0.0
  }

  /** Paths, transports and accounts are identifiers; an account identifier is the
      pseudonym of a uin. */
  datatype Bucket = Bucket(
    calls: Counts, transport: Counts, seconds: Amounts, errors: Counts, worst: Amounts,
    accounts: set<nat>, bootChains: nat, chainsBy: Counts,
    socketsOpened: nat, socketsClosed: nat, socketsRefused: nat,
    poolPeak: int, atCeiling: nat, slowBodies: nat, slowWorst: real)

  const FRESH: Bucket := Bucket(map[], map[], map[], map[], map[], {}, 0, map[], 0, 0, 0, 0, 0, 0, 0.0)

  datatype Request = Request(
    path: nat, seconds: real, status: int, account: Option<nat>,
    poolInUse: Option<int>, poolCeiling: Option<int>, transport: Option<nat>, bodySeconds: real)

  datatype Event = Served(r: Request) | Socket(opens: bool) | SocketRefused

  // ----- one event into one bucket

  function Larger(a: real, b: real): real
  {
    if b > a then b else a
  }

  predicate Slow(r: Request)
  {
    r.bodySeconds > 5.0
  }

  predicate AtCeiling(r: Request)
  {
    r.poolInUse.Some? && r.poolCeiling.Some? && r.poolCeiling.value != 0 && r.poolInUse.value >= r.poolCeiling.value
  }

  predicate StartsChain(r: Request)
  {
    r.account.Some? && r.path == BOOT_CHAIN_PATH
  }

  function One(b: bool): nat
  {
    if b then 1 else 0
  }

  /** What a request says about its body. */
  function AppliedBody(b: Bucket, r: Request): Bucket
  {
    b.(slowBodies := b.slowBodies + One(Slow(r)),
       slowWorst := if Slow(r) then Larger(b.slowWorst, r.bodySeconds) else b.slowWorst)
  }

  /** What it says about its path. */
  function AppliedCall(b: Bucket, r: Request): Bucket
  {
    b.(calls := Bumped(b.calls, r.path),
       transport := if r.transport.Some?
                    then Bumped(b.transport, r.transport.value)
                    else b.transport,
       seconds := b.seconds[r.path := Amount(b.seconds, r.path) + r.seconds],
       worst := b.worst[r.path := Larger(Amount(b.worst, r.path), r.seconds)],
       errors := if r.status >= 500 then Bumped(b.errors, r.path) else b.errors)
  }

  /** What it says about the account. */
  function AppliedAccount(b: Bucket, r: Request): Bucket
  {
    b.(accounts := if r.account.Some? then b.accounts + {r.account.value} else b.accounts,
       bootChains := b.bootChains + One(StartsChain(r)),
       chainsBy := if StartsChain(r) then Bumped(b.chainsBy, r.account.value) else b.chainsBy)
  }

  /** What it says about the connection pool. */
  function AppliedPool(b: Bucket, r: Request): Bucket
  {
    b.(poolPeak := if r.poolInUse.Some? && r.poolInUse.value > b.poolPeak then r.poolInUse.value else b.poolPeak,
       atCeiling := b.atCeiling + One(AtCeiling(r)))
  }

  function AppliedRequest(b: Bucket, r: Request): Bucket
  {
    AppliedPool(AppliedAccount(AppliedCall(AppliedBody(b, r), r), r), r)
  }

  function Applied(b: Bucket, e: Event): Bucket
  {
    match e
    case Served(r) => AppliedRequest(b, r)
    case Socket(o) => b.(socketsOpened := b.socketsOpened + One(o), socketsClosed := b.socketsClosed + One(!o))
    case SocketRefused => b.(socketsRefused := b.socketsRefused + 1)
  }

  function Bumped(c: Counts, k: nat): Counts
  {
    c[k := Count(c, k) + 1]
  }

  /** `record_request`, field by field, in four parts. */
  method ApplyBody(b: Bucket, r: Request) returns (after: Bucket)
    ensures after == AppliedBody(b, r)
  {
    var slowBodies, slowWorst := b.slowBodies, b.slowWorst;
    if r.bodySeconds > 5.0 {
      slowBodies := slowBodies + 1;
      if r.bodySeconds > slowWorst { slowWorst := r.bodySeconds; }
    }
    after := b.(slowBodies := slowBodies, slowWorst := slowWorst);
  }

  method ApplyCall(b: Bucket, r: Request) returns (after: Bucket)
    ensures after == AppliedCall(b, r)
  {
    var calls, transport, errors, worst := b.calls, b.transport, b.errors, Amount(b.worst, r.path);
    calls := Bumped(calls, r.path);
    if r.transport.Some? { transport := Bumped(transport, r.transport.value); }
    if r.seconds > worst { worst := r.seconds; }
    if r.status >= 500 { errors := Bumped(errors, r.path); }
    after := b.(calls := calls, transport := transport,
                seconds := b.seconds[r.path := Amount(b.seconds, r.path) + r.seconds],
                worst := b.worst[r.path := worst], errors := errors);
  }

  method ApplyAccount(b: Bucket, r: Request) returns (after: Bucket)
    ensures after == AppliedAccount(b, r)
  {
    var accounts, bootChains, chainsBy := b.accounts, b.bootChains, b.chainsBy;
    if r.account.Some? {
      accounts := accounts + {r.account.value};
      if r.path == BOOT_CHAIN_PATH {
        bootChains := bootChains + 1;
        chainsBy := Bumped(chainsBy, r.account.value);
      }
    }
    after := b.(accounts := accounts, bootChains := bootChains, chainsBy := chainsBy);
  }

  method ApplyPool(b: Bucket, r: Request) returns (after: Bucket)
    ensures after == AppliedPool(b, r)
  {
    var poolPeak, atCeiling := b.poolPeak, b.atCeiling;
    if r.poolInUse.Some? {
      if r.poolInUse.value > poolPeak { poolPeak := r.poolInUse.value; }
      if r.poolCeiling.Some? && r.poolCeiling.value != 0 && r.poolInUse.value >= r.poolCeiling.value {
        atCeiling := atCeiling + 1;
      }
    }
    after := b.(poolPeak := poolPeak, atCeiling := atCeiling);
  }

  // ----- the ring

  type Ring = map<nat, Bucket>

  function At(ring: Ring, minute: int): Bucket
  {
    if minute >= 0 && minute in ring then ring[minute] else FRESH
  }

  function Recent(ring: Ring, m: nat): Ring
  {
    map k | k in ring && k > m - WINDOW_MINUTES :: ring[k]
  }

  /** `_bucket`: a new bucket drops everything older than the window. */
  function Opened(ring: Ring, m: nat): Ring
  {
    if m in ring then ring else Recent(ring[m := FRESH], m)
  }

  function Recorded(ring: Ring, m: nat, e: Event): Ring
  {
    Opened(ring, m)[m := Applied(At(Opened(ring, m), m), e)]
  }

  class Panel {
    var buckets: Ring

    constructor ()
      ensures buckets == map[]
    {
      buckets := map[];
    }

    method OpenBucket(m: nat)
      modifies this
      ensures buckets == Opened(old(buckets), m) && m in buckets
    {
      if m !in buckets {
        buckets := buckets[m := FRESH];
        buckets := map k | k in buckets && k > m - WINDOW_MINUTES :: buckets[k];
      }
    }

    method RecordRequest(m: nat, r: Request)
      modifies this
      ensures buckets == Recorded(old(buckets), m, Served(r))
    {
      OpenBucket(m);
      var b := ApplyBody(buckets[m], r);
      b := ApplyCall(b, r);
      b := ApplyAccount(b, r);
      b := ApplyPool(b, r);
      buckets := buckets[m := b];
    }

    method RecordSocket(m: nat, opens: bool)
      modifies this
      ensures buckets == Recorded(old(buckets), m, Socket(opens))
    {
      OpenBucket(m);
      var b := buckets[m];
      if opens { b := b.(socketsOpened := b.socketsOpened + 1); } else { b := b.(socketsClosed := b.socketsClosed + 1); }
      buckets := buckets[m := b];
    }

    method RecordSocketRefused(m: nat)
      modifies this
      ensures buckets == Recorded(old(buckets), m, SocketRefused)
    {
      OpenBucket(m);
      buckets := buckets[m := buckets[m].(socketsRefused := buckets[m].socketsRefused + 1)];
    }
  }

  // ----- the ring after any log

  datatype Entry = Entry(minute: nat, event: Event)

  type Log = seq<Entry>

  predicate Nondecreasing(log: Log)
  {
    forall i, j | 0 <= i <= j < |log| :: log[i].minute <= log[j].minute
  }

  function RingOf(log: Log): Ring
  {
    if log == [] then map[]
    else
      var e := log[|log| - 1];
      Recorded(RingOf(log[..|log| - 1]), e.minute, e.event)
  }

  /** Minute `m` of the whole log, with nothing ever dropped. */
  function MinuteOf(log: Log, m: int): Bucket
  {
    if log == [] then FRESH
    else
      var e := log[|log| - 1];
      var b := MinuteOf(log[..|log| - 1], m);
      if e.minute == m then Applied(b, e.event) else b
  }

  lemma {:induction false} NothingLater(log: Log, m: int)
    requires Nondecreasing(log) && (log != [] ==> log[|log| - 1].minute < m)
    ensures MinuteOf(log, m) == FRESH
  {
    if log != [] {
      var front := log[..|log| - 1];
      if front != [] { assert log[|log| - 2].minute <= log[|log| - 1].minute; }
      NothingLater(front, m);
    }
  }

  /** Every minute of the ring is that minute of the whole log, except that the
      minutes an hour or more before the last event are empty. */
  lemma {:induction false} RingAgrees(log: Log, k: int)
    requires Nondecreasing(log) && log != []
    ensures var last := log[|log| - 1].minute;
            At(RingOf(log), k) == if k > last - WINDOW_MINUTES then MinuteOf(log, k) else FRESH
    ensures forall m | m in RingOf(log) :: log[|log| - 1].minute - WINDOW_MINUTES < m <= log[|log| - 1].minute
    ensures log[|log| - 1].minute in RingOf(log)
  {
    var front, e := log[..|log| - 1], log[|log| - 1];
    if front != [] {
      assert front[|front| - 1].minute <= e.minute;
      RingAgrees(front, k);
      RingAgrees(front, e.minute);
      if front[|front| - 1].minute < e.minute { NothingLater(front, e.minute); }
      if k > e.minute { NothingLater(front, k); }
    }
  }

  lemma {:induction false} BelowSize(ring: Ring, lo: int, n: nat)
    requires forall m | m in ring :: lo < m <= lo + n
    ensures |ring| <= n
    decreases n
  {
    var top := lo + n;
    if n == 0 {
      assert ring.Keys == {};
    } else if top >= 0 && top in ring {
      BelowSize(ring - {top}, lo, n - 1);
      assert ring.Keys == (ring - {top}).Keys + {top};
    } else {
      BelowSize(ring, lo, n - 1);
    }
  }

  /** Sixty buckets at most, after any log. */
  lemma {:induction false} RingBounded(log: Log)
    requires Nondecreasing(log)
    ensures |RingOf(log)| <= WINDOW_MINUTES
  {
    if log != [] {
      RingAgrees(log, 0);
      BelowSize(RingOf(log), log[|log| - 1].minute - WINDOW_MINUTES, WINDOW_MINUTES);
    }
  }

  // ----- what the minutes mean, counted straight from the log

  datatype Query =
    | Requests | Calls(path: nat) | Failures | Errors(path: nat) | Via(transport: nat)
    | Chains | ChainsOf(account: nat) | Opens | Closes | Refusals | Ceilings | SlowOnes

  predicate Matches(e: Event, q: Query)
  {
    match q
    case Requests => e.Served?
    case Calls(p) => e.Served? && e.r.path == p
    case Failures => e.Served? && e.r.status >= 500
    case Errors(p) => e.Served? && e.r.status >= 500 && e.r.path == p
    case Via(t) => e.Served? && e.r.transport == Some(t)
    case Chains => e.Served? && e.r.account.Some? && e.r.path == BOOT_CHAIN_PATH
    case ChainsOf(a) => e.Served? && e.r.account == Some(a) && e.r.path == BOOT_CHAIN_PATH
    case Opens => e.Socket? && e.opens
    case Closes => e.Socket? && !e.opens
    case Refusals => e.SocketRefused?
    case Ceilings =>
      && e.Served? && e.r.poolInUse.Some? && e.r.poolCeiling.Some? && e.r.poolCeiling.value != 0
      && e.r.poolInUse.value >= e.r.poolCeiling.value
    case SlowOnes => e.Served? && e.r.bodySeconds > 5.0
  }

  predicate During(e: Entry, lo: int, hi: int)
  {
    lo <= e.minute <= hi
  }

  /** How many events of the minutes from `lo` to `hi` match. */
  function Tally(log: Log, lo: int, hi: int, q: Query): nat
  {
    if log == [] then 0
    else
      var e := log[|log| - 1];
      Tally(log[..|log| - 1], lo, hi, q) + One(During(e, lo, hi) && Matches(e.event, q))
  }

  /** The seconds spent on a path in those minutes. */
  function SecondsOn(log: Log, lo: int, hi: int, path: nat): real
  {
    if log == [] then 0.0
    else
      var e := log[|log| - 1];
      SecondsOn(log[..|log| - 1], lo, hi, path) +
      if During(e, lo, hi) && Matches(e.event, Calls(path)) then e.event.r.seconds else 0.0
  }

  /** The slowest call on a path in those minutes, zero without one. */
  function WorstOn(log: Log, lo: int, hi: int, path: nat): real
  {
    if log == [] then 0.0
    else
      var e := log[|log| - 1];
      var w := WorstOn(log[..|log| - 1], lo, hi, path);
      if During(e, lo, hi) && Matches(e.event, Calls(path)) then Larger(w, e.event.r.seconds) else w
  }

  /** The account made a request in that minute. */
  predicate SeenIn(log: Log, m: int, account: nat)
  {
    log != [] &&
    (SeenIn(log[..|log| - 1], m, account) ||
     var e := log[|log| - 1];
     During(e, m, m) && e.event.Served? && e.event.r.account == Some(account))
  }

  // sums over the values of a map

  ghost function Total(c: Counts): nat
  {
    if c == map[] then 0
    else
      NonEmptyKeys(c);
      var k := Pick(c.Keys); c[k] + Total(c - {k})
  }

  lemma NonEmptyKeys(c: Counts)
    requires c != map[]
    ensures c.Keys != {}
  {
    assert c.Keys == {} <==> c == map[];
  }

  lemma {:induction false} TotalRemove(c: Counts, k: nat)
    requires k in c
    ensures Total(c) == c[k] + Total(c - {k})
    decreases |c|
  {
    NonEmptyKeys(c);
    var j := Pick(c.Keys);
    if j != k {
      assert (c - {j}).Keys == c.Keys - {j} && (c - {k}).Keys == c.Keys - {k};
      assert |(c - {j}).Keys| < |c.Keys| && |(c - {k}).Keys| < |c.Keys|;
      TotalRemove(c - {j}, k);
      TotalRemove(c - {k}, j);
      assert c - {j} - {k} == c - {k} - {j};
    }
  }

  lemma {:induction false} TotalBumped(c: Counts, k: nat)
    ensures Total(Bumped(c, k)) == Total(c) + 1
  {
    var d := Bumped(c, k);
    TotalRemove(d, k);
    assert d - {k} == c - {k};
    if k in c {
      TotalRemove(c, k);
    } else {
      assert c - {k} == c;
    }
  }

  /** The counter of a bucket that answers a query. */
  ghost function Counter(b: Bucket, q: Query): nat
  {
    match q
    case Requests => Total(b.calls)
    case Calls(p) => Count(b.calls, p)
    case Failures => Total(b.errors)
    case Errors(p) => Count(b.errors, p)
    case Via(t) => Count(b.transport, t)
    case Chains => b.bootChains
    case ChainsOf(a) => Count(b.chainsBy, a)
    case Opens => b.socketsOpened
    case Closes => b.socketsClosed
    case Refusals => b.socketsRefused
    case Ceilings => b.atCeiling
    case SlowOnes => b.slowBodies
  }

  predicate OfCall(q: Query)
  {
    q.Requests? || q.Calls? || q.Failures? || q.Errors? || q.Via?
  }

  lemma BodyCounts(b: Bucket, r: Request, q: Query)
    ensures Counter(AppliedBody(b, r), q) == Counter(b, q) + One(q.SlowOnes? && Matches(Served(r), q))
  {}

  lemma CallStep(b: Bucket, r: Request, q: Query)
    ensures Counter(AppliedCall(b, r), q) == Counter(b, q) + One(OfCall(q) && Matches(Served(r), q))
  {
    if q.Requests? { TotalBumped(b.calls, r.path); }
    if q.Failures? && r.status >= 500 { TotalBumped(b.errors, r.path); }
  }

  lemma AccountCounts(b: Bucket, r: Request, q: Query)
    ensures Counter(AppliedAccount(b, r), q) == Counter(b, q) + One((q.Chains? || q.ChainsOf?) && Matches(Served(r), q))
  {}

  lemma PoolCounts(b: Bucket, r: Request, q: Query)
    ensures Counter(AppliedPool(b, r), q) == Counter(b, q) + One(q.Ceilings? && Matches(Served(r), q))
  {}

  lemma RequestStep(b: Bucket, r: Request, q: Query)
    ensures Counter(AppliedRequest(b, r), q) == Counter(b, q) + One(Matches(Served(r), q))
  {
    var c := AppliedBody(b, r);
    BodyCounts(b, r, q);
    CallStep(c, r, q);
    AccountCounts(AppliedCall(c, r), r, q);
    PoolCounts(AppliedAccount(AppliedCall(c, r), r), r, q);
  }

  lemma SocketsOnly(b: Bucket, q: Query, os: nat, cs: nat, rs: nat)
    ensures Counter(b.(socketsOpened := os, socketsClosed := cs, socketsRefused := rs), q) ==
            match q case Opens => os case Closes => cs case Refusals => rs case _ => Counter(b, q)
  {}

  lemma SocketStep(b: Bucket, e: Event, q: Query)
    requires !e.Served?
    ensures Counter(Applied(b, e), q) == Counter(b, q) + One(Matches(e, q))
  {
    if e.Socket? {
      SocketsOnly(b, q, b.socketsOpened + One(e.opens), b.socketsClosed + One(!e.opens), b.socketsRefused);
    } else {
      SocketsOnly(b, q, b.socketsOpened, b.socketsClosed, b.socketsRefused + 1);
    }
  }

  lemma CounterStep(b: Bucket, e: Event, q: Query)
    ensures Counter(Applied(b, e), q) == Counter(b, q) + One(Matches(e, q))
  {
    if e.Served? {
      RequestStep(b, e.r, q);
      assert Applied(b, e) == AppliedRequest(b, e.r);
    } else {
      SocketStep(b, e, q);
    }
  }

  /** Every counter of a minute is the number of events of that minute that belong
      to it, whatever the log. */
  lemma {:induction false} MinuteCounts(log: Log, m: int, q: Query)
    ensures Counter(MinuteOf(log, m), q) == Tally(log, m, m, q)
  {
    if log != [] {
      var front, e := log[..|log| - 1], log[|log| - 1];
      MinuteCounts(front, m, q);
      CounterStep(MinuteOf(front, m), e.event, q);
    } else {
      assert Total(map[]) == 0;
    }
  }

  lemma LaterPartsKeepMeasures(b: Bucket, r: Request)
    ensures var b' := AppliedPool(AppliedAccount(b, r), r);
            b'.seconds == b.seconds && b'.worst == b.worst && b'.calls == b.calls
  {}

  lemma MeasureStep(b: Bucket, e: Event, p: nat)
    ensures var b' := Applied(b, e);
            && Amount(b'.seconds, p) == Amount(b.seconds, p) + (if Matches(e, Calls(p)) then e.r.seconds else 0.0)
            && Amount(b'.worst, p) ==
                 (if Matches(e, Calls(p)) then Larger(Amount(b.worst, p), e.r.seconds) else Amount(b.worst, p))
            && (p in b'.calls <==> p in b.calls || Matches(e, Calls(p)))
  {
    if e.Served? {
      LaterPartsKeepMeasures(AppliedCall(AppliedBody(b, e.r), e.r), e.r);
      assert Applied(b, e) == AppliedRequest(b, e.r);
    }
  }

  /** Sums and maxima are over exactly the calls of that minute. */
  lemma {:induction false} MinuteMeasures(log: Log, m: int, p: nat)
    ensures var b := MinuteOf(log, m);
            && Amount(b.seconds, p) == SecondsOn(log, m, m, p)
            && Amount(b.worst, p) == WorstOn(log, m, m, p)
            && (p in b.calls <==> Tally(log, m, m, Calls(p)) > 0)
  {
    if log != [] {
      var front, e := log[..|log| - 1], log[|log| - 1];
      MinuteMeasures(front, m, p);
      MeasureStep(MinuteOf(front, m), e.event, p);
    }
  }

  lemma AccountStep(b: Bucket, e: Event, a: nat)
    ensures a in Applied(b, e).accounts <==> a in b.accounts || (e.Served? && e.r.account == Some(a))
  {}

  /** The account set of a minute holds exactly the accounts seen in it. */
  lemma {:induction false} MinuteAccounts(log: Log, m: int, a: nat)
    ensures a in MinuteOf(log, m).accounts <==> SeenIn(log, m, a)
  {
    if log != [] {
      var front, e := log[..|log| - 1], log[|log| - 1];
      MinuteAccounts(front, m, a);
      AccountStep(MinuteOf(front, m), e.event, a);
    }
  }

  // ----- snapshot

  /** The buckets of `minutes` minutes from `first` on, oldest first. */
  function Wanted(ring: Ring, first: int, minutes: nat): (w: seq<Bucket>)
    ensures |w| == minutes
  {
    if minutes == 0 then [] else Wanted(ring, first, minutes - 1) + [At(ring, first + minutes - 1)]
  }

  /** The same minutes of the whole log. */
  function WantedOfLog(log: Log, first: int, minutes: nat): (w: seq<Bucket>)
    ensures |w| == minutes
  {
    if minutes == 0 then [] else WantedOfLog(log, first, minutes - 1) + [MinuteOf(log, first + minutes - 1)]
  }

  /** The first minute a snapshot shows. */
  function First(now: nat, minutes: nat): int
  {
    now - minutes + 1
  }

  lemma {:induction false} RingSees(log: Log, k: int)
    requires Nondecreasing(log) && (log != [] ==> k > log[|log| - 1].minute - WINDOW_MINUTES)
    ensures At(RingOf(log), k) == MinuteOf(log, k)
  {
    if log != [] { RingAgrees(log, k); }
  }

  lemma {:induction false} WantedAgrees(log: Log, first: int, minutes: nat)
    requires Nondecreasing(log)
    requires log != [] ==> first > log[|log| - 1].minute - WINDOW_MINUTES
    ensures Wanted(RingOf(log), first, minutes) == WantedOfLog(log, first, minutes)
  {
    if minutes > 0 {
      WantedAgrees(log, first, minutes - 1);
      RingSees(log, first + minutes - 1);
      OneMoreWanted(RingOf(log), log, first, minutes);
    }
  }

  lemma {:induction false} OneMoreWanted(ring: Ring, log: Log, first: int, minutes: nat)
    requires minutes > 0 && Wanted(ring, first, minutes - 1) == WantedOfLog(log, first, minutes - 1)
    requires At(ring, first + minutes - 1) == MinuteOf(log, first + minutes - 1)
    ensures Wanted(ring, first, minutes) == WantedOfLog(log, first, minutes)
  {}

  /** A snapshot of up to an hour sees exactly what the whole log says. */
  lemma {:induction false} SnapshotSeesLog(log: Log, now: nat, minutes: nat)
    requires Nondecreasing(log) && (log != [] ==> log[|log| - 1].minute <= now) && minutes <= WINDOW_MINUTES
    ensures Wanted(RingOf(log), First(now, minutes), minutes) == WantedOfLog(log, First(now, minutes), minutes)
  {
    WantedAgrees(log, First(now, minutes), minutes);
  }

  datatype PathTotal = PathTotal(calls: nat, seconds: real, errors: nat, worst: real)

  const NO_CALLS: PathTotal := PathTotal(0, 0.0, 0, 0.0)

  /** One bucket added to the totals of a path. */
  function Added(t: PathTotal, b: Bucket, p: nat): PathTotal
  {
    if p in b.calls
    then PathTotal(t.calls + b.calls[p], t.seconds + Amount(b.seconds, p),
                   t.errors + Count(b.errors, p), Larger(t.worst, Amount(b.worst, p)))
    else t
  }

  function Summed(wanted: seq<Bucket>, p: nat): PathTotal
  {
    if wanted == [] then NO_CALLS
    else Added(Summed(wanted[..|wanted| - 1], p), wanted[|wanted| - 1], p)
  }

  type Totals = map<nat, PathTotal>

  function TotalOf(t: Totals, p: nat): PathTotal
  {
    if p in t then t[p] else NO_CALLS
  }

  /** The inner loop of the roll-up: every path of one bucket. */
  method AddBucket(before: Totals, b: Bucket) returns (t: Totals)
    ensures t.Keys == before.Keys + b.calls.Keys
    ensures forall p: nat :: TotalOf(t, p) == Added(TotalOf(before, p), b, p)
  {
    t := before;
    var todo := b.calls.Keys;
    while todo != {}
      invariant todo <= b.calls.Keys && t.Keys == before.Keys + (b.calls.Keys - todo)
      invariant forall p: nat :: TotalOf(t, p) == if p in todo then TotalOf(before, p) else Added(TotalOf(before, p), b, p)
      decreases todo
    {
      var p := Take(todo);
      t := t[p := Added(TotalOf(t, p), b, p)];
      todo := todo - {p};
    }
  }

  /** The per-path roll-up: a path is listed when some bucket has calls on it. */
  method RollUp(wanted: seq<Bucket>) returns (t: Totals)
    ensures forall p: nat :: TotalOf(t, p) == Summed(wanted, p)
    ensures forall p: nat :: p in t <==> exists i :: 0 <= i < |wanted| && p in wanted[i].calls
  {
    t := map[];
    for i := 0 to |wanted|
      invariant forall p: nat :: TotalOf(t, p) == Summed(wanted[..i], p)
      invariant forall p: nat :: p in t <==> exists j :: 0 <= j < i && p in wanted[j].calls
    {
      t := AddBucket(t, wanted[i]);
      assert wanted[..i + 1][..i] == wanted[..i];
    }
    assert wanted[..|wanted|] == wanted;
  }

  // ranges of minutes split at their end

  lemma {:induction false} TallySplit(log: Log, lo: int, hi: int, q: Query)
    requires lo <= hi
    ensures Tally(log, lo, hi, q) == Tally(log, lo, hi - 1, q) + Tally(log, hi, hi, q)
  {
    if log != [] { TallySplit(log[..|log| - 1], lo, hi, q); }
  }

  lemma {:induction false} MeasuresSplit(log: Log, lo: int, hi: int, p: nat)
    requires lo <= hi
    ensures SecondsOn(log, lo, hi, p) == SecondsOn(log, lo, hi - 1, p) + SecondsOn(log, hi, hi, p)
    ensures WorstOn(log, lo, hi, p) == Larger(WorstOn(log, lo, hi - 1, p), WorstOn(log, hi, hi, p))
  {
    if log != [] { MeasuresSplit(log[..|log| - 1], lo, hi, p); }
  }

  lemma {:induction false} NoCallsNoMeasures(log: Log, lo: int, hi: int, p: nat)
    ensures Tally(log, lo, hi, Errors(p)) <= Tally(log, lo, hi, Calls(p))
    ensures Tally(log, lo, hi, Calls(p)) == 0 ==> SecondsOn(log, lo, hi, p) == 0.0 && WorstOn(log, lo, hi, p) == 0.0
    ensures WorstOn(log, lo, hi, p) >= 0.0
    ensures lo > hi ==> Tally(log, lo, hi, Calls(p)) == 0
  {
    if log != [] { NoCallsNoMeasures(log[..|log| - 1], lo, hi, p); }
  }

  /** The totals of a path are those of the whole log over the same minutes. */
  function PathOfLog(log: Log, lo: int, hi: int, p: nat): PathTotal
  {
    PathTotal(Tally(log, lo, hi, Calls(p)), SecondsOn(log, lo, hi, p), Tally(log, lo, hi, Errors(p)), WorstOn(log, lo, hi, p))
  }

  lemma {:induction false} MinuteTotals(log: Log, m: int, p: nat)
    ensures Added(NO_CALLS, MinuteOf(log, m), p) == PathOfLog(log, m, m, p)
  {
    MinuteCounts(log, m, Calls(p));
    MinuteCounts(log, m, Errors(p));
    MinuteMeasures(log, m, p);
    NoCallsNoMeasures(log, m, m, p);
  }

  /** Combining the totals of two stretches of minutes. */
  function Joined(s: PathTotal, t: PathTotal): PathTotal
  {
    PathTotal(s.calls + t.calls, s.seconds + t.seconds, s.errors + t.errors, Larger(s.worst, t.worst))
  }

  lemma AddedIsJoined(s: PathTotal, b: Bucket, p: nat)
    requires s.worst >= 0.0
    ensures Added(s, b, p) == Joined(s, Added(NO_CALLS, b, p))
  {}

  lemma JoinMinute(log: Log, lo: int, hi: int, p: nat)
    requires lo <= hi
    ensures PathOfLog(log, lo, hi, p) == Joined(PathOfLog(log, lo, hi - 1, p), PathOfLog(log, hi, hi, p))
  {
    TallySplit(log, lo, hi, Calls(p));
    TallySplit(log, lo, hi, Errors(p));
    MeasuresSplit(log, lo, hi, p);
  }

  lemma PathSplit(log: Log, lo: int, hi: int, p: nat)
    requires lo <= hi
    ensures Added(PathOfLog(log, lo, hi - 1, p), MinuteOf(log, hi), p) == PathOfLog(log, lo, hi, p)
  {
    NoCallsNoMeasures(log, lo, hi - 1, p);
    AddedIsJoined(PathOfLog(log, lo, hi - 1, p), MinuteOf(log, hi), p);
    MinuteTotals(log, hi, p);
    JoinMinute(log, lo, hi, p);
  }

  lemma {:induction false} SummedStep(log: Log, lo: int, hi: int, p: nat, wanted: seq<Bucket>, b: Bucket)
    requires Summed(wanted, p) == PathOfLog(log, lo, hi - 1, p)
    requires Added(PathOfLog(log, lo, hi - 1, p), b, p) == PathOfLog(log, lo, hi, p)
    ensures Summed(wanted + [b], p) == PathOfLog(log, lo, hi, p)
  {
    assert (wanted + [b])[..|wanted|] == wanted;
  }

  lemma {:induction false} WantedSnoc(log: Log, first: int, n: nat)
    requires n > 0
    ensures WantedOfLog(log, first, n) == WantedOfLog(log, first, n - 1) + [MinuteOf(log, first + n - 1)]
  {}

  lemma {:induction false} SummedNone(log: Log, first: int, p: nat)
    ensures Summed(WantedOfLog(log, first, 0), p) == PathOfLog(log, first, first - 1, p)
  {
    assert WantedOfLog(log, first, 0) == [];
    NoCallsNoMeasures(log, first, first - 1, p);
  }

  lemma {:induction false} SummedNext(log: Log, first: int, n: nat, p: nat)
    requires n > 0 && Summed(WantedOfLog(log, first, n - 1), p) == PathOfLog(log, first, first + n - 2, p)
    ensures Summed(WantedOfLog(log, first, n), p) == PathOfLog(log, first, first + n - 1, p)
  {
    var hi := first + n - 1;
    WantedSnoc(log, first, n);
    PathSplit(log, first, hi, p);
    SummedStep(log, first, hi, p, WantedOfLog(log, first, n - 1), MinuteOf(log, hi));
  }

  lemma {:induction false} SummedUpTo(log: Log, first: int, n: nat, p: nat)
    ensures Summed(WantedOfLog(log, first, n), p) == PathOfLog(log, first, first + n - 1, p)
  {
    if n == 0 {
      SummedNone(log, first, p);
    } else {
      SummedUpTo(log, first, n - 1, p);
      SummedNext(log, first, n, p);
    }
  }

  /** The roll-up over a snapshot of up to an hour: calls, seconds, errors and the
      slowest call of every path, counted from the events themselves. */
  lemma {:induction false} PathTotalsAreTheLogs(log: Log, now: nat, minutes: nat, p: nat)
    requires Nondecreasing(log) && (log != [] ==> log[|log| - 1].minute <= now) && minutes <= WINDOW_MINUTES
    ensures Summed(Wanted(RingOf(log), First(now, minutes), minutes), p) ==
            PathOfLog(log, First(now, minutes), now, p)
  {
    SnapshotSeesLog(log, now, minutes);
    SummedUpTo(log, First(now, minutes), minutes, p);
  }

  // ----- the series

  datatype Row = Row(
    minute: int, requests: nat, errors: nat, accounts: nat, bootChains: nat,
    socketsOpened: nat, socketsClosed: nat, socketsRefused: nat, poolPeak: int, atCeiling: nat, busiest: nat)

  /** `max(values, default=0)` */
  ghost predicate IsBusiest(c: Counts, v: nat)
  {
    && (forall k | k in c :: c[k] <= v)
    && (if c == map[] then v == 0 else exists k :: k in c && c[k] == v)
  }

  ghost predicate RowOf(row: Row, minute: int, b: Bucket)
  {
    && row.minute == minute && row.requests == Total(b.calls) && row.errors == Total(b.errors)
    && row.accounts == |b.accounts| && row.bootChains == b.bootChains
    && row.socketsOpened == b.socketsOpened && row.socketsClosed == b.socketsClosed
    && row.socketsRefused == b.socketsRefused && row.poolPeak == b.poolPeak && row.atCeiling == b.atCeiling
    && IsBusiest(b.chainsBy, row.busiest)
  }

  method SumValues(c: Counts) returns (n: nat)
    ensures n == Total(c)
  {
    n := 0;
    var rest := c;
    while rest.Keys != {}
      invariant n + Total(rest) == Total(c)
      decreases rest.Keys
    {
      var k := Take(rest.Keys);
      TotalRemove(rest, k);
      n := n + rest[k];
      rest := rest - {k};
    }
    assert rest == map[];
  }

  method MaxValue(c: Counts) returns (v: nat)
    ensures IsBusiest(c, v)
  {
    v := 0;
    var todo := c.Keys;
    ghost var best: Option<nat> := None;
    while todo != {}
      invariant todo <= c.Keys
      invariant forall k | k in c && k !in todo :: c[k] <= v
      invariant best.None? ==> v == 0 && todo == c.Keys
      invariant best.Some? ==> best.value in c && c[best.value] == v
      decreases todo
    {
      var k := Take(todo);
      if best.None? || c[k] > v { best := Some(k); }
      if c[k] > v { v := c[k]; }
      todo := todo - {k};
    }
    if best.None? { assert c == map[]; }
  }

  method Series(wanted: seq<Bucket>, first: int) returns (rows: seq<Row>)
    ensures |rows| == |wanted| && forall i | 0 <= i < |wanted| :: RowOf(rows[i], first + i, wanted[i])
  {
    rows := [];
    for i := 0 to |wanted|
      invariant |rows| == i && forall j | 0 <= j < i :: RowOf(rows[j], first + j, wanted[j])
    {
      var b := wanted[i];
      var requests := SumValues(b.calls);
      var errors := SumValues(b.errors);
      var busiest := MaxValue(b.chainsBy);
      rows := rows + [Row(first + i, requests, errors, |b.accounts|, b.bootChains, b.socketsOpened,
                          b.socketsClosed, b.socketsRefused, b.poolPeak, b.atCeiling, busiest)];
    }
  }

  /** The most connections any request of the minute found in use, at least zero. */
  function PeakIn(log: Log, m: int): int
  {
    if log == [] then 0
    else
      var e, peak := log[|log| - 1], PeakIn(log[..|log| - 1], m);
      if During(e, m, m) && e.event.Served? && e.event.r.poolInUse.Some? && e.event.r.poolInUse.value > peak
      then e.event.r.poolInUse.value else peak
  }

  lemma CallKeepsPeak(b: Bucket, r: Request)
    ensures AppliedAccount(AppliedCall(AppliedBody(b, r), r), r).poolPeak == b.poolPeak
  {}

  lemma PeakStep(b: Bucket, e: Event)
    ensures Applied(b, e).poolPeak ==
            if e.Served? && e.r.poolInUse.Some? && e.r.poolInUse.value > b.poolPeak
            then e.r.poolInUse.value else b.poolPeak
  {
    if e.Served? { CallKeepsPeak(b, e.r); }
  }

  lemma {:induction false} MinutePeak(log: Log, m: int)
    ensures MinuteOf(log, m).poolPeak == PeakIn(log, m)
  {
    if log != [] {
      MinutePeak(log[..|log| - 1], m);
      PeakStep(MinuteOf(log[..|log| - 1], m), log[|log| - 1].event);
    }
  }

  /** What a row says, counted from the events of its minute. */
  ghost predicate RowOfLog(row: Row, log: Log)
  {
    var m := row.minute;
    && row.requests == Tally(log, m, m, Requests) && row.errors == Tally(log, m, m, Failures)
    && row.bootChains == Tally(log, m, m, Chains) && row.atCeiling == Tally(log, m, m, Ceilings)
    && row.socketsOpened == Tally(log, m, m, Opens) && row.socketsClosed == Tally(log, m, m, Closes)
    && row.socketsRefused == Tally(log, m, m, Refusals) && row.poolPeak == PeakIn(log, m)
  }

  /** `accounts` is the number of distinct accounts seen in the minute. */
  ghost predicate DistinctOfLog(row: Row, log: Log)
  {
    exists seen: set<nat> :: |seen| == row.accounts && forall a: nat :: a in seen <==> SeenIn(log, row.minute, a)
  }

  /** `busiest` is the largest number of boot chains of one account. */
  ghost predicate BusiestOfLog(row: Row, log: Log)
  {
    && (forall a: nat :: Tally(log, row.minute, row.minute, ChainsOf(a)) <= row.busiest)
    && (row.busiest > 0 ==> exists a: nat :: Tally(log, row.minute, row.minute, ChainsOf(a)) == row.busiest)
  }

  lemma {:induction false} RowCounts(log: Log, m: int, row: Row)
    requires RowOf(row, m, MinuteOf(log, m))
    ensures RowOfLog(row, log)
  {
    MinuteCounts(log, m, Requests);
    MinuteCounts(log, m, Failures);
    MinuteCounts(log, m, Chains);
    MinuteCounts(log, m, Ceilings);
    MinuteCounts(log, m, Opens);
    MinuteCounts(log, m, Closes);
    MinuteCounts(log, m, Refusals);
    MinutePeak(log, m);
  }

  lemma {:induction false} RowAccounts(log: Log, m: int, row: Row)
    requires RowOf(row, m, MinuteOf(log, m))
    ensures DistinctOfLog(row, log) && BusiestOfLog(row, log)
  {
    var b := MinuteOf(log, m);
    forall a: nat ensures a in b.accounts <==> SeenIn(log, m, a) {
      MinuteAccounts(log, m, a);
    }
    forall a: nat ensures Tally(log, m, m, ChainsOf(a)) == Count(b.chainsBy, a) {
      MinuteCounts(log, m, ChainsOf(a));
    }
    if row.busiest > 0 {
      var a :| a in b.chainsBy && b.chainsBy[a] == row.busiest;
      assert Tally(log, m, m, ChainsOf(a)) == row.busiest;
    }
  }

  lemma {:induction false} WantedAt(ring: Ring, first: int, minutes: nat, i: nat)
    requires i < minutes
    ensures Wanted(ring, first, minutes)[i] == At(ring, first + i)
  {
    if i < minutes - 1 { WantedAt(ring, first, minutes - 1, i); }
  }

  /** Every row of a snapshot of up to an hour is what the events of its minute say. */
  lemma {:induction false} RowIsTheLogs(log: Log, now: nat, minutes: nat, i: nat, row: Row)
    requires Nondecreasing(log) && (log != [] ==> log[|log| - 1].minute <= now)
    requires i < minutes <= WINDOW_MINUTES
    requires RowOf(row, First(now, minutes) + i, Wanted(RingOf(log), First(now, minutes), minutes)[i])
    ensures row.minute == First(now, minutes) + i
    ensures RowOfLog(row, log) && DistinctOfLog(row, log) && BusiestOfLog(row, log)
  {
    var m := row.minute;
    WantedAt(RingOf(log), First(now, minutes), minutes, i);
    RingSees(log, m);
    RowCounts(log, m, row);
    RowAccounts(log, m, row);
  }

  // ----- totals over the whole snapshot

  ghost function SumOf(wanted: seq<Bucket>, q: Query): nat
  {
    if wanted == [] then 0 else SumOf(wanted[..|wanted| - 1], q) + Counter(wanted[|wanted| - 1], q)
  }

  lemma SumStep(log: Log, lo: int, hi: int, q: Query, wanted: seq<Bucket>, b: Bucket)
    requires lo <= hi && SumOf(wanted, q) == Tally(log, lo, hi - 1, q) && Counter(b, q) == Tally(log, hi, hi, q)
    ensures SumOf(wanted + [b], q) == Tally(log, lo, hi, q)
  {
    assert (wanted + [b])[..|wanted|] == wanted;
    TallySplit(log, lo, hi, q);
  }

  lemma {:induction false} NoMinutes(log: Log, lo: int, q: Query)
    ensures Tally(log, lo, lo - 1, q) == 0
  {
    if log != [] { NoMinutes(log[..|log| - 1], lo, q); }
  }

  lemma {:induction false} SumNone(log: Log, first: int, q: Query)
    ensures SumOf(WantedOfLog(log, first, 0), q) == Tally(log, first, first - 1, q)
  {
    assert WantedOfLog(log, first, 0) == [];
    NoMinutes(log, first, q);
  }

  lemma {:induction false} SumNext(log: Log, first: int, n: nat, q: Query)
    requires n > 0 && SumOf(WantedOfLog(log, first, n - 1), q) == Tally(log, first, first + n - 2, q)
    ensures SumOf(WantedOfLog(log, first, n), q) == Tally(log, first, first + n - 1, q)
  {
    WantedSnoc(log, first, n);
    MinuteCounts(log, first + n - 1, q);
    SumStep(log, first, first + n - 1, q, WantedOfLog(log, first, n - 1), MinuteOf(log, first + n - 1));
  }

  lemma {:induction false} SumUpTo(log: Log, first: int, n: nat, q: Query)
    ensures SumOf(WantedOfLog(log, first, n), q) == Tally(log, first, first + n - 1, q)
  {
    if n == 0 {
      SumNone(log, first, q);
    } else {
      SumUpTo(log, first, n - 1, q);
      SumNext(log, first, n, q);
    }
  }

  /** Any counter summed over a snapshot of up to an hour, transports and slow
      bodies among them, is the number of matching events of those minutes. */
  lemma {:induction false} SumsAreTheLogs(log: Log, now: nat, minutes: nat, q: Query)
    requires Nondecreasing(log) && (log != [] ==> log[|log| - 1].minute <= now) && minutes <= WINDOW_MINUTES
    ensures SumOf(Wanted(RingOf(log), First(now, minutes), minutes), q) == Tally(log, First(now, minutes), now, q)
  {
    SnapshotSeesLog(log, now, minutes);
    SumUpTo(log, First(now, minutes), minutes, q);
  }

  method AddTransport(before: Counts, b: Bucket) returns (c: Counts)
    ensures forall t: nat :: Count(c, t) == Count(before, t) + Count(b.transport, t)
  {
    c := before;
    var todo := b.transport.Keys;
    while todo != {}
      invariant todo <= b.transport.Keys
      invariant forall t: nat :: Count(c, t) == Count(before, t) + if t in todo then 0 else Count(b.transport, t)
      decreases todo
    {
      var t := Take(todo);
      c := c[t := Count(c, t) + b.transport[t]];
      todo := todo - {t};
    }
  }

  method TransportTotals(wanted: seq<Bucket>) returns (c: Counts)
    ensures forall t: nat :: Count(c, t) == SumOf(wanted, Via(t))
  {
    c := map[];
    for i := 0 to |wanted|
      invariant forall t: nat :: Count(c, t) == SumOf(wanted[..i], Via(t))
    {
      c := AddTransport(c, wanted[i]);
      assert wanted[..i + 1][..i] == wanted[..i];
    }
    assert wanted[..|wanted|] == wanted;
  }

  method SlowTotal(wanted: seq<Bucket>) returns (n: nat)
    ensures n == SumOf(wanted, SlowOnes)
  {
    n := 0;
    for i := 0 to |wanted|
      invariant n == SumOf(wanted[..i], SlowOnes)
    {
      n := n + wanted[i].slowBodies;
      assert wanted[..i + 1][..i] == wanted[..i];
    }
    assert wanted[..|wanted|] == wanted;
  }

  /** The slowest slow body of those minutes, zero without one. */
  function SlowestIn(log: Log, lo: int, hi: int): real
  {
    if log == [] then 0.0
    else
      var e, w := log[|log| - 1], SlowestIn(log[..|log| - 1], lo, hi);
      if During(e, lo, hi) && Matches(e.event, SlowOnes) then Larger(w, e.event.r.bodySeconds) else w
  }

  function SlowestOf(wanted: seq<Bucket>): real
  {
    if wanted == [] then 0.0 else Larger(SlowestOf(wanted[..|wanted| - 1]), wanted[|wanted| - 1].slowWorst)
  }

  method SlowWorst(wanted: seq<Bucket>) returns (w: real)
    ensures w == SlowestOf(wanted)
  {
    w := 0.0;
    for i := 0 to |wanted|
      invariant w == SlowestOf(wanted[..i])
    {
      if wanted[i].slowWorst > w { w := wanted[i].slowWorst; }
      assert wanted[..i + 1][..i] == wanted[..i];
    }
    assert wanted[..|wanted|] == wanted;
  }

  lemma LaterPartsKeepSlowest(b: Bucket, r: Request)
    ensures AppliedPool(AppliedAccount(AppliedCall(b, r), r), r).slowWorst == b.slowWorst
  {}

  lemma SlowestStep(b: Bucket, e: Event)
    ensures Applied(b, e).slowWorst ==
            if Matches(e, SlowOnes) then Larger(b.slowWorst, e.r.bodySeconds) else b.slowWorst
  {
    if e.Served? { LaterPartsKeepSlowest(AppliedBody(b, e.r), e.r); }
  }

  lemma {:induction false} MinuteSlowest(log: Log, m: int)
    ensures MinuteOf(log, m).slowWorst == SlowestIn(log, m, m)
  {
    if log != [] {
      MinuteSlowest(log[..|log| - 1], m);
      SlowestStep(MinuteOf(log[..|log| - 1], m), log[|log| - 1].event);
    }
  }

  lemma {:induction false} SlowestSplit(log: Log, lo: int, hi: int)
    requires lo <= hi
    ensures SlowestIn(log, lo, hi) == Larger(SlowestIn(log, lo, hi - 1), SlowestIn(log, hi, hi))
  {
    if log != [] { SlowestSplit(log[..|log| - 1], lo, hi); }
  }

  lemma {:induction false} NoMinutesNoneSlow(log: Log, lo: int)
    ensures SlowestIn(log, lo, lo - 1) == 0.0
  {
    if log != [] { NoMinutesNoneSlow(log[..|log| - 1], lo); }
  }

  lemma SlowestJoins(log: Log, lo: int, hi: int, wanted: seq<Bucket>, b: Bucket)
    requires lo <= hi && SlowestOf(wanted) == SlowestIn(log, lo, hi - 1) && b.slowWorst == SlowestIn(log, hi, hi)
    ensures SlowestOf(wanted + [b]) == SlowestIn(log, lo, hi)
  {
    assert (wanted + [b])[..|wanted|] == wanted;
    SlowestSplit(log, lo, hi);
  }

  lemma {:induction false} SlowestNone(log: Log, first: int)
    ensures SlowestOf(WantedOfLog(log, first, 0)) == SlowestIn(log, first, first - 1)
  {
    assert WantedOfLog(log, first, 0) == [];
    NoMinutesNoneSlow(log, first);
  }

  lemma {:induction false} SlowestNext(log: Log, first: int, n: nat)
    requires n > 0 && SlowestOf(WantedOfLog(log, first, n - 1)) == SlowestIn(log, first, first + n - 2)
    ensures SlowestOf(WantedOfLog(log, first, n)) == SlowestIn(log, first, first + n - 1)
  {
    WantedSnoc(log, first, n);
    MinuteSlowest(log, first + n - 1);
    SlowestJoins(log, first, first + n - 1, WantedOfLog(log, first, n - 1), MinuteOf(log, first + n - 1));
  }

  lemma {:induction false} SlowestUpTo(log: Log, first: int, n: nat)
    ensures SlowestOf(WantedOfLog(log, first, n)) == SlowestIn(log, first, first + n - 1)
  {
    if n == 0 {
      SlowestNone(log, first);
    } else {
      SlowestUpTo(log, first, n - 1);
      SlowestNext(log, first, n);
    }
  }

  /** The slowest body over a snapshot of up to an hour is the slowest slow body the
      log holds for those minutes. */
  lemma {:induction false} SlowestIsTheLogs(log: Log, now: nat, minutes: nat)
    requires Nondecreasing(log) && (log != [] ==> log[|log| - 1].minute <= now) && minutes <= WINDOW_MINUTES
    ensures SlowestOf(Wanted(RingOf(log), First(now, minutes), minutes)) == SlowestIn(log, First(now, minutes), now)
  {
    SnapshotSeesLog(log, now, minutes);
    SlowestUpTo(log, First(now, minutes), minutes);
  }

  // ----- the series and the roll-up agree

  ghost function RequestsIn(wanted: seq<Bucket>): nat
  {
    if wanted == [] then 0 else RequestsIn(wanted[..|wanted| - 1]) + Total(wanted[|wanted| - 1].calls)
  }

  function Plus(a: Counts, b: Counts): Counts
  {
    map p | p in a.Keys + b.Keys :: Count(a, p) + Count(b, p)
  }

  lemma {:induction false} TotalPlus(a: Counts, b: Counts)
    ensures Total(Plus(a, b)) == Total(a) + Total(b)
    decreases b.Keys
  {
    if b.Keys == {} {
      assert b == map[];
      assert Plus(a, b) == a;
    } else {
      var k := Pick(b.Keys);
      TotalRemove(Plus(a, b), k);
      TotalRemove(b, k);
      TotalPlus(a - {k}, b - {k});
      PlusRemove(a, b, k);
      TotalWithout(a, k);
    }
  }

  lemma PlusRemove(a: Counts, b: Counts, k: nat)
    ensures Plus(a, b) - {k} == Plus(a - {k}, b - {k})
  {}

  lemma {:induction false} TotalWithout(a: Counts, k: nat)
    ensures Total(a) == Count(a, k) + Total(a - {k})
  {
    if k in a { TotalRemove(a, k); } else { assert a - {k} == a; }
  }

  function CallsOf(t: Totals): Counts
  {
    map p | p in t :: t[p].calls
  }

  ghost function CallCounts(wanted: seq<Bucket>): Counts
  {
    if wanted == [] then map[] else Plus(CallCounts(wanted[..|wanted| - 1]), wanted[|wanted| - 1].calls)
  }

  lemma {:induction false} CallCountsAre(wanted: seq<Bucket>, p: nat)
    ensures p in CallCounts(wanted) <==> exists i :: 0 <= i < |wanted| && p in wanted[i].calls
    ensures Count(CallCounts(wanted), p) == Summed(wanted, p).calls
  {
    if wanted != [] {
      var front, last := wanted[..|wanted| - 1], |wanted| - 1;
      CallCountsAre(front, p);
      if p in wanted[last].calls {
        assert exists i :: 0 <= i < |wanted| && p in wanted[i].calls;
      } else if exists i :: 0 <= i < |wanted| && p in wanted[i].calls {
        var i :| 0 <= i < |wanted| && p in wanted[i].calls;
        assert front[i] == wanted[i];
      }
    }
  }

  lemma {:induction false} CallCountsTotal(wanted: seq<Bucket>)
    ensures Total(CallCounts(wanted)) == RequestsIn(wanted)
  {
    if wanted != [] {
      var front := wanted[..|wanted| - 1];
      CallCountsTotal(front);
      TotalPlus(CallCounts(front), wanted[|wanted| - 1].calls);
    }
  }

  /** The requests of the series add up to the calls of the untruncated roll-up. */
  lemma {:induction false} SeriesMatchesRollUp(wanted: seq<Bucket>, t: Totals)
    requires forall p: nat :: TotalOf(t, p) == Summed(wanted, p)
    requires forall p: nat :: p in t <==> exists i :: 0 <= i < |wanted| && p in wanted[i].calls
    ensures Total(CallsOf(t)) == RequestsIn(wanted)
  {
    var c := CallCounts(wanted);
    forall p: nat ensures (p in c <==> p in t) && (p in t ==> c[p] == t[p].calls) {
      CallCountsAre(wanted, p);
    }
    assert c == CallsOf(t);
    CallCountsTotal(wanted);
  }

  // ----- the top paths

  datatype Listed = Listed(path: nat, total: PathTotal)

  function Inserted(x: Listed, s: seq<Listed>): (r: seq<Listed>)
    ensures |r| == |s| + 1
  {
    if s == [] || x.total.seconds >= s[0].total.seconds then [x] + s else [s[0]] + Inserted(x, s[1..])
  }

  /** `sorted(..., key=seconds, reverse=True)` */
  function Ranked(s: seq<Listed>): (r: seq<Listed>)
    ensures |r| == |s|
  {
    if s == [] then [] else Inserted(s[0], Ranked(s[1..]))
  }

  predicate Descending(s: seq<Listed>)
  {
    forall i, j | 0 <= i <= j < |s| :: s[i].total.seconds >= s[j].total.seconds
  }

  lemma {:induction false} InsertedElements(x: Listed, s: seq<Listed>)
    ensures multiset(Inserted(x, s)) == multiset(s) + multiset{x}
  {
    if s != [] && x.total.seconds < s[0].total.seconds {
      InsertedElements(x, s[1..]);
      assert s == [s[0]] + s[1..];
    }
  }

  /** No element of a list is heavier than `top`. */
  predicate AllBelow(s: seq<Listed>, top: real)
  {
    forall i | 0 <= i < |s| :: top >= s[i].total.seconds
  }

  lemma {:induction false} InsertedBelow(x: Listed, s: seq<Listed>, top: real)
    requires AllBelow(s, top) && top >= x.total.seconds
    ensures AllBelow(Inserted(x, s), top)
  {
    if s != [] && x.total.seconds < s[0].total.seconds {
      InsertedBelow(x, s[1..], top);
    }
  }

  lemma DescendingCons(x: Listed, s: seq<Listed>)
    requires Descending(s) && AllBelow(s, x.total.seconds)
    ensures Descending([x] + s)
  {}

  lemma {:induction false} InsertedRanks(x: Listed, s: seq<Listed>)
    requires Descending(s)
    ensures Descending(Inserted(x, s))
  {
    if s == [] || x.total.seconds >= s[0].total.seconds {
      DescendingCons(x, s);
    } else {
      InsertedRanks(x, s[1..]);
      InsertedBelow(x, s[1..], s[0].total.seconds);
      DescendingCons(s[0], Inserted(x, s[1..]));
    }
  }

  lemma {:induction false} RankedIs(s: seq<Listed>)
    ensures Descending(Ranked(s)) && multiset(Ranked(s)) == multiset(s)
  {
    if s != [] {
      RankedIs(s[1..]);
      InsertedRanks(s[0], Ranked(s[1..]));
      InsertedElements(s[0], Ranked(s[1..]));
      assert s == [s[0]] + s[1..];
    }
  }

  function Top(s: seq<Listed>, n: nat): seq<Listed>
  {
    if |s| <= n then Ranked(s) else Ranked(s)[..n]
  }

  /** Truncation keeps the heaviest paths: what is left out, with repeats, is the
      rest of the roll-up, and none of it outranks a path that is kept. */
  lemma OmittedNeverOutrank(s: seq<Listed>, n: nat) returns (omitted: seq<Listed>)
    ensures multiset(Top(s, n)) + multiset(omitted) == multiset(s)
    ensures forall x, y | x in Top(s, n) && y in omitted :: x.total.seconds >= y.total.seconds
    ensures omitted != [] ==> |Top(s, n)| == n
  {
    RankedIs(s);
    var r := Ranked(s);
    omitted := if |s| <= n then [] else r[n..];
    if |s| > n { assert r == r[..n] + r[n..]; }
  }
}
