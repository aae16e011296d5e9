/** The in-process fallback window: a map from keys to deques of accepted times,
    cleared as a whole when it grows past a cap. */
module LocalWindow {
  import opened Basics
  import opened Sets

  const MAX_KEYS: int := 20000

  /** `hits[0]` of an empty deque raises IndexError, which happens when the
      limit admits nothing. */
  datatype Outcome = Allowed | Refused(retryAfter: int) | IndexError

  datatype Rule = Rule(limit: int, window: int)

  /** `rl:<rule>:<bucket>`. A rule's name stands for its one limit and window. */
  datatype Key = Key(rule: Rule, bucket: string)

  // ----- one deque

  function Popped(d: seq<real>, cutoff: real): seq<real>
  {
    if d != [] && d[0] < cutoff then Popped(d[1..], cutoff) else d
  }

  function Decision(d: seq<real>, now: real, rule: Rule): Outcome
  {
    var p := Popped(d, now - rule.window as real);
    if |p| < rule.limit then Allowed
    else if p == [] then IndexError
    else Refused(Max(1, (p[0] + rule.window as real - now).Floor))
  }

  function Kept(d: seq<real>, now: real, rule: Rule): seq<real>
  {
    var p := Popped(d, now - rule.window as real);
    if |p| < rule.limit then p + [now] else p
  }

  // ----- the map

  type Hits = map<Key, seq<real>>

  function Opened(m: Hits, key: Key): Hits
  {
    var m' := if |m| > MAX_KEYS then map[] else m;
    if key in m' then m' else m'[key := []]
  }

  function After(m: Hits, key: Key, now: real, rule: Rule): Hits
  {
    var o := Opened(m, key);
    o[key := Kept(o[key], now, rule)]
  }

  class LocalHits {
    var hits: Hits

    constructor ()
      ensures hits == map[]
    {
      hits := map[];
    }

    method LocalAllow(key: Key, limit: int, window: int, now: real) returns (r: Outcome)
      modifies this
      ensures r == Decision(Opened(old(hits), key)[key], now, Rule(limit, window))
      ensures hits == After(old(hits), key, now, Rule(limit, window))
    {
      if |hits| > MAX_KEYS { hits := map[]; }
      if key !in hits { hits := hits[key := []]; }
      var d := hits[key];
      var cutoff := now - window as real;
      while d != [] && d[0] < cutoff
        invariant Popped(d, cutoff) == Popped(hits[key], cutoff)
        decreases |d|
      {
        d := d[1..];
      }
      hits := hits[key := d];
      if |d| >= limit {
        if d == [] { return IndexError; }
        return Refused(Max(1, (d[0] + window as real - now).Floor));
      }
      hits := hits[key := d + [now]];
      return Allowed;
    }
  }

  // ----- every run of calls

  datatype Call = Call(key: Key, now: real)

  /** The calls come in order of time, the last no later than `last`. */
  predicate Timely(calls: seq<Call>, last: real)
  {
    calls != [] ==> calls[|calls| - 1].now <= last && Timely(calls[..|calls| - 1], calls[|calls| - 1].now)
  }

  predicate Nondecreasing(calls: seq<Call>)
  {
    calls != [] ==> Timely(calls[..|calls| - 1], calls[|calls| - 1].now)
  }

  function Run(calls: seq<Call>): Hits
  {
    if calls == [] then map[]
    else
      var c := calls[|calls| - 1];
      After(Run(calls[..|calls| - 1]), c.key, c.now, c.key.rule)
  }

  /** The same step on histories, from which nothing is ever popped. */
  function Recorded(m: Hits, h: Hits, key: Key, now: real, rule: Rule): Hits
  {
    var h' := if |m| > MAX_KEYS then map[] else h;
    var before := Get(h', key);
    h'[key := if Decision(Opened(m, key)[key], now, rule).Allowed? then before + [now] else before]
  }

  function Get(m: Hits, key: Key): seq<real>
  {
    if key in m then m[key] else []
  }

  /** The times accepted per key since the map was last cleared. */
  function History(calls: seq<Call>): Hits
  {
    if calls == [] then map[]
    else
      var front, c := calls[..|calls| - 1], calls[|calls| - 1];
      Recorded(Run(front), History(front), c.key, c.now, c.key.rule)
  }

  predicate Sorted(h: seq<real>)
  {
    forall i, j | 0 <= i <= j < |h| :: h[i] <= h[j]
  }

  /** Every closed window of the rule's length holds at most `limit` of the
      accepted times, counted with repeats. */
  predicate Bounded(h: seq<real>, rule: Rule)
  {
    forall i, j | 0 <= i <= j < |h| && h[j] - h[i] <= rule.window as real :: j - i + 1 <= Cap(rule.limit)
  }

  /** A deque is a suffix of its history, and what it lacks is out of the window. */
  predicate Suffix(d: seq<real>, h: seq<real>, cutoff: real)
  {
    && |d| <= |h| && d == h[|h| - |d|..]
    && forall i | 0 <= i < |h| - |d| :: h[i] < cutoff
  }

  predicate Agree(d: seq<real>, h: seq<real>, last: real, rule: Rule)
  {
    && Suffix(d, h, last - rule.window as real)
    && (forall i | 0 <= i < |h| :: h[i] <= last)
    && Sorted(h) && Bounded(h, rule)
  }

  predicate AllFrom(d: seq<real>, cutoff: real)
  {
    forall i | 0 <= i < |d| :: d[i] >= cutoff
  }

  /** Popping drops a prefix and keeps a suffix, split at the cutoff. */
  lemma {:induction false} PoppedSplit(d: seq<real>, cutoff: real)
    requires Sorted(d)
    ensures var p := Popped(d, cutoff);
            && |p| <= |d| && p == d[|d| - |p|..]
            && (forall i | 0 <= i < |d| - |p| :: d[i] < cutoff)
            && AllFrom(p, cutoff)
    decreases |d|
  {
    if d != [] && d[0] < cutoff {
      PoppedSplit(d[1..], cutoff);
    }
  }

  lemma {:induction false} PoppedSuffix(d: seq<real>, h: seq<real>, earlier: real, cutoff: real)
    requires Suffix(d, h, earlier) && earlier <= cutoff && Sorted(d)
    ensures Suffix(Popped(d, cutoff), h, cutoff) && AllFrom(Popped(d, cutoff), cutoff)
  {
    var p := Popped(d, cutoff);
    PoppedSplit(d, cutoff);
    var c := |h| - |d|;
    assert p == h[|h| - |p|..];
    forall i | 0 <= i < |h| - |p| ensures h[i] < cutoff {
      if i >= c { assert h[i] == d[i - c]; }
    }
  }

  lemma PoppedAgrees(d: seq<real>, h: seq<real>, last: real, now: real, rule: Rule)
    requires Agree(d, h, last, rule) && last <= now
    ensures Agree(Popped(d, now - rule.window as real), h, now, rule)
    ensures AllFrom(Popped(d, now - rule.window as real), now - rule.window as real)
  {
    PoppedSuffix(d, h, last - rule.window as real, now - rule.window as real);
  }

  lemma AppendAgrees(p: seq<real>, h: seq<real>, now: real, rule: Rule)
    requires Agree(p, h, now, rule) && |p| < rule.limit
    ensures Agree(p + [now], h + [now], now, rule)
  {
    var h' := h + [now];
    forall i, j | 0 <= i <= j < |h'| && h'[j] - h'[i] <= rule.window as real
      ensures j - i + 1 <= Cap(rule.limit)
    {
      if j < |h| {
        assert h'[i] == h[i] && h'[j] == h[j];
      } else if i < |h| {
        assert h'[i] == h[i];
        assert i >= |h| - |p|;
      }
    }
  }

  lemma KeptAgrees(d: seq<real>, h: seq<real>, last: real, now: real, rule: Rule)
    requires Agree(d, h, last, rule) && last <= now
    ensures Agree(Kept(d, now, rule),
                  if Decision(d, now, rule).Allowed? then h + [now] else h, now, rule)
  {
    PoppedAgrees(d, h, last, now, rule);
    var p := Popped(d, now - rule.window as real);
    if |p| < rule.limit { AppendAgrees(p, h, now, rule); }
  }

  lemma {:induction false} RunAgrees(calls: seq<Call>, key: Key, last: real)
    requires Timely(calls, last)
    ensures Agree(Get(Run(calls), key), Get(History(calls), key), last, key.rule)
  {
    if calls != [] {
      var front, c := calls[..|calls| - 1], calls[|calls| - 1];
      RunAgrees(front, key, c.now);
      StepAgrees(Run(front), History(front), key, c.key, c.now, last);
    }
  }

  /** What the map still holds for `key` when a call comes in. */
  function Found(m: Hits, g: Hits, key: Key): seq<real>
  {
    if |m| > MAX_KEYS then [] else Get(g, key)
  }

  lemma StepGet(m: Hits, h: Hits, key: Key, called: Key, now: real)
    ensures var d, g := Found(m, m, key), Found(m, h, key);
            && Get(After(m, called, now, called.rule), key) ==
                 (if key == called then Kept(d, now, key.rule) else d)
            && Get(Recorded(m, h, called, now, called.rule), key) ==
                 (if key == called && Decision(d, now, key.rule).Allowed? then g + [now] else g)
  {}

  lemma AgreeLater(d: seq<real>, h: seq<real>, now: real, last: real, rule: Rule)
    requires Agree(d, h, now, rule) && now <= last
    ensures Agree(d, h, last, rule)
  {}

  lemma StepAgrees(m: Hits, h: Hits, key: Key, called: Key, now: real, last: real)
    requires Agree(Get(m, key), Get(h, key), now, key.rule) && now <= last
    ensures Agree(Get(After(m, called, now, called.rule), key),
                  Get(Recorded(m, h, called, now, called.rule), key), last, key.rule)
  {
    StepGet(m, h, key, called, now);
    var d, g := Found(m, m, key), Found(m, h, key);
    if key == called {
      KeptAgrees(d, g, now, now, key.rule);
      AgreeLater(Kept(d, now, key.rule), if Decision(d, now, key.rule).Allowed? then g + [now] else g,
                 now, last, key.rule);
    } else {
      AgreeLater(d, g, now, last, key.rule);
    }
  }

  /** Between clears, no closed window of any rule holds more than its limit. */
  lemma {:induction false} WindowBound(calls: seq<Call>, key: Key)
    requires Nondecreasing(calls)
    ensures Bounded(Get(History(calls), key), key.rule)
  {
    var last := if calls == [] then 0.0 else calls[|calls| - 1].now;
    RunAgrees(calls, key, last);
  }

  /** The times of a history that are not older than the cutoff. */
  function Recent(h: seq<real>, cutoff: real): seq<real>
  {
    if h == [] then []
    else
      var front, last := h[..|h| - 1], h[|h| - 1];
      if last >= cutoff then Recent(front, cutoff) + [last] else Recent(front, cutoff)
  }

  lemma {:induction false} SuffixIsRecent(p: seq<real>, h: seq<real>, cutoff: real)
    requires Suffix(p, h, cutoff) && AllFrom(p, cutoff)
    ensures Recent(h, cutoff) == p
    decreases |h|
  {
    if h != [] {
      var front := h[..|h| - 1];
      if p == [] {
        assert Suffix([], front, cutoff);
        SuffixIsRecent([], front, cutoff);
      } else {
        var q := p[..|p| - 1];
        assert p[|p| - 1] == h[|h| - 1];
        assert q == front[|front| - |q|..];
        SuffixIsRecent(q, front, cutoff);
        assert p == q + [h[|h| - 1]];
      }
    }
  }

  lemma {:induction false} KeptIsRecent(d: seq<real>, before: seq<real>, now: real, rule: Rule)
    requires Suffix(d, before, now - rule.window as real) && Sorted(d) && rule.window >= 0
    ensures Kept(d, now, rule) ==
            Recent(if Decision(d, now, rule).Allowed? then before + [now] else before, now - rule.window as real)
  {
    var cutoff := now - rule.window as real;
    PoppedSuffix(d, before, cutoff, cutoff);
    SuffixIsRecent(Popped(d, cutoff), before, cutoff);
    assert (before + [now])[..|before|] == before;
  }

  /** What a call leaves in a deque that agrees with its history. */
  predicate LeavesRecent(d: seq<real>, h: seq<real>, now: real, rule: Rule)
  {
    Kept(d, now, rule) ==
    Recent(if Decision(d, now, rule).Allowed? then h + [now] else h, now - rule.window as real)
  }

  lemma AgreeLeavesRecent(d: seq<real>, h: seq<real>, now: real, rule: Rule)
    requires Agree(d, h, now, rule) && rule.window >= 0
    ensures LeavesRecent(d, h, now, rule)
  {
    KeptIsRecent(d, h, now, rule);
  }

  lemma FoundLeavesRecent(m: Hits, h: Hits, key: Key, now: real)
    requires Agree(Get(m, key), Get(h, key), now, key.rule) && key.rule.window >= 0
    ensures LeavesRecent(Found(m, m, key), Found(m, h, key), now, key.rule)
  {
    if |m| > MAX_KEYS {
      AgreeLeavesRecent([], [], now, key.rule);
    } else {
      AgreeLeavesRecent(Get(m, key), Get(h, key), now, key.rule);
    }
  }

  lemma {:induction false} RunSnoc(calls: seq<Call>, c: Call)
    ensures Run(calls + [c]) == After(Run(calls), c.key, c.now, c.key.rule)
    ensures History(calls + [c]) == Recorded(Run(calls), History(calls), c.key, c.now, c.key.rule)
  {
    assert (calls + [c])[..|calls|] == calls;
  }

  /** Right after a call, the deque of its key is exactly the accepted times not
      older than the cutoff: all of them, in order, and nothing else. */
  lemma {:induction false} DequeIsRecentHistory(calls: seq<Call>, c: Call)
    requires Timely(calls, c.now) && c.key.rule.window >= 0
    ensures Get(Run(calls + [c]), c.key) ==
            Recent(Get(History(calls + [c]), c.key), c.now - c.key.rule.window as real)
  {
    RunSnoc(calls, c);
    TimelyLeavesRecent(calls, c);
  }

  lemma {:induction false} TimelyLeavesRecent(front: seq<Call>, c: Call)
    requires Timely(front, c.now) && c.key.rule.window >= 0
    ensures var m, h := Run(front), History(front);
            Get(After(m, c.key, c.now, c.key.rule), c.key) ==
            Recent(Get(Recorded(m, h, c.key, c.now, c.key.rule), c.key), c.now - c.key.rule.window as real)
  {
    RunAgrees(front, c.key, c.now);
    CallLeavesRecent(Run(front), History(front), c);
  }

  lemma CallLeavesRecent(m: Hits, h: Hits, c: Call)
    requires Agree(Get(m, c.key), Get(h, c.key), c.now, c.key.rule) && c.key.rule.window >= 0
    ensures Get(After(m, c.key, c.now, c.key.rule), c.key) ==
            Recent(Get(Recorded(m, h, c.key, c.now, c.key.rule), c.key), c.now - c.key.rule.window as real)
  {
    FoundLeavesRecent(m, h, c.key, c.now);
    StepGet(m, h, c.key, c.key, c.now);
  }

  lemma OpenedKeys(m: Hits, key: Key)
    requires |m| <= MAX_KEYS + 1
    ensures |Opened(m, key)| <= MAX_KEYS + 1
  {
    var m' := if |m| > MAX_KEYS then map[] else m;
    assert Opened(m, key).Keys == m'.Keys + {key};
    assert |m'| <= MAX_KEYS;
  }

  lemma {:induction false} KeysBounded(calls: seq<Call>)
    ensures |Run(calls)| <= MAX_KEYS + 1
  {
    if calls != [] {
      var front, c := calls[..|calls| - 1], calls[|calls| - 1];
      KeysBounded(front);
      OpenedKeys(Run(front), c.key);
      var o := Opened(Run(front), c.key);
      assert o[c.key := Kept(o[c.key], c.now, c.key.rule)].Keys == o.Keys;
    }
  }

  // ----- a history holds few times per interval

  /** How many times of a history lie in an interval, repeats included. */
  function CountIn(h: seq<real>, lo: real, hi: real): nat
  {
    if h == [] then 0
    else CountIn(h[..|h| - 1], lo, hi) + if lo <= h[|h| - 1] <= hi then 1 else 0
  }

  lemma {:induction false} NoneFrom(h: seq<real>, lo: real, hi: real)
    requires forall i | 0 <= i < |h| :: hi < h[i]
    ensures CountIn(h, lo, hi) == 0
  {
    if h != [] { NoneFrom(h[..|h| - 1], lo, hi); }
  }

  /** Up to `hi`, the times counted are a suffix. */
  lemma {:induction false} CountedSuffix(h: seq<real>, lo: real, hi: real) returns (i: nat)
    requires Sorted(h) && (h != [] ==> h[|h| - 1] <= hi)
    ensures i <= |h| && CountIn(h, lo, hi) == |h| - i && (i < |h| ==> lo <= h[i])
  {
    if h == [] {
      i := 0;
    } else {
      var front := h[..|h| - 1];
      i := CountedSuffix(front, lo, hi);
      if h[|h| - 1] < lo { i := |h|; }
    }
  }

  lemma {:induction false} WindowOfHistory(h: seq<real>, rule: Rule, lo: real, hi: real)
    requires Sorted(h) && Bounded(h, rule) && hi - lo <= rule.window as real
    ensures CountIn(h, lo, hi) <= Cap(rule.limit)
  {
    if h != [] {
      if h[|h| - 1] <= hi {
        var i := CountedSuffix(h, lo, hi);
        if i < |h| { assert h[|h| - 1] - h[i] <= rule.window as real; }
      } else {
        WindowOfHistory(h[..|h| - 1], rule, lo, hi);
      }
    }
  }

  // ----- across clears

  /** The calls for `key` in an interval that were allowed, since the start. */
  function AdmitsIn(calls: seq<Call>, key: Key, lo: real, hi: real): nat
  {
    if calls == [] then 0
    else
      var front, c := calls[..|calls| - 1], calls[|calls| - 1];
      AdmitsIn(front, key, lo, hi) +
      if c.key == key && lo <= c.now <= hi && Decision(Found(Run(front), Run(front), key), c.now, key.rule).Allowed?
      then 1 else 0
  }

  /** The calls between `lo` and `hi`. */
  function CallsIn(calls: seq<Call>, lo: real, hi: real): nat
  {
    if calls == [] then 0
    else CallsIn(calls[..|calls| - 1], lo, hi) + if lo <= calls[|calls| - 1].now <= hi then 1 else 0
  }

  /** Those of them that found the map too large and cleared it. */
  function ClearsIn(calls: seq<Call>, lo: real, hi: real): nat
  {
    if calls == [] then 0
    else
      var front, c := calls[..|calls| - 1], calls[|calls| - 1];
      ClearsIn(front, lo, hi) + if |Run(front)| > MAX_KEYS && lo <= c.now <= hi then 1 else 0
  }

  /** The index of the call that cleared the map last; 0 when none did, since the
      first call finds no keys. */
  function LastClear(calls: seq<Call>): (e: nat)
    ensures e == 0 || e < |calls|
  {
    if calls == [] then 0
    else
      var front := calls[..|calls| - 1];
      if |Run(front)| > MAX_KEYS then |front| else LastClear(front)
  }

  lemma {:induction false} NoneBefore(calls: seq<Call>, key: Key, last: real, lo: real, hi: real)
    requires Timely(calls, last) && last < lo
    ensures AdmitsIn(calls, key, lo, hi) == 0
  {
    if calls != [] { NoneBefore(calls[..|calls| - 1], key, calls[|calls| - 1].now, lo, hi); }
  }

  lemma {:induction false} TimelyPrefix(calls: seq<Call>, last: real, n: nat)
    requires Timely(calls, last) && n < |calls|
    ensures Timely(calls[..n], calls[n].now) && calls[n].now <= last
  {
    if n < |calls| - 1 {
      var front := calls[..|calls| - 1];
      TimelyPrefix(front, calls[|calls| - 1].now, n);
      assert front[..n] == calls[..n];
    }
  }

  lemma {:induction false} CountSnoc(h: seq<real>, x: real, lo: real, hi: real)
    ensures CountIn(h + [x], lo, hi) == CountIn(h, lo, hi) + if lo <= x <= hi then 1 else 0
  {
    assert (h + [x])[..|h|] == h;
  }

  /** What was admitted before the last clear, and what the history holds since. */
  lemma {:induction false} AdmitsSinceClear(calls: seq<Call>, key: Key, lo: real, hi: real)
    ensures AdmitsIn(calls, key, lo, hi) ==
            AdmitsIn(calls[..LastClear(calls)], key, lo, hi) + CountIn(Get(History(calls), key), lo, hi)
  {
    if calls != [] {
      var front, c := calls[..|calls| - 1], calls[|calls| - 1];
      var m, h := Run(front), History(front);
      StepGet(m, h, key, c.key, c.now);
      CountSnoc(Found(m, h, key), c.now, lo, hi);
      if |m| > MAX_KEYS {
        assert calls[..|front|] == front;
      } else {
        AdmitsSinceClear(front, key, lo, hi);
        assert calls[..LastClear(calls)] == front[..LastClear(front)];
      }
    }
  }

  lemma {:induction false} ClearsSinceClear(calls: seq<Call>, lo: real, hi: real)
    ensures var e := LastClear(calls);
            ClearsIn(calls, lo, hi) ==
            ClearsIn(calls[..e], lo, hi) + if e > 0 && lo <= calls[e].now <= hi then 1 else 0
  {
    if calls != [] {
      var front := calls[..|calls| - 1];
      if |Run(front)| > MAX_KEYS {
        assert calls[..|front|] == front;
      } else {
        ClearsSinceClear(front, lo, hi);
        assert calls[..LastClear(calls)] == front[..LastClear(front)];
      }
    }
  }

  lemma {:induction false} HistoryAfterClear(calls: seq<Call>, key: Key, last: real)
    requires Timely(calls, last) && LastClear(calls) > 0
    ensures forall x | x in Get(History(calls), key) :: calls[LastClear(calls)].now <= x
  {
    var front, c := calls[..|calls| - 1], calls[|calls| - 1];
    StepGet(Run(front), History(front), key, c.key, c.now);
    if |Run(front)| <= MAX_KEYS {
      HistoryAfterClear(front, key, c.now);
      TimelyPrefix(calls, last, LastClear(calls));
      TimelyPrefix(front, c.now, LastClear(front));
    }
  }

  /** The share of the last era. */
  lemma {:induction false} EraShare(calls: seq<Call>, key: Key, lo: real, hi: real)
    requires Nondecreasing(calls) && hi - lo <= key.rule.window as real
    ensures CountIn(Get(History(calls), key), lo, hi) <= Cap(key.rule.limit)
  {
    RunAgrees(calls, key, if calls == [] then 0.0 else calls[|calls| - 1].now);
    WindowOfHistory(Get(History(calls), key), key.rule, lo, hi);
  }

  /** A clear outside the interval leaves nothing of one of its two sides. */
  lemma {:induction false} OneSide(calls: seq<Call>, key: Key, last: real, lo: real, hi: real)
    requires Timely(calls, last) && LastClear(calls) > 0
    requires !(lo <= calls[LastClear(calls)].now <= hi)
    ensures AdmitsIn(calls[..LastClear(calls)], key, lo, hi) == 0 || CountIn(Get(History(calls), key), lo, hi) == 0
  {
    var e, h := LastClear(calls), Get(History(calls), key);
    TimelyPrefix(calls, last, e);
    if calls[e].now < lo {
      NoneBefore(calls[..e], key, calls[e].now, lo, hi);
    } else {
      HistoryAfterClear(calls, key, last);
      forall i | 0 <= i < |h| ensures hi < h[i] { assert h[i] in h; }
      NoneFrom(h, lo, hi);
    }
  }

  /** `n` times `cap`, as a sum. */
  function Times(n: nat, cap: nat): nat
  {
    if n == 0 then 0 else Times(n - 1, cap) + cap
  }

  lemma {:induction false} TimesIs(n: nat, cap: nat)
    ensures Times(n, cap) == n * cap
  {
    if n > 0 {
      TimesIs(n - 1, cap);
      assert n * cap == (n - 1) * cap + cap;
    }
  }

  lemma EraCount(recent: nat, before: nat, clears: nat, inside: bool, cap: nat)
    requires recent <= cap && before <= Times(1 + clears, cap)
    requires !inside ==> recent == 0 || before == 0
    ensures recent + before <= Times(1 + (clears + if inside then 1 else 0), cap)
  {}

  function Allowance(calls: seq<Call>, key: Key, lo: real, hi: real): nat
  {
    Times(1 + ClearsIn(calls, lo, hi), Cap(key.rule.limit))
  }

  /** The last era's share of an interval, the clears before it, and whether the clear
      that began it lies in the interval. */
  lemma {:induction false} LastEra(calls: seq<Call>, key: Key, lo: real, hi: real)
    returns (recent: nat, clears: nat, inside: bool)
    requires Nondecreasing(calls) && hi - lo <= key.rule.window as real && LastClear(calls) > 0
    ensures var before := AdmitsIn(calls[..LastClear(calls)], key, lo, hi);
            && AdmitsIn(calls, key, lo, hi) == recent + before && recent <= Cap(key.rule.limit)
            && (!inside ==> recent == 0 || before == 0)
    ensures clears == ClearsIn(calls[..LastClear(calls)], lo, hi)
    ensures ClearsIn(calls, lo, hi) == clears + if inside then 1 else 0
  {
    var e := LastClear(calls);
    recent, clears := CountIn(Get(History(calls), key), lo, hi), ClearsIn(calls[..e], lo, hi);
    inside := lo <= calls[e].now <= hi;
    EraShare(calls, key, lo, hi);
    AdmitsSinceClear(calls, key, lo, hi);
    if !inside { OneSide(calls, key, calls[|calls| - 1].now, lo, hi); }
    ClearsSinceClear(calls, lo, hi);
  }

  lemma {:induction false} FirstEra(calls: seq<Call>, key: Key, lo: real, hi: real)
    requires Nondecreasing(calls) && hi - lo <= key.rule.window as real && LastClear(calls) == 0
    ensures AdmitsIn(calls, key, lo, hi) <= Allowance(calls, key, lo, hi)
  {
    EraShare(calls, key, lo, hi);
    AdmitsSinceClear(calls, key, lo, hi);
    NothingBefore(calls, key, lo, hi);
    AtLeastOnce(ClearsIn(calls, lo, hi), Cap(key.rule.limit));
  }

  lemma EraStep(size: nat, recent: nat, before: nat, clears: nat, inside: bool, total: nat, cap: nat)
    requires size == recent + before && recent <= cap && before <= Times(1 + clears, cap)
    requires (!inside ==> recent == 0 || before == 0) && total == clears + if inside then 1 else 0
    ensures size <= Times(1 + total, cap)
  {
    EraCount(recent, before, clears, inside, cap);
  }

  lemma {:induction false} ErasBound(calls: seq<Call>, key: Key, lo: real, hi: real)
    requires Nondecreasing(calls) && hi - lo <= key.rule.window as real
    ensures AdmitsIn(calls, key, lo, hi) <= Allowance(calls, key, lo, hi)
    decreases |calls|
  {
    var e := LastClear(calls);
    if e == 0 {
      FirstEra(calls, key, lo, hi);
    } else {
      PrefixNondecreasing(calls, e);
      ErasBound(calls[..e], key, lo, hi);
      var recent, clears, inside := LastEra(calls, key, lo, hi);
      EraStep(AdmitsIn(calls, key, lo, hi), recent, AdmitsIn(calls[..e], key, lo, hi), clears, inside,
              ClearsIn(calls, lo, hi), Cap(key.rule.limit));
    }
  }

  lemma {:induction false} PrefixNondecreasing(calls: seq<Call>, n: nat)
    requires Nondecreasing(calls) && n < |calls|
    ensures Nondecreasing(calls[..n])
  {
    TimelyPrefix(calls, calls[|calls| - 1].now, n);
    TimelyNondecreasing(calls[..n], calls[n].now);
  }

  lemma AtLeastOnce(clears: nat, cap: nat)
    ensures Times(1 + clears, cap) >= cap
  {}

  /** Every clear inside an interval no longer than the window allows one more limit's
      worth of calls there, and nothing else does; repeated times count as often as
      they occur. */
  lemma {:induction false} ClearedBound(calls: seq<Call>, key: Key, lo: real, hi: real)
    requires Nondecreasing(calls) && hi - lo <= key.rule.window as real
    ensures AdmitsIn(calls, key, lo, hi) <= (1 + ClearsIn(calls, lo, hi)) * Cap(key.rule.limit)
  {
    ErasBound(calls, key, lo, hi);
    TimesIs(1 + ClearsIn(calls, lo, hi), Cap(key.rule.limit));
  }

  lemma {:induction false} NothingBefore(calls: seq<Call>, key: Key, lo: real, hi: real)
    ensures AdmitsIn(calls[..0], key, lo, hi) == 0
  {}

  lemma {:induction false} TimelyNondecreasing(calls: seq<Call>, last: real)
    requires Timely(calls, last)
    ensures Nondecreasing(calls)
  {}

  /** Clears are rare: each takes as many calls as the map holds keys. */
  lemma {:induction false} ClearsAreSpaced(calls: seq<Call>, lo: real, hi: real)
    requires Nondecreasing(calls)
    ensures (MAX_KEYS + 1) * ClearsIn(calls, lo, hi) <= CallsIn(calls, lo, hi) + MAX_KEYS + 1
  {
    Spaced(calls, lo, hi, if calls == [] then 0.0 else calls[|calls| - 1].now);
  }

  lemma {:induction false} Spaced(calls: seq<Call>, lo: real, hi: real, last: real)
    requires Timely(calls, last)
    ensures var c, n := ClearsIn(calls, lo, hi), CallsIn(calls, lo, hi);
            && c <= n && (MAX_KEYS + 1) * c <= n + MAX_KEYS + 1
            && (last < lo ==> n == 0)
            && (last <= hi ==> (MAX_KEYS + 1) * c + |Run(calls)| <= n + MAX_KEYS + 1)
  {
    KeysBounded(calls);
    if calls != [] {
      var front, c := calls[..|calls| - 1], calls[|calls| - 1];
      Spaced(front, lo, hi, c.now);
      StepKeys(Run(front), c);
    }
  }

  lemma StepKeys(m: Hits, c: Call)
    ensures var after := After(m, c.key, c.now, c.key.rule);
            |after| <= if |m| > MAX_KEYS then 1 else |m| + 1
  {
    var m' := if |m| > MAX_KEYS then map[] else m;
    var after := After(m, c.key, c.now, c.key.rule);
    assert after.Keys == m'.Keys + {c.key};
    assert |m'.Keys| == |m'| && |after.Keys| == |after|;
  }

  /** A map that few keys use is never cleared. */
  lemma {:induction false} FewKeysNeverClear(calls: seq<Call>, keys: set<Key>, lo: real, hi: real)
    requires |keys| <= MAX_KEYS && forall i | 0 <= i < |calls| :: calls[i].key in keys
    ensures Run(calls).Keys <= keys && |Run(calls)| <= MAX_KEYS && ClearsIn(calls, lo, hi) == 0
  {
    if calls != [] {
      var front, c := calls[..|calls| - 1], calls[|calls| - 1];
      FewKeysNeverClear(front, keys, lo, hi);
      assert c.key in keys;
      assert Run(calls).Keys == Run(front).Keys + {c.key};
    }
    SubsetSize(Run(calls).Keys, keys);
    assert |Run(calls).Keys| == |Run(calls)|;
  }

  lemma {:induction false} PoppedShorter(d: seq<real>, cutoff: real)
    ensures |Popped(d, cutoff)| <= |d|
  {
    if d != [] { PoppedShorter(d[1..], cutoff); }
  }

  /** A key that a full map is about to lose, or that it does not hold, is allowed. */
  lemma FreshAllows(m: Hits, key: Key, now: real)
    requires key.rule.limit >= 1 && (|m| > MAX_KEYS || key !in m)
    ensures Decision(Found(m, m, key), now, key.rule).Allowed?
  {}

  // ----- what `retry_after` promises

  /** The verdict on call `i` of a run. */
  function Verdict(calls: seq<Call>, i: nat): Outcome
    requires i < |calls|
  {
    var m := Run(calls[..i]);
    Decision(Found(m, m, calls[i].key), calls[i].now, calls[i].key.rule)
  }

  /** The times still in the window of call `i`. */
  function InWindow(calls: seq<Call>, i: nat): seq<real>
    requires i < |calls|
  {
    var m := Run(calls[..i]);
    Popped(Found(m, m, calls[i].key), calls[i].now - calls[i].key.rule.window as real)
  }

  /** The calls that find the map too large and clear it. */
  function Clearing(calls: seq<Call>): set<nat>
  {
    set m: nat | m <= |calls| && |Run(calls[..m])| > MAX_KEYS
  }

  /** Some call after `i`, up to and including `j`, cleared the map. */
  predicate ClearedSince(calls: seq<Call>, i: nat, j: nat)
  {
    exists m | m in Clearing(calls) :: i < m <= j
  }

  /** No call for the key between `i` and `j` was allowed. */
  predicate NoneBetween(calls: seq<Call>, key: Key, i: nat, j: nat)
    requires j <= |calls|
  {
    forall m: nat {:trigger Verdict(calls, m)} | i < m < j && calls[m].key == key :: !Verdict(calls, m).Allowed?
  }

  /** A refusal means that exactly the limit is in the window. */
  lemma {:induction false} RefusedIsFull(calls: seq<Call>, last: real, i: nat)
    requires Timely(calls, last) && i < |calls| && Verdict(calls, i).Refused?
    ensures |InWindow(calls, i)| == calls[i].key.rule.limit && Sorted(InWindow(calls, i))
  {
    TimelyPrefix(calls, last, i);
    RunAgrees(calls[..i], calls[i].key, calls[i].now);
    var m := Run(calls[..i]);
    assert Verdict(calls, i) == Decision(Found(m, m, calls[i].key), calls[i].now, calls[i].key.rule);
    RefusedWindow(m, History(calls[..i]), calls[i]);
  }

  lemma RefusedWindow(m: Hits, h: Hits, c: Call)
    requires Agree(Get(m, c.key), Get(h, c.key), c.now, c.key.rule)
    requires Decision(Found(m, m, c.key), c.now, c.key.rule).Refused?
    ensures var p := Popped(Found(m, m, c.key), c.now - c.key.rule.window as real);
            |p| == c.key.rule.limit && Sorted(p)
  {
    assert |m| <= MAX_KEYS;
    FullWindow(Get(m, c.key), Get(h, c.key), c.now, c.key.rule);
  }

  lemma {:induction false} FullWindow(d: seq<real>, h: seq<real>, now: real, rule: Rule)
    requires Agree(d, h, now, rule) && Decision(d, now, rule).Refused?
    ensures |Popped(d, now - rule.window as real)| == rule.limit
    ensures Sorted(Popped(d, now - rule.window as real))
  {
    var p := Popped(d, now - rule.window as real);
    PoppedAgrees(d, h, now, now, rule);
    var i, j := |h| - |p|, |h| - 1;
    assert h[i] == p[0] && h[j] <= now;
  }

  lemma {:induction false} StepAt(calls: seq<Call>, key: Key, j: nat)
    requires j < |calls|
    ensures var m := Run(calls[..j]);
            Get(Run(calls[..j + 1]), key) ==
            if key == calls[j].key then Kept(Found(m, m, key), calls[j].now, key.rule) else Found(m, m, key)
  {
    var m, c := Run(calls[..j]), calls[j];
    assert calls[..j + 1] == calls[..j] + [c];
    RunSnoc(calls[..j], c);
    StepGet(m, m, key, c.key, c.now);
  }

  /** A refused deque stays as it is until its oldest time leaves or the map is cleared. */
  lemma ClearedNext(calls: seq<Call>, i: nat, j: nat)
    requires i < j
    ensures ClearedSince(calls, i, j) <==> ClearedSince(calls, i, j - 1) || j in Clearing(calls)
  {}

  lemma {:induction false} FullStays(calls: seq<Call>, key: Key, i: nat, j: nat, p: seq<real>)
    requires i < j <= |calls| && |p| == key.rule.limit && NoneBetween(calls, key, i, j)
    requires Get(Run(calls[..i + 1]), key) == p
    ensures Get(Run(calls[..j]), key) == if ClearedSince(calls, i, j - 1) then [] else p
    decreases j
  {
    if j > i + 1 {
      FullStays(calls, key, i, j - 1, p);
      assert calls[j - 1].key == key ==> !Verdict(calls, j - 1).Allowed?;
      FullNext(calls, key, j - 1, p, ClearedSince(calls, i, j - 2));
      ClearedNext(calls, i, j - 1);
    }
  }

  lemma {:induction false} FullFirst(calls: seq<Call>, i: nat)
    requires i < |calls| && Verdict(calls, i).Refused?
    ensures Get(Run(calls[..i + 1]), calls[i].key) == InWindow(calls, i)
  {
    StepAt(calls, calls[i].key, i);
  }

  lemma {:induction false} FullNext(calls: seq<Call>, key: Key, j: nat, p: seq<real>, cleared: bool)
    requires j < |calls| && |p| == key.rule.limit && (calls[j].key == key ==> !Verdict(calls, j).Allowed?)
    requires Get(Run(calls[..j]), key) == if cleared then [] else p
    ensures Get(Run(calls[..j + 1]), key) == if cleared || j in Clearing(calls) then [] else p
  {
    StepAt(calls, key, j);
    FullStep(Run(calls[..j]), key, calls[j], p, cleared);
  }

  lemma FullStep(m: Hits, key: Key, c: Call, p: seq<real>, cleared: bool)
    requires Get(m, key) == (if cleared then [] else p) && |p| == key.rule.limit
    requires c.key == key ==> !Decision(Found(m, m, key), c.now, key.rule).Allowed?
    ensures (if key == c.key then Kept(Found(m, m, key), c.now, key.rule) else Found(m, m, key)) ==
            if |m| > MAX_KEYS || cleared then [] else p
  {
    if c.key == key && p != [] { NotAllowedKeeps(Found(m, m, key), p, c.now, key.rule); }
  }

  lemma NotAllowedKeeps(d: seq<real>, p: seq<real>, now: real, rule: Rule)
    requires |p| == rule.limit > 0 && (d == [] || d == p) && !Decision(d, now, rule).Allowed?
    ensures d == p && Kept(d, now, rule) == p
  {
    PoppedShorter(d, now - rule.window as real);
    PoppedWhole(d, now - rule.window as real);
  }

  lemma {:induction false} PoppedWhole(d: seq<real>, cutoff: real)
    ensures |Popped(d, cutoff)| == |d| ==> Popped(d, cutoff) == d
  {
    if d != [] && d[0] < cutoff { PoppedShorter(d[1..], cutoff); }
  }

  /** A refused caller is admitted, when nothing else was allowed under its key
      meanwhile, exactly from just after the moment its oldest time leaves the closed
      window, or when the map was cleared. */
  lemma {:induction false} RetryIsExact(calls: seq<Call>, last: real, i: nat, j: nat)
    requires Timely(calls, last) && i < j < |calls| && calls[j].key == calls[i].key
    requires Verdict(calls, i).Refused? && NoneBetween(calls, calls[i].key, i, j)
    ensures InWindow(calls, i) != []
    ensures Verdict(calls, j).Allowed? <==>
            ClearedSince(calls, i, j) || calls[j].now > InWindow(calls, i)[0] + calls[i].key.rule.window as real
  {
    var key, p := calls[i].key, InWindow(calls, i);
    RefusedIsFull(calls, last, i);
    FullFirst(calls, i);
    FullStays(calls, key, i, j, p);
    ClearedNext(calls, i, j);
    AfterWait(Run(calls[..j]), key, calls[j].now, p, ClearedSince(calls, i, j - 1));
  }

  lemma AfterWait(m: Hits, key: Key, now: real, p: seq<real>, cleared: bool)
    requires Get(m, key) == (if cleared then [] else p) && |p| == key.rule.limit > 0 && Sorted(p)
    ensures Decision(Found(m, m, key), now, key.rule).Allowed? <==>
            cleared || |m| > MAX_KEYS || now > p[0] + key.rule.window as real
  {
    PoppedSplit(p, now - key.rule.window as real);
  }

  /** Waiting exactly `retry_after`, with no clear meanwhile, is enough if and only if
      the oldest time was less than a second from leaving the window; otherwise the
      wait is rounded down and falls short. */
  lemma {:induction false} RetryHonestIff(calls: seq<Call>, last: real, i: nat, j: nat)
    requires Timely(calls, last) && i < j < |calls| && calls[j].key == calls[i].key
    requires Verdict(calls, i).Refused? && NoneBetween(calls, calls[i].key, i, j)
    requires calls[j].now == calls[i].now + Verdict(calls, i).retryAfter as real && !ClearedSince(calls, i, j)
    ensures InWindow(calls, i) != []
    ensures Verdict(calls, j).Allowed? <==>
            InWindow(calls, i)[0] + calls[i].key.rule.window as real - calls[i].now < 1.0
  {
    RetryIsExact(calls, last, i, j);
    RoundedDown(InWindow(calls, i)[0] + calls[i].key.rule.window as real - calls[i].now);
  }

  lemma RoundedDown(x: real)
    ensures Max(1, x.Floor) as real > x <==> x < 1.0
  {}

  /** A caller of one request a minute, refused at 10.5 seconds with 49 to wait, is
      refused again at 59.5. */
  lemma {:induction false} RetryFallsShort(bucket: string)
    ensures var key := Key(Rule(1, 60), bucket);
            var calls := [Call(key, 0.0), Call(key, 10.5), Call(key, 59.5)];
            Verdict(calls, 1) == Refused(49) && Verdict(calls, 2).Refused?
  {
    var key := Key(Rule(1, 60), bucket);
    var calls := [Call(key, 0.0), Call(key, 10.5), Call(key, 59.5)];
    assert calls[..1] == [] + [calls[0]] && calls[..2] == calls[..1] + [calls[1]];
    RunSnoc([], calls[0]);
    RunSnoc(calls[..1], calls[1]);
    assert Kept([], 0.0, key.rule) == [0.0] && Kept([0.0], 10.5, key.rule) == [0.0];
    assert Run(calls[..1]) == map[key := [0.0]];
    assert Run(calls[..2]) == map[key := [0.0]];
    assert (0.0 + 60 as real - 10.5).Floor == 49;
  }
}
