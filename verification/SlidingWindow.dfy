/** The Redis sliding-window limiter: one Lua script over a sorted set whose
    members are their own timestamps, with a TTL on the key. */
module SlidingWindow {
  import opened Basics
  import opened Sets

  /** The sorted set under one key and the time at which the key expires. */
  datatype Bucket = Bucket(hits: set<real>, expiry: real)

  datatype Verdict = Verdict(accepted: bool, retryAfter: int)

  // ----- the script

  /** What ZREMRANGEBYSCORE leaves: the entries of a live key above the cutoff. */
  function Swept(b: Bucket, now: real, window: int): set<real>
  {
    if now < b.expiry then set h | h in b.hits && h > now - window as real else {}
  }

  lemma {:induction false} OldestExists(s: set<real>)
    requires s != {}
    ensures exists m :: m in s && forall h | h in s :: m <= h
    decreases |s|
  {
    var x := Pick(s);
    var rest := s - {x};
    if rest == {} {
      assert s == {x};
      assert x in s && forall h | h in s :: x <= h;
    } else {
      OldestExists(rest);
      var m :| m in rest && forall h | h in rest :: m <= h;
      var k := if x < m then x else m;
      forall h | h in s ensures k <= h {
        if h != x { assert h in rest; }
      }
      assert k in s;
    }
  }

  ghost function Oldest(s: set<real>): (m: real)
    requires s != {}
    ensures m in s && forall h | h in s :: m <= h
  {
    OldestExists(s);
    var m :| m in s && forall h | h in s :: m <= h;
    m
  }

  ghost function Decision(b: Bucket, now: real, window: int, limit: int): Verdict
  {
    var s := Swept(b, now, window);
    if |s| < limit then Verdict(true, 0)
    else if s == {} then Verdict(false, 1)
    else Verdict(false, Max(1, (Oldest(s) + window as real - now).Floor + 1))
  }

  ghost function After(b: Bucket, now: real, window: int, limit: int): Bucket
  {
    var s := Swept(b, now, window);
    if |s| < limit then Bucket(s + {now}, now + window as real + 5.0)
    else b.(hits := s)
  }

  /** The bucket under a key; a missing key is an expired empty one. */
  function Get<K>(buckets: map<K, Bucket>, key: K): Bucket
  {
    if key in buckets then buckets[key] else EMPTY
  }

  const EMPTY: Bucket := Bucket({}, 0.0)

  /** The sorted sets of one Redis, by key. */
  class Limiter<K(==)> {
    var buckets: map<K, Bucket>

    constructor ()
      ensures buckets == map[]
    {
      buckets := map[];
    }

    /** The script, command by command. */
    method Hit(key: K, now: real, window: int, limit: int) returns (accepted: bool, retryAfter: int)
      modifies this
      ensures Verdict(accepted, retryAfter) == Decision(Get(old(buckets), key), now, window, limit)
      ensures buckets == old(buckets)[key := After(Get(old(buckets), key), now, window, limit)]
      ensures if accepted then retryAfter == 0 else retryAfter >= 1
      ensures !accepted && limit <= 0 && Swept(Get(old(buckets), key), now, window) == {} ==> retryAfter == 1
    {
      var b := Get(buckets, key);
      var hits := if b.expiry <= now then {} else b.hits;
      var cutoff := now - window as real;
      hits := set h | h in hits && h > cutoff;
      var count := |hits|;
      if count >= limit {
        buckets := buckets[key := b.(hits := hits)];
        var retry := 1;
        if hits != {} {
          OldestExists(hits);
          var oldest :| oldest in hits && forall h | h in hits :: oldest <= h;
          retry := Max(1, (oldest + window as real - now).Floor + 1);
        }
        return false, retry;
      }
      buckets := buckets[key := Bucket(hits + {now}, now + (window + 5) as real)];
      return true, 0;
    }
  }

  // ----- every run of requests at nondecreasing times

  predicate Nondecreasing(times: seq<real>)
  {
    forall i, j | 0 <= i <= j < |times| :: times[i] <= times[j]
  }

  ghost function Run(times: seq<real>, window: int, limit: int): Bucket
  {
    if times == [] then EMPTY
    else After(Run(times[..|times| - 1], window, limit), times[|times| - 1], window, limit)
  }

  ghost predicate Accepted(times: seq<real>, window: int, limit: int, i: nat)
    requires i < |times|
  {
    Decision(Run(times[..i], window, limit), times[i], window, limit).accepted
  }

  /** Every timestamp accepted so far, with nothing swept or expired. */
  ghost function History(times: seq<real>, window: int, limit: int): set<real>
  {
    if times == [] then {}
    else
      var front, now := times[..|times| - 1], times[|times| - 1];
      var h := History(front, window, limit);
      if Decision(Run(front, window, limit), now, window, limit).accepted then h + {now} else h
  }

  /** Timestamps that fit into one half-open window of the given length. */
  predicate Within(s: set<real>, window: int)
  {
    forall x, y | x in s && y in s :: x - y < window as real
  }

  /** The bucket and the history agree on all that later requests can see. */
  ghost predicate Agree(b: Bucket, history: set<real>, last: real, window: int)
  {
    && b.hits <= history
    && (forall h | h in history :: h <= last && b.expiry >= h + window as real + 5.0)
    && (forall h | h in history && h > last - window as real :: h in b.hits)
  }

  lemma SweptIsRecent(b: Bucket, history: set<real>, last: real, now: real, window: int)
    requires Agree(b, history, last, window) && last <= now
    ensures Swept(b, now, window) == set h | h in history && h > now - window as real
  {
    var recent := set h | h in history && h > now - window as real;
    forall h | h in recent ensures h in Swept(b, now, window) {
      assert h in b.hits;
    }
  }

  lemma {:induction false} RunAgrees(times: seq<real>, last: real, window: int, limit: int)
    requires Nondecreasing(times)
    requires forall i | 0 <= i < |times| :: times[i] <= last
    ensures Agree(Run(times, window, limit), History(times, window, limit), last, window)
  {
    if times != [] {
      var front, now := times[..|times| - 1], times[|times| - 1];
      RunAgrees(front, now, window, limit);
      SweptIsRecent(Run(front, window, limit), History(front, window, limit), now, now, window);
    }
  }

  /** Neither the sweep nor the key's TTL ever drops an entry that is still in
      the window: a request sees exactly the accepted timestamps of the last
      `window` seconds. */
  lemma {:induction false} SeesRecentHistory(times: seq<real>, now: real, window: int, limit: int)
    requires Nondecreasing(times + [now])
    ensures Swept(Run(times, window, limit), now, window) ==
            set h | h in History(times, window, limit) && h > now - window as real
  {
    var all := times + [now];
    assert forall i | 0 <= i < |times| :: times[i] == all[i] && all[i] <= all[|times|];
    RunAgrees(times, now, window, limit);
    SweptIsRecent(Run(times, window, limit), History(times, window, limit), now, now, window);
  }

  /** In every run a request is accepted if and only if fewer than `limit` distinct times
      were accepted during the last `window` seconds, and an accepted one is recorded. */
  lemma {:induction false} AcceptedIff(times: seq<real>, now: real, window: int, limit: int)
    requires Nondecreasing(times + [now])
    ensures var recent := set h | h in History(times, window, limit) && h > now - window as real;
            && (Accepted(times + [now], window, limit, |times|) <==> |recent| < limit)
            && Run(times + [now], window, limit).hits == if |recent| < limit then recent + {now} else recent
  {
    assert (times + [now])[..|times|] == times;
    SeesRecentHistory(times, now, window, limit);
  }

  /** No half-open window of the configured length ever holds more than `limit`
      distinct accepted timestamps. */
  lemma {:induction false} WindowBound(times: seq<real>, window: int, limit: int, s: set<real>)
    requires Nondecreasing(times)
    requires s <= History(times, window, limit) && Within(s, window)
    ensures |s| <= Cap(limit)
    decreases |times|
  {
    if times == [] {
      assert s == {};
    } else {
      var front, now := times[..|times| - 1], times[|times| - 1];
      assert times == front + [now];
      var h := History(front, window, limit);
      if s <= h {
        WindowBound(front, window, limit, s);
      } else {
        SeesRecentHistory(front, now, window, limit);
        var recent := Swept(Run(front, window, limit), now, window);
        assert now in s;
        forall x | x in s ensures x in recent + {now} {
          assert now - x < window as real;
        }
        SubsetSize(s, recent + {now});
      }
    }
  }

  // ----- what `retry_after` promises

  lemma {:induction false} HistoryOfPrefix(times: seq<real>, window: int, limit: int, i: nat, j: nat)
    requires i <= j <= |times|
    requires forall k: nat | i <= k < j :: !Accepted(times, window, limit, k)
    ensures History(times[..j], window, limit) == History(times[..i], window, limit)
    decreases j
  {
    if i < j {
      HistoryOfPrefix(times, window, limit, i, j - 1);
      assert times[..j][..j - 1] == times[..j - 1];
      assert !Accepted(times, window, limit, j - 1);
    }
  }

  /** A refused caller is admitted, when nothing else was accepted meanwhile,
      exactly from the moment the oldest entry leaves the window; `retry_after`
      is the whole number of seconds just after that moment. */
  lemma {:induction false} RetryIsExact(times: seq<real>, window: int, limit: int, i: nat, j: nat)
    requires Nondecreasing(times) && i < j < |times| && limit >= 1
    requires forall k: nat | i <= k < j :: !Accepted(times, window, limit, k)
    ensures var s := Swept(Run(times[..i], window, limit), times[i], window);
            var retry := Decision(Run(times[..i], window, limit), times[i], window, limit).retryAfter;
            && s != {}
            && var free := Oldest(s) + window as real;
               && (Accepted(times, window, limit, j) <==> times[j] >= free)
               && times[i] + (retry - 1) as real <= free < times[i] + retry as real
  {
    var before, later := times[..i], times[..j];
    var s := Swept(Run(before, window, limit), times[i], window);
    var t := Swept(Run(later, window, limit), times[j], window);
    assert !Accepted(times, window, limit, i);
    assert before + [times[i]] == times[..i + 1] && later + [times[j]] == times[..j + 1];
    SeesRecentHistory(before, times[i], window, limit);
    SeesRecentHistory(later, times[j], window, limit);
    HistoryOfPrefix(times, window, limit, i, j);
    assert forall x | x in s :: x <= times[i] by { RunAgrees(before, times[i], window, limit); }
    WindowBound(before, window, limit, s);
    assert |s| == limit;
    assert times[i] <= times[j];
    var o := Oldest(s);
    if times[j] >= o + window as real {
      assert o !in t && t <= s;
      ProperSubsetSize(t, s);
    } else {
      assert t == s;
    }
  }

  lemma {:induction false} RetryAfterIsAccepted(times: seq<real>, window: int, limit: int, i: nat, j: nat)
    requires Nondecreasing(times) && i < j < |times| && limit >= 1
    requires forall k: nat | i <= k < j :: !Accepted(times, window, limit, k)
    requires times[j] >= times[i] +
               Decision(Run(times[..i], window, limit), times[i], window, limit).retryAfter as real
    ensures Accepted(times, window, limit, j)
  {
    RetryIsExact(times, window, limit, i, j);
  }

  // ----- requests, not timestamps

  /** The accepted requests of an interval, repeated timestamps counted as often as
      they occur. */
  ghost function AcceptedIn(times: seq<real>, window: int, limit: int, lo: real, hi: real): nat
  {
    if times == [] then 0
    else
      var front, now := times[..|times| - 1], times[|times| - 1];
      AcceptedIn(front, window, limit, lo, hi) +
      if Decision(Run(front, window, limit), now, window, limit).accepted && lo <= now <= hi then 1 else 0
  }

  predicate Rising(times: seq<real>)
  {
    forall i, j | 0 <= i < j < |times| :: times[i] < times[j]
  }

  function Slice(s: set<real>, lo: real, hi: real): set<real>
  {
    set x | x in s && lo <= x <= hi
  }

  lemma {:induction false} HistoryIsPast(times: seq<real>, window: int, limit: int)
    ensures History(times, window, limit) <= Elements(times)
  {
    if times != [] { HistoryIsPast(times[..|times| - 1], window, limit); }
  }

  /** With a limit of at most one, or at rising times, no timestamp is accepted twice. */
  lemma {:induction false} AcceptedIsNew(front: seq<real>, now: real, window: int, limit: int)
    requires Nondecreasing(front + [now]) && window > 0 && (limit <= 1 || Rising(front + [now]))
    requires Decision(Run(front, window, limit), now, window, limit).accepted
    ensures now !in History(front, window, limit)
  {
    if limit <= 1 {
      SeesRecentHistory(front, now, window, limit);
      assert Swept(Run(front, window, limit), now, window) == {};
      assert now !in Swept(Run(front, window, limit), now, window);
    } else {
      HistoryIsPast(front, window, limit);
      var all := front + [now];
      assert forall i | 0 <= i < |front| :: front[i] == all[i] < all[|front|];
    }
  }

  lemma SliceGrows(s: set<real>, x: real, lo: real, hi: real)
    requires x !in s
    ensures |Slice(s + {x}, lo, hi)| == |Slice(s, lo, hi)| + if lo <= x <= hi then 1 else 0
  {
    assert Slice(s + {x}, lo, hi) == Slice(s, lo, hi) + if lo <= x <= hi then {x} else {};
  }

  lemma {:induction false} CountIsSize(times: seq<real>, window: int, limit: int, lo: real, hi: real)
    requires Nondecreasing(times) && window > 0 && (limit <= 1 || Rising(times))
    ensures AcceptedIn(times, window, limit, lo, hi) == |Slice(History(times, window, limit), lo, hi)|
  {
    if times == [] {
      assert Slice({}, lo, hi) == {};
    } else {
      var front, now := times[..|times| - 1], times[|times| - 1];
      assert times == front + [now];
      CountIsSize(front, window, limit, lo, hi);
      if Decision(Run(front, window, limit), now, window, limit).accepted {
        AcceptedIsNew(front, now, window, limit);
        SliceGrows(History(front, window, limit), now, lo, hi);
      }
    }
  }

  lemma {:induction false} NoneInEmpty(times: seq<real>, window: int, limit: int, lo: real, hi: real)
    requires hi < lo
    ensures AcceptedIn(times, window, limit, lo, hi) == 0
  {
    if times != [] { NoneInEmpty(times[..|times| - 1], window, limit, lo, hi); }
  }

  /** A limit of at most one, or rising times, bound requests like timestamps. */
  lemma {:induction false} FairBounded(times: seq<real>, window: int, limit: int, lo: real, hi: real)
    requires Nondecreasing(times) && (limit <= 1 || Rising(times)) && hi - lo < window as real
    ensures AcceptedIn(times, window, limit, lo, hi) <= Cap(limit)
  {
    if window <= 0 {
      NoneInEmpty(times, window, limit, lo, hi);
    } else {
      var s := Slice(History(times, window, limit), lo, hi);
      CountIsSize(times, window, limit, lo, hi);
      assert Within(s, window);
      WindowBound(times, window, limit, s);
    }
  }

  /** No interval shorter than the window holds more than `limit` accepted requests. */
  ghost predicate RequestsBounded(times: seq<real>, window: int, limit: int)
  {
    forall lo, hi | hi - lo < window as real :: AcceptedIn(times, window, limit, lo, hi) <= Cap(limit)
  }

  /** Requests at distinct times are bounded like timestamps. */
  lemma {:induction false} DistinctTimesBounded(times: seq<real>, window: int, limit: int)
    requires Rising(times)
    ensures RequestsBounded(times, window, limit)
  {
    forall lo, hi | hi - lo < window as real ensures AcceptedIn(times, window, limit, lo, hi) <= Cap(limit) {
      FairBounded(times, window, limit, lo, hi);
    }
  }

  function Repeated(n: nat, t: real): (times: seq<real>)
    ensures |times| == n && forall i | 0 <= i < n :: times[i] == t
  {
    if n == 0 then [] else Repeated(n - 1, t) + [t]
  }

  /** A second request at the same instant overwrites the first one's member, so
      with a limit of two or more any number is accepted at one instant. */
  lemma {:induction false} SameInstantUnbounded(n: nat, t: real, window: int, limit: int)
    requires window > 0 && limit >= 2 && t > 0.0
    ensures AcceptedIn(Repeated(n, t), window, limit, t, t) == n
    ensures Run(Repeated(n, t), window, limit) ==
            if n == 0 then EMPTY else Bucket({t}, t + window as real + 5.0)
  {
    if n > 0 {
      SameInstantUnbounded(n - 1, t, window, limit);
      assert Repeated(n, t)[..n - 1] == Repeated(n - 1, t);
      RepeatAccepted(Run(Repeated(n - 1, t), window, limit), t, window, limit);
    }
  }

  lemma RepeatAccepted(b: Bucket, t: real, window: int, limit: int)
    requires window > 0 && limit >= 2 && t > 0.0
    requires b == EMPTY || b == Bucket({t}, t + window as real + 5.0)
    ensures Decision(b, t, window, limit).accepted
    ensures After(b, t, window, limit) == Bucket({t}, t + window as real + 5.0)
  {
    assert Swept(b, t, window) == b.hits;
    assert b.hits + {t} == {t};
  }

  /** The limiter bounds requests, and not only timestamps, in every run if and
      only if the limit is at most one. */
  lemma {:induction false} RequestsBoundedIff(window: int, limit: int)
    requires window > 0
    ensures limit <= 1 <==> forall times | Nondecreasing(times) :: RequestsBounded(times, window, limit)
  {
    if limit <= 1 {
      forall times | Nondecreasing(times) ensures RequestsBounded(times, window, limit) {
        forall lo, hi | hi - lo < window as real ensures AcceptedIn(times, window, limit, lo, hi) <= Cap(limit) {
          FairBounded(times, window, limit, lo, hi);
        }
      }
    } else {
      var times := Repeated(limit + 1, 1.0);
      SameInstantUnbounded(limit + 1, 1.0, window, limit);
      assert AcceptedIn(times, window, limit, 1.0, 1.0) > Cap(limit);
      assert Nondecreasing(times) && !RequestsBounded(times, window, limit);
    }
  }
}
