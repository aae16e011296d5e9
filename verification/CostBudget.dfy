/** The fixed-window cost counter: INCRBY on a key that gets its TTL from the
    charge that created it. Refused charges count too. */
module CostBudget {
  import opened Basics

  /** The counter key: missing, or a value with an optional expiry time. */
  datatype Key = Missing | Counter(used: int, expiry: Option<real>)
  {
    function Live(now: real): Key
    {
      if Counter? && expiry.Some? && expiry.value <= now then Missing else this
    }

    /** The TTL command: whole seconds, -1 without an expiry, -2 without a key. */
    function Ttl(now: real): int
    {
      match Live(now)
      case Missing => -2
      case Counter(_, None) => -1
      case Counter(_, Some(e)) => (e - now + 0.5).Floor
    }
  }

  datatype Verdict = Accepted | Refused(retryAfter: int)

  // ----- the script

  function Charged(k: Key, now: real, cost: int, window: int): Key
  {
    var live := k.Live(now);
    var used := (if live.Missing? then 0 else live.used) + cost;
    Counter(used, if used == cost then Some(now + window as real)
                  else if live.Missing? then None else live.expiry)
  }

  function Decision(k: Key, now: real, cost: int, limit: int, window: int): Verdict
  {
    var k' := Charged(k, now, cost, window);
    if k'.used > limit then
      Refused(if k'.Ttl(now) < 0 then window else k'.Ttl(now))
    else Accepted
  }

  class Budget {
    var key: Key

    constructor ()
      ensures key == Missing
    {
      key := Missing;
    }

    /** `_COST_SCRIPT`, command by command. */
    method Script(now: real, cost: int, limit: int, window: int) returns (v: Verdict)
      modifies this
      ensures key == Charged(old(key), now, cost, window)
      ensures v == Decision(old(key), now, cost, limit, window)
      ensures v.Refused? <==> key.used > limit
      ensures v.Refused? && key.expiry.None? ==> v.retryAfter == window
    {
      key := key.Live(now);
      if key.Missing? { key := Counter(0, None); }
      key := key.(used := key.used + cost);
      var used := key.used;
      if used == cost { key := key.(expiry := Some(now + window as real)); }
      if used > limit {
        var ttl := key.Ttl(now);
        if ttl < 0 { ttl := window; }
        return Refused(ttl);
      }
      return Accepted;
    }

    /** `enforce_cost_budget`: nothing to charge, or Redis unreachable, lets the
        request through and leaves the counter alone. */
    method Enforce(now: real, cost: int, limit: int, window: int, redisUp: bool) returns (v: Verdict)
      modifies this
      ensures cost <= 0 || !redisUp ==> v == Accepted && key == old(key)
      ensures cost > 0 && redisUp ==>
                key == Charged(old(key), now, cost, window) && v == Decision(old(key), now, cost, limit, window)
    {
      if cost <= 0 { return Accepted; }
      if !redisUp { return Accepted; }
      v := Script(now, cost, limit, window);
    }
  }

  // ----- every run of charges

  /** The positive charges that reach the script. */
  datatype Charge = Charge(now: real, cost: int)

  datatype Terms = Terms(limit: int, window: int)

  predicate Proper(charges: seq<Charge>)
  {
    && (forall i | 0 <= i < |charges| :: charges[i].cost > 0)
    && (forall i, j | 0 <= i <= j < |charges| :: charges[i].now <= charges[j].now)
  }

  function Run(charges: seq<Charge>, t: Terms): Key
  {
    if charges == [] then Missing
    else
      var c := charges[|charges| - 1];
      Charged(Run(charges[..|charges| - 1], t), c.now, c.cost, t.window)
  }

  predicate Admitted(charges: seq<Charge>, t: Terms, i: nat)
    requires i < |charges|
  {
    Decision(Run(charges[..i], t), charges[i].now, charges[i].cost, t.limit, t.window).Accepted?
  }

  /** The cost accepted during the life of the key as it stands after `charges`. */
  function Spent(charges: seq<Charge>, t: Terms): int
  {
    if charges == [] then 0
    else
      var front, c := charges[..|charges| - 1], charges[|charges| - 1];
      var before := if Run(front, t).Live(c.now).Missing? then 0 else Spent(front, t);
      if Admitted(charges, t, |front|) then before + c.cost else before
  }

  /** The cost accepted from time `a` on. */
  function SpentFrom(charges: seq<Charge>, t: Terms, a: real): int
  {
    if charges == [] then 0
    else
      var front, c := charges[..|charges| - 1], charges[|charges| - 1];
      SpentFrom(front, t, a) + if c.now >= a && Admitted(charges, t, |front|) then c.cost else 0
  }

  /** The cost accepted in the closed interval from `a` to `b`. */
  function SpentIn(charges: seq<Charge>, t: Terms, a: real, b: real): int
  {
    if charges == [] then 0
    else
      var front, c := charges[..|charges| - 1], charges[|charges| - 1];
      SpentIn(front, t, a, b) + if a <= c.now <= b && Admitted(charges, t, |front|) then c.cost else 0
  }

  /** Once a charge was made, the key has a TTL, its value covers what was
      accepted, and what was accepted stays within the limit. */
  lemma {:induction false} LifetimeBound(charges: seq<Charge>, t: Terms)
    requires Proper(charges)
    ensures charges != [] ==>
              var k := Run(charges, t);
              k.Counter? && k.expiry.Some? && k.used > 0 && Spent(charges, t) <= k.used
    ensures 0 <= Spent(charges, t) <= Cap(t.limit)
  {
    if charges != [] {
      var front := charges[..|charges| - 1];
      LifetimeBound(front, t);
      assert charges[..|front|] == front;
    }
  }

  lemma {:induction false} RunPrefix(charges: seq<Charge>, t: Terms, j: nat)
    requires j < |charges|
    ensures Run(charges[..j + 1], t) == Charged(Run(charges[..j], t), charges[j].now, charges[j].cost, t.window)
  {
    assert charges[..j + 1][..j] == charges[..j];
  }

  /** A budget that has been crossed refuses every charge until the key expires,
      and the refused charges do not prolong it. */
  lemma {:induction false} CrossedStaysRefused(charges: seq<Charge>, t: Terms, i: nat, j: nat)
    requires Proper(charges) && i < j < |charges| && !Admitted(charges, t, i)
    requires var k := Run(charges[..i + 1], t); k.Counter? && k.expiry.Some? && charges[j].now < k.expiry.value
    ensures !Admitted(charges, t, j)
    ensures var k, k' := Run(charges[..i + 1], t), Run(charges[..j + 1], t);
            k'.Counter? && k'.expiry == k.expiry && k'.used > t.limit
    decreases j
  {
    RunPrefix(charges, t, j);
    LifetimeBound(charges[..j], t);
    if j == i + 1 {
      RunPrefix(charges, t, i);
    } else {
      assert charges[j - 1].now <= charges[j].now;
      CrossedStaysRefused(charges, t, i, j - 1);
    }
    StillCrossed(Run(charges[..j], t), charges[j], t);
  }

  lemma StillCrossed(k: Key, c: Charge, t: Terms)
    requires k.Counter? && k.expiry.Some? && c.now < k.expiry.value && 0 < k.used && t.limit < k.used && c.cost > 0
    ensures Decision(k, c.now, c.cost, t.limit, t.window).Refused?
    ensures var k' := Charged(k, c.now, c.cost, t.window); k'.Counter? && k'.expiry == k.expiry && k'.used > t.limit
  {}

  // ----- what `retry_after` promises

  /** `retry_after` is the time the key has left, rounded to whole seconds. */
  lemma {:induction false} RetryIsNearest(charges: seq<Charge>, t: Terms, c: Charge)
    requires Proper(charges + [c]) && t.window > 0 && !Admitted(charges + [c], t, |charges|)
    ensures var k := Run(charges + [c], t);
            var v := Decision(Run(charges, t), c.now, c.cost, t.limit, t.window);
            && k.Counter? && k.expiry.Some? && c.now < k.expiry.value && v.Refused?
            && v.retryAfter as real - 0.5 <= k.expiry.value - c.now < v.retryAfter as real + 0.5
  {
    assert (charges + [c])[..|charges|] == charges;
    LifetimeBound(charges + [c], t);
    assert Proper(charges) by {
      assert forall i | 0 <= i < |charges| :: charges[i] == (charges + [c])[i];
    }
    LifetimeBound(charges, t);
  }

  /** A refused caller that comes back after `retry_after` seconds, with a cost within the
      limit and nothing charged meanwhile, is accepted if and only if the time the key
      had left was not rounded down: it had no fraction of a second, or one of at least
      half. */
  lemma {:induction false} RetryHonestIff(charges: seq<Charge>, t: Terms, c: Charge, cost: int)
    requires Proper(charges + [c]) && t.window > 0 && !Admitted(charges + [c], t, |charges|) && 0 < cost <= t.limit
    ensures var k := Run(charges + [c], t);
            var v := Decision(Run(charges, t), c.now, c.cost, t.limit, t.window);
            && k.Counter? && k.expiry.Some? && v.Refused?
            && var left, again := k.expiry.value - c.now, Charge(c.now + v.retryAfter as real, cost);
               Admitted(charges + [c] + [again], t, |charges| + 1) <==>
               left == left.Floor as real || left - left.Floor as real >= 0.5
  {
    RetryIsNearest(charges, t, c);
    var all, k := charges + [c], Run(charges + [c], t);
    assert all[..|charges|] == charges;
    var v := Decision(Run(charges, t), c.now, c.cost, t.limit, t.window);
    var again := Charge(c.now + v.retryAfter as real, cost);
    assert (all + [again])[..|all|] == all;
    assert k.used > t.limit;
    RoundedUp(k.expiry.value - c.now, v.retryAfter);
  }

  lemma RoundedUp(left: real, r: int)
    requires r as real - 0.5 <= left < r as real + 0.5
    ensures left <= r as real <==> left == left.Floor as real || left - left.Floor as real >= 0.5
  {
    var f := left.Floor;
    assert f as real <= left < (f + 1) as real;
    if left - f as real >= 0.5 {
      assert r == f + 1;
    } else {
      assert r == f;
    }
  }

  /** A budget refused with 9.4 seconds left asks for 9, after which it still refuses. */
  lemma {:induction false} RetryFallsShort()
    ensures var t, first, c := Terms(1, 10), Charge(0.0, 1), Charge(0.6, 1);
            && Decision(Run([first], t), c.now, c.cost, t.limit, t.window) == Refused(9)
            && !Admitted([first, c, Charge(9.6, 1)], t, 2)
  {
    var t, first, c := Terms(1, 10), Charge(0.0, 1), Charge(0.6, 1);
    assert [first][..0] == [] && [first, c][..1] == [first];
    assert Run([first], t) == Counter(1, Some(10.0));
    assert (10.0 - 0.6 + 0.5).Floor == 9;
    assert Run([first, c], t) == Counter(2, Some(10.0));
    assert [first, c, Charge(9.6, 1)][..2] == [first, c];
  }

  /** The key's birth: its expiry less the window. */
  function Birth(charges: seq<Charge>, t: Terms): real
  {
    var k := Run(charges, t);
    if k.Counter? && k.expiry.Some? then k.expiry.value - t.window as real else 0.0
  }

  /** From the birth of the key on, only its own lifetime counts; from one window
      earlier, at most one earlier lifetime does. */
  lemma {:induction false} TwoLifetimes(charges: seq<Charge>, t: Terms, a: real)
    requires Proper(charges) && t.window > 0 && charges != []
    ensures Birth(charges, t) <= charges[|charges| - 1].now
    ensures a >= Birth(charges, t) ==> SpentFrom(charges, t, a) <= Spent(charges, t)
    ensures a >= Birth(charges, t) + t.window as real ==> SpentFrom(charges, t, a) == 0
    ensures a >= Birth(charges, t) - t.window as real ==> SpentFrom(charges, t, a) <= Cap(t.limit) + Spent(charges, t)
  {
    var front, c := charges[..|charges| - 1], charges[|charges| - 1];
    assert charges[..|front|] == front;
    LifetimeBound(front, t);
    LifetimeBound(charges, t);
    if front != [] {
      TwoLifetimes(front, t, a);
      assert front[|front| - 1].now <= c.now;
    }
  }

  /** Any closed interval as long as the window admits at most twice the limit. */
  lemma {:induction false} IntervalBound(charges: seq<Charge>, t: Terms, a: real)
    requires Proper(charges) && t.window > 0
    ensures SpentIn(charges, t, a, a + t.window as real) <= 2 * Cap(t.limit)
  {
    if charges != [] {
      var front, c := charges[..|charges| - 1], charges[|charges| - 1];
      IntervalBound(front, t, a);
      if c.now <= a + t.window as real {
        UpToNow(charges, t, a, a + t.window as real);
        TwoLifetimes(charges, t, a);
        LifetimeBound(charges, t);
      }
    }
  }

  lemma {:induction false} UpToNow(charges: seq<Charge>, t: Terms, a: real, b: real)
    requires Proper(charges) && charges != [] && charges[|charges| - 1].now <= b
    ensures SpentIn(charges, t, a, b) == SpentFrom(charges, t, a)
  {
    var front := charges[..|charges| - 1];
    if front != [] {
      assert front[|front| - 1].now <= charges[|charges| - 1].now;
      UpToNow(front, t, a, b);
    }
  }

  /** The bound is reached: a full budget at the end of one lifetime and another
      at the start of the next fall into one interval. */
  lemma {:induction false} IntervalBoundIsTight(t: Terms)
    requires t.window > 1 && t.limit >= 2
    ensures var w := t.window as real;
            var charges := [Charge(0.0, 1), Charge(w - 1.0, t.limit - 1), Charge(w, t.limit)];
            Proper(charges) && SpentIn(charges, t, 0.0, w) == 2 * t.limit
  {
    var w := t.window as real;
    var c0, c1, c2 := Charge(0.0, 1), Charge(w - 1.0, t.limit - 1), Charge(w, t.limit);
    var all := [c0, c1, c2];
    assert all[..2] == [c0, c1] && [c0, c1][..1] == [c0] && [c0][..0] == [];
    assert all[..1] == [c0] && all[..0] == [];
    assert Run([c0], t) == Counter(1, Some(w));
    assert Run([c0, c1], t) == Counter(t.limit, Some(w));
    assert Admitted([c0], t, 0);
    assert Admitted([c0, c1], t, 1);
    assert Admitted(all, t, 2);
    assert SpentIn([c0], t, 0.0, w) == 1;
    assert SpentIn([c0, c1], t, 0.0, w) == t.limit;
  }
}
