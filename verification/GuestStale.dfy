/** How long a number that is no guest can stay in the guest mirror: a rebuild keeps
    every pending mark, and each mark of any number extends the time all of them
    stay pending. */
module GuestStale {
  import opened GuestMirror

  predicate Marks(step: Step, u: Uin)
  {
    IsMark(step) && step.u == u
  }

  predicate Removes(step: Step, u: Uin)
  {
    step == Unmark(u) || step.LoseData?
  }

  /** When any number was marked last; long ago when none was. */
  function LastMark(s: State, steps: seq<Step>): int
  {
    if steps == [] then -PENDING_TTL
    else
      var front := steps[..|steps| - 1];
      if IsMark(steps[|steps| - 1]) then Run(s, front).now else LastMark(s, front)
  }

  /** At no point after step `i` had the pending TTL passed since the latest mark. */
  predicate Unpaused(s: State, steps: seq<Step>, i: nat)
  {
    |steps| > i ==>
      Run(s, steps).now < LastMark(s, steps) + PENDING_TTL && Unpaused(s, steps[..|steps| - 1], i)
  }

  predicate Kept(steps: seq<Step>, i: nat, u: Uin)
  {
    forall m | i < m < |steps| :: !Removes(steps[m], u)
  }

  /** Step `i` marked `u`, nothing has unmarked it, and marks have not paused since. */
  predicate PendingSince(s: State, steps: seq<Step>, i: nat, u: Uin)
  {
    i < |steps| && Marks(steps[i], u) && Kept(steps, i, u) && Unpaused(s, steps, i)
  }

  lemma StepExpiry(s: State, step: Step, last: int)
    requires s.redis.pendingExpiry <= last + PENDING_TTL || s.redis.pending == {}
    requires !IsMark(step)
    ensures After(s, step).redis.pendingExpiry <= last + PENDING_TTL || After(s, step).redis.pending == {}
  {}

  lemma {:induction false} ExpiryBound(table: set<Uin>, steps: seq<Step>)
    ensures Run(Boot(table), steps).redis.pendingExpiry <= LastMark(Boot(table), steps) + PENDING_TTL
            || Run(Boot(table), steps).redis.pending == {}
  {
    if steps != [] {
      var front, step := steps[..|steps| - 1], steps[|steps| - 1];
      ExpiryBound(table, front);
      if !IsMark(step) { StepExpiry(Run(Boot(table), front), step, LastMark(Boot(table), front)); }
    }
  }

  /** A live pending mark was there before, or is new. */
  lemma StepLive(s: State, step: Step, u: Uin)
    requires u in After(s, step).redis.Live(After(s, step).now) && !Marks(step, u)
    ensures u in s.redis.Live(s.now) && !Removes(step, u)
  {}

  lemma {:induction false} PendingHasMark(table: set<Uin>, steps: seq<Step>, u: Uin) returns (i: nat)
    requires var t := Run(Boot(table), steps); u in t.redis.Live(t.now)
    ensures PendingSince(Boot(table), steps, i, u)
  {
    if steps == [] {
      assert false;
    }
    var s, front, step := Boot(table), steps[..|steps| - 1], steps[|steps| - 1];
    assert steps == front + [step];
    if Marks(step, u) {
      i := |front|;
    } else {
      StepLive(Run(s, front), step, u);
      i := PendingHasMark(table, front, u);
      ExpiryBound(table, steps);
    }
  }

  lemma {:induction false} MarkPends(s: State, steps: seq<Step>, i: nat, u: Uin)
    requires PendingSince(s, steps, i, u)
    ensures var t := Run(s, steps);
            u in t.redis.Live(t.now) && t.redis.pendingExpiry == LastMark(s, steps) + PENDING_TTL
  {
    if i < |steps| - 1 {
      MarkPends(s, steps[..|steps| - 1], i, u);
      assert !Removes(steps[|steps| - 1], u);
    }
  }

  /** In every run, a number is pending if and only if some step marked it, nothing has
      unmarked it, and at no point since has the pending TTL passed without a mark of
      some number. */
  lemma {:induction false} PendingIff(table: set<Uin>, steps: seq<Step>, u: Uin)
    ensures var t := Run(Boot(table), steps);
            u in t.redis.Live(t.now) <==> exists i: nat :: PendingSince(Boot(table), steps, i, u)
  {
    var t := Run(Boot(table), steps);
    if u in t.redis.Live(t.now) {
      var i := PendingHasMark(table, steps, u);
    }
    if i: nat :| PendingSince(Boot(table), steps, i, u) {
      MarkPends(Boot(table), steps, i, u);
    }
  }

  /** A rebuild that read the table without `u` leaves `u` in the mirror if and only if
      marks have not paused since a mark of `u`. */
  lemma {:induction false} StaleStaysIff(table: set<Uin>, steps: seq<Step>, id: nat, u: Uin)
    requires var t := Run(Boot(table), steps); id in t.rebuilds && u !in t.rebuilds[id].rows
    ensures u in After(Run(Boot(table), steps), WriteMirror(id)).redis.guests <==>
            exists i: nat :: PendingSince(Boot(table), steps, i, u)
  {
    PendingIff(table, steps, u);
  }

  /** Once the pending TTL has passed without a mark, a rebuild makes the mirror what it
      has read. */
  lemma {:induction false} PauseClears(table: set<Uin>, steps: seq<Step>, id: nat)
    requires var t := Run(Boot(table), steps);
             id in t.rebuilds && t.now >= LastMark(Boot(table), steps) + PENDING_TTL
    ensures var t := Run(Boot(table), steps); After(t, WriteMirror(id)).redis.guests == t.rebuilds[id].rows
  {
    ExpiryBound(table, steps);
  }

  // ----- how long a live marker can cover a stale entry

  lemma StepMarkerBound(s: State, step: Step)
    requires s.redis.markerExpiry <= s.now + GUEST_TTL
    ensures After(s, step).redis.markerExpiry <= After(s, step).now + GUEST_TTL
  {}

  lemma {:induction false} MarkerBound(table: set<Uin>, steps: seq<Step>)
    ensures Run(Boot(table), steps).redis.markerExpiry <= Run(Boot(table), steps).now + GUEST_TTL
  {
    if steps != [] {
      MarkerBound(table, steps[..|steps| - 1]);
      StepMarkerBound(Run(Boot(table), steps[..|steps| - 1]), steps[|steps| - 1]);
    }
  }

  /** Step `i` is the rebuild that set the marker, and the mirror holds no more than
      it has read. */
  predicate HoldsOnlyRows(table: set<Uin>, steps: seq<Step>, i: nat)
  {
    i < |steps| && steps[i].WriteMirror? &&
    var w, t := Run(Boot(table), steps[..i]), Run(Boot(table), steps);
    && steps[i].id in w.rebuilds && t.redis.markerExpiry == w.now + GUEST_TTL
    && t.redis.guests <= w.rebuilds[steps[i].id].rows
  }

  lemma StepMarker(s: State, step: Step)
    requires var t := After(s, step); t.now < t.redis.markerExpiry && !IsMark(step)
    requires !(step.WriteMirror? && step.id in s.rebuilds)
    ensures var t := After(s, step);
            s.now <= t.now && t.redis.markerExpiry == s.redis.markerExpiry && t.redis.guests <= s.redis.guests
  {}

  lemma {:induction false} MarkerHasRebuild(table: set<Uin>, steps: seq<Step>) returns (i: nat)
    requires var t := Run(Boot(table), steps);
             && t.now < t.redis.markerExpiry
             && LastMark(Boot(table), steps) + PENDING_TTL + GUEST_TTL <= t.redis.markerExpiry
    ensures HoldsOnlyRows(table, steps, i)
  {
    if steps == [] {
      assert false;
    }
    var s, front, step := Boot(table), steps[..|steps| - 1], steps[|steps| - 1];
    var w := Run(s, front);
    if step.WriteMirror? && step.id in w.rebuilds {
      i := |front|;
      ExpiryBound(table, front);
    } else if IsMark(step) {
      MarkerBound(table, steps);
      assert false;
    } else {
      StepMarker(w, step);
      i := MarkerHasRebuild(table, front);
      assert front[..i] == steps[..i];
    }
  }

  /** The marker's 300 seconds plus the pending TTL after the last mark of any number,
      a mirror whose marker is live holds only rows that a rebuild of the last 300
      seconds has read. */
  lemma {:induction false} StaleBound(table: set<Uin>, steps: seq<Step>) returns (i: nat)
    requires var t := Run(Boot(table), steps);
             && t.now < t.redis.markerExpiry
             && t.now >= LastMark(Boot(table), steps) + PENDING_TTL + GUEST_TTL
    ensures HoldsOnlyRows(table, steps, i) && Run(Boot(table), steps).now < Run(Boot(table), steps[..i]).now + GUEST_TTL
  {
    i := MarkerHasRebuild(table, steps);
  }

  // ----- steady minting

  const STALE: Uin := 1

  /** `k` minutes into steady minting: number 1 is no guest and has no request, and is
      still pending. */
  predicate Steady(s: State, k: nat)
  {
    && s.now == 60 * k && s.ops == map[] && s.rebuilds == map[]
    && (forall v | v in s.table :: 2 <= v < 2 + k)
    && STALE in s.redis.guests && STALE in s.redis.pending && s.redis.pendingExpiry == s.now + PENDING_TTL
  }

  /** One more guest a minute later. */
  function Mint(k: nat): seq<Step>
  {
    [Tick(60), MarkMint(2 + k), CommitMint(2 + k)]
  }

  const REBUILD: seq<Step> := [ReadTable(0), WriteMirror(0)]

  lemma {:induction false} MintKeepsStale(l: Limits, s: State, k: nat)
    requires Steady(s, k)
    ensures Legal(l, s, Mint(k)) && Steady(Run(s, Mint(k)), k + 1)
  {
    RunSnoc(l, s, [], Tick(60));
    RunSnoc(l, s, [] + [Tick(60)], MarkMint(2 + k));
    RunSnoc(l, s, [] + [Tick(60)] + [MarkMint(2 + k)], CommitMint(2 + k));
    assert [] + [Tick(60)] + [MarkMint(2 + k)] + [CommitMint(2 + k)] == Mint(k);
  }

  lemma {:induction false} RebuildKeepsStale(l: Limits, s: State, k: nat)
    requires Steady(s, k)
    ensures Legal(l, s, REBUILD) && Steady(Run(s, REBUILD), k)
  {
    RunSnoc(l, s, [], ReadTable(0));
    RunSnoc(l, s, [] + [ReadTable(0)], WriteMirror(0));
    assert [] + [ReadTable(0)] + [WriteMirror(0)] == REBUILD;
  }

  lemma {:induction false} RunOn(l: Limits, s: State, a: seq<Step>, b: seq<Step>)
    requires Legal(l, s, a) && Legal(l, Run(s, a), b)
    ensures Legal(l, s, a + b) && Run(s, a + b) == Run(Run(s, a), b)
  {
    if b == [] {
      assert a + b == a;
    } else {
      var front, step := b[..|b| - 1], b[|b| - 1];
      RunOn(l, s, a, front);
      assert a + b == (a + front) + [step];
      RunSnoc(l, s, a + front, step);
    }
  }

  /** A mint that failed, and an unmark that was lost. */
  lemma {:induction false} LostUnmark(l: Limits) returns (steps: seq<Step>)
    ensures Legal(l, Boot({}), steps) && Steady(Run(Boot({}), steps), 0)
  {
    steps := [];
    RunSnoc(l, Boot({}), steps, MarkMint(STALE));
    steps := steps + [MarkMint(STALE)];
    RunSnoc(l, Boot({}), steps, FailMint(STALE));
    steps := steps + [FailMint(STALE)];
    RunSnoc(l, Boot({}), steps, UnmarkFails(STALE, false));
    steps := steps + [UnmarkFails(STALE, false)];
  }

  /** A stale entry outlives every number of minutes and rebuilds while some guest is
      minted each minute, whatever the time limits. */
  lemma {:induction false} SteadyMintsKeepStale(l: Limits, k: nat) returns (steps: seq<Step>)
    ensures Legal(l, Boot({}), steps) && Run(Boot({}), steps).now == 60 * k && Extra(Run(Boot({}), steps), STALE)
    ensures Steady(Run(Boot({}), steps), k)
  {
    if k == 0 {
      steps := LostUnmark(l);
    } else {
      steps := SteadyMintsKeepStale(l, k - 1);
      MintKeepsStale(l, Run(Boot({}), steps), k - 1);
      RunOn(l, Boot({}), steps, Mint(k - 1));
      steps := steps + Mint(k - 1);
      RebuildKeepsStale(l, Run(Boot({}), steps), k);
      RunOn(l, Boot({}), steps, REBUILD);
      steps := steps + REBUILD;
    }
  }
}
