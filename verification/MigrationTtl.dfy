/** The expiry of one account's new key while workers fold legacy keys into it and
    live requests refresh it. A worker reads the legacy TTL, folds the fields, reads
    the new key's TTL, and extends it when it is the shorter one; the read and the
    EXPIRE are separate commands. Times are in seconds. */
module MigrationTtl {

  /** The new key: absent, without an expiry, or with one. */
  datatype Key = Missing | Plain | Expiring(at: int)
  {
    function Live(now: int): Key
    {
      if Expiring? && at <= now then Missing else this
    }

    /** TTL: -2 without a key, -1 without an expiry. */
    function Ttl(now: int): int
    {
      match Live(now)
      case Missing => -2
      case Plain => -1
      case Expiring(at) => at - now
    }

    function Expired(now: int, ttl: int): Key
    {
      if Live(now).Missing? then Missing else Expiring(now + ttl)
    }
  }

  /** Where a worker is with this account: between keys, with the legacy TTL read, with
      the fields folded, or with the new key's TTL compared. `refreshes` is the number
      of live refreshes when it read that. */
  datatype Worker =
    | Idle
    | Reading(ttl: int)
    | Folded(ttl: int)
    | Compared(ttl: int, current: int, readAt: int, refreshes: nat)

  /** `promised` is until when the last live refresh keeps the key. */
  datatype State = State(now: int, key: Key, workers: seq<Worker>, promised: int, refreshes: nat)

  datatype Step =
    | Tick(seconds: nat)
    | Refresh(seconds: nat)
    | ReadLegacy(w: nat, ttl: int)
    | Fold(w: nat, writes: bool)
    | Compare(w: nat)
    | Expire(w: nat)
    | Leave(w: nat)

  predicate Enabled(s: State, step: Step)
  {
    match step
    case Tick(_) => true
    case Refresh(_) => true
    case ReadLegacy(w, _) => w < |s.workers| && s.workers[w].Idle?
    case Fold(w, _) => w < |s.workers| && s.workers[w].Reading?
    case Compare(w) => w < |s.workers| && s.workers[w].Folded? && s.workers[w].ttl > 0
    case Expire(w) => w < |s.workers| && s.workers[w].Compared? && s.workers[w].current < s.workers[w].ttl
    case Leave(w) => w < |s.workers|
  }

  function Become(s: State, w: nat, k: Worker): State
    requires w < |s.workers|
  {
    s.(workers := s.workers[w := k])
  }

  function After(s: State, step: Step): State
    requires Enabled(s, step)
  {
    match step
    case Tick(d) => s.(now := s.now + d)
    case Refresh(d) =>
      s.(key := Expiring(s.now + d), promised := s.now + d, refreshes := s.refreshes + 1)
    case ReadLegacy(w, ttl) => Become(s, w, Reading(ttl))
    case Fold(w, writes) =>
      var s' := Become(s, w, Folded(s.workers[w].ttl));
      if writes && s.key.Live(s.now).Missing? then s'.(key := Plain) else s'
    case Compare(w) => Become(s, w, Compared(s.workers[w].ttl, s.key.Ttl(s.now), s.now, s.refreshes))
    case Expire(w) => Become(s, w, Idle).(key := s.key.Expired(s.now, s.workers[w].ttl))
    case Leave(w) => Become(s, w, Idle)
  }

  /** A run; a step that is not enabled does nothing. */
  function Run(s: State, steps: seq<Step>): State
  {
    if steps == [] then s
    else
      var t := Run(s, steps[..|steps| - 1]);
      if Enabled(t, steps[|steps| - 1]) then After(t, steps[|steps| - 1]) else t
  }

  function Boot(n: nat): State
  {
    State(0, Missing, seq(n, _ => Idle), 0, 0)
  }

  /** While the last live refresh still counts, the key lives at least that long. */
  predicate Kept(s: State)
  {
    s.promised > s.now ==> s.key.Plain? || (s.key.Expiring? && s.key.at >= s.promised)
  }

  /** The step is an EXPIRE that takes effect after a live refresh the worker has not
      seen, and that refresh promised more. */
  predicate Late(s: State, step: Step)
  {
    && step.Expire? && Enabled(s, step)
    && s.refreshes > s.workers[step.w].refreshes && s.promised > s.now + s.workers[step.w].ttl
  }

  // ----- what every step keeps

  /** A key without an expiry was never promised one that still counts. What a worker
      has compared covers every refresh it has seen. */
  predicate Inv(s: State)
  {
    && (s.key.Plain? ==> s.promised <= s.now)
    && forall i | 0 <= i < |s.workers| && s.workers[i].Compared? ::
         var k := s.workers[i];
         && k.ttl > 0 && k.refreshes <= s.refreshes && k.readAt <= s.now
         && (k.refreshes == s.refreshes && k.current < k.ttl ==> s.promised <= k.readAt + k.ttl)
  }

  lemma StepKeeps(s: State, step: Step)
    requires Inv(s) && Kept(s) && Enabled(s, step)
    ensures Inv(After(s, step))
    ensures Kept(After(s, step)) <==> !Late(s, step)
  {}

  predicate LateSomewhere(n: nat, steps: seq<Step>)
  {
    exists k | 0 <= k < |steps| :: Late(Run(Boot(n), steps[..k]), steps[k])
  }

  predicate AlwaysKept(n: nat, steps: seq<Step>)
  {
    forall k | 0 <= k <= |steps| :: Kept(Run(Boot(n), steps[..k]))
  }

  lemma {:induction false} AlwaysSnoc(n: nat, front: seq<Step>, step: Step)
    ensures AlwaysKept(n, front + [step]) <==> AlwaysKept(n, front) && Kept(Run(Boot(n), front + [step]))
    ensures LateSomewhere(n, front + [step]) <==> LateSomewhere(n, front) || Late(Run(Boot(n), front), step)
  {
    var all := front + [step];
    assert all[..|all|] == all && all[..|front|] == front && all[|front|] == step;
    forall k | 0 <= k <= |front| ensures all[..k] == front[..k] {}
  }

  lemma {:induction false} RunSnoc(s: State, front: seq<Step>, step: Step)
    ensures var t := Run(s, front);
            Run(s, front + [step]) == if Enabled(t, step) then After(t, step) else t
  {
    assert (front + [step])[..|front|] == front;
  }

  lemma {:induction false} KeptIff(n: nat, steps: seq<Step>)
    ensures AlwaysKept(n, steps) ==> Inv(Run(Boot(n), steps))
    ensures AlwaysKept(n, steps) <==> !LateSomewhere(n, steps)
  {
    if steps != [] {
      var front, step := steps[..|steps| - 1], steps[|steps| - 1];
      assert steps == front + [step];
      KeptIff(n, front);
      AlwaysSnoc(n, front, step);
      RunSnoc(Boot(n), front, step);
      var t := Run(Boot(n), front);
      if AlwaysKept(n, front) {
        assert front[..|front|] == front;
        if Enabled(t, step) { StepKeeps(t, step); }
      }
    } else {
      assert steps[..0] == [];
    }
  }

  /** In every run of any number of workers, a TTL that a live request refreshed is
      never shortened if and only if no worker's EXPIRE comes after a refresh that
      fell between the worker's TTL read and its EXPIRE and promised more. */
  lemma {:induction false} TtlKeptIff(n: nat, steps: seq<Step>)
    ensures AlwaysKept(n, steps) <==> !LateSomewhere(n, steps)
  {
    KeptIff(n, steps);
  }

  /** A refresh to ninety days between a worker's two commands is cut back to the day
      that was left of the legacy key. */
  lemma {:induction false} RefreshIsShortened()
    ensures var t := Run(Boot(1), [ReadLegacy(0, 86400), Fold(0, true), Compare(0), Refresh(7776000), Expire(0)]);
            t.promised == 7776000 && t.key == Expiring(86400)
  {
    var s := State(0, Missing, [Idle], 0, 0);
    var front := [ReadLegacy(0, 86400), Fold(0, true), Compare(0)];
    assert Boot(1).workers == [Idle];
    ComparedFirst(s);
    RunSnoc(s, front, Refresh(7776000));
    RunSnoc(s, front + [Refresh(7776000)], Expire(0));
    assert front + [Refresh(7776000)] + [Expire(0)] ==
           [ReadLegacy(0, 86400), Fold(0, true), Compare(0), Refresh(7776000), Expire(0)];
  }

  lemma {:induction false} ComparedFirst(s: State)
    requires s == State(0, Missing, [Idle], 0, 0)
    ensures Run(s, [ReadLegacy(0, 86400), Fold(0, true), Compare(0)]) ==
            State(0, Plain, [Compared(86400, -1, 0, 0)], 0, 0)
  {
    var p1: seq<Step> := [ReadLegacy(0, 86400)];
    assert [] + [ReadLegacy(0, 86400)] == p1;
    RunSnoc(s, [], ReadLegacy(0, 86400));
    RunSnoc(s, p1, Fold(0, true));
    RunSnoc(s, p1 + [Fold(0, true)], Compare(0));
    assert p1 + [Fold(0, true)] + [Compare(0)] == [ReadLegacy(0, 86400), Fold(0, true), Compare(0)];
  }

  /** A worker that is not interrupted leaves the longer of the two expiries: a live key
      with an expiry keeps the later one, a key without one takes the legacy TTL, and a
      missing key is made only by a fold that writes. */
  lemma {:induction false} LongerWins(s: State, w: nat, ttl: int, writes: bool)
    requires w < |s.workers| && s.workers[w].Idle? && ttl > 0
    ensures var t := Run(s, [ReadLegacy(w, ttl)] + [Fold(w, writes)] + [Compare(w)] + [Expire(w)] + [Leave(w)]);
            && t.workers == s.workers && t.now == s.now
            && (s.key.Expiring? && s.now < s.key.at ==>
                  t.key == Expiring(if s.key.at < s.now + ttl then s.now + ttl else s.key.at))
            && (s.key.Plain? ==> t.key == Expiring(s.now + ttl))
            && (s.key.Missing? || (s.key.Expiring? && s.key.at <= s.now) ==>
                  t.key.Live(s.now) == if writes then Expiring(s.now + ttl) else Missing)
  {
    var p1 := [ReadLegacy(w, ttl)];
    var p2 := p1 + [Fold(w, writes)];
    var p3 := p2 + [Compare(w)];
    RunSnoc(s, [], ReadLegacy(w, ttl));
    assert [] + [ReadLegacy(w, ttl)] == p1;
    RunSnoc(s, p1, Fold(w, writes));
    RunSnoc(s, p2, Compare(w));
    RunSnoc(s, p3, Expire(w));
    RunSnoc(s, p3 + [Expire(w)], Leave(w));
  }

  /** A refresh lasts exactly as long as it promised when nothing else touches the key. */
  lemma {:induction false} RefreshLasts(s: State, promised: nat, later: nat)
    ensures var t := Run(s, [Refresh(promised)] + [Tick(later)]);
            t.now == s.now + later && t.key.Ttl(t.now) == if later < promised then promised - later else -2
  {
    RunSnoc(s, [], Refresh(promised));
    assert [] + [Refresh(promised)] == [Refresh(promised)];
    RunSnoc(s, [Refresh(promised)], Tick(later));
  }
}
