/** Leader election by one Redis key with a TTL: acquire is SET NX EX, renew and
    release are check-and-set scripts. A worker counts its lease from the moment
    it sent the request that was granted. Times are in seconds. */
module LeaderLease {

  const LEADER_TTL: nat := 30

  type Identity = nat

  datatype Key = Missing | Held(holder: Identity, expiry: nat)
  {
    function Live(now: nat): Key
    {
      if Held? && expiry <= now then Missing else this
    }

    predicate HeldBy(w: Identity, now: nat)
    {
      Live(now).Held? && holder == w
    }
  }

  // ----- the commands

  function Acquired(k: Key, w: Identity, now: nat): Key
  {
    if k.Live(now).Missing? then Held(w, now + LEADER_TTL) else k
  }

  function Renewed(k: Key, w: Identity, now: nat): Key
  {
    if k.HeldBy(w, now) then Held(w, now + LEADER_TTL) else k
  }

  function Released(k: Key, w: Identity, now: nat): Key
  {
    if k.HeldBy(w, now) then Missing else k
  }

  class LeaderKey {
    var key: Key

    constructor ()
      ensures key == Missing
    {
      key := Missing;
    }

    method AcquireLeadership(w: Identity, now: nat) returns (ok: bool)
      modifies this
      ensures ok <==> old(key).Live(now).Missing?
      ensures key == Acquired(old(key), w, now)
      ensures ok <==> old(key).Missing? || old(key).expiry <= now
      ensures ok ==> key == Held(w, now + 30)
    {
      ok := false;
      if key.Missing? || key.expiry <= now {
        key := Held(w, now + LEADER_TTL);
        ok := true;
      }
    }

    method RenewLeadership(w: Identity, now: nat) returns (ok: bool)
      modifies this
      ensures ok <==> old(key).HeldBy(w, now)
      ensures key == Renewed(old(key), w, now)
      ensures ok <==> old(key).Held? && now < old(key).expiry && old(key).holder == w
      ensures key == if ok then Held(w, now + 30) else old(key)
    {
      ok := false;
      if key.Held? && now < key.expiry && key.holder == w {
        key := key.(expiry := now + LEADER_TTL);
        ok := true;
      }
    }

    method ReleaseLeadership(w: Identity, now: nat)
      modifies this
      ensures key == Released(old(key), w, now)
      ensures key == if old(key).Held? && now < old(key).expiry && old(key).holder == w then Missing else old(key)
    {
      if key.Held? && now < key.expiry && key.holder == w { key := Missing; }
    }
  }

  // ----- all workers

  /** `leases` maps a worker to the time it sent its last granted request, until
      it releases or is refused. */
  datatype State = State(now: nat, key: Key, leases: map<Identity, int>)

  /** `lag` is how long ago the request that Redis runs now was sent. A release
      that never arrives still ends the worker's own lease. */
  datatype Step =
    | Tick(seconds: nat)
    | Acquire(w: Identity, lag: nat)
    | Renew(w: Identity, lag: nat)
    | Release(w: Identity, arrives: bool)

  function After(s: State, step: Step): State
  {
    match step
    case Tick(d) => s.(now := s.now + d)
    case Acquire(w, lag) =>
      if s.key.Live(s.now).Missing?
      then s.(key := Acquired(s.key, w, s.now), leases := s.leases[w := s.now - lag])
      else s
    case Renew(w, lag) =>
      if s.key.HeldBy(w, s.now)
      then s.(key := Renewed(s.key, w, s.now), leases := s.leases[w := s.now - lag])
      else s.(leases := s.leases - {w})
    case Release(w, arrives) =>
      s.(key := if arrives then Released(s.key, w, s.now) else s.key, leases := s.leases - {w})
  }

  function Run(s: State, steps: seq<Step>): State
  {
    if steps == [] then s else After(Run(s, steps[..|steps| - 1]), steps[|steps| - 1])
  }

  const BOOT: State := State(0, Missing, map[])

  /** The worker may still act as leader. */
  predicate Leads(s: State, w: Identity)
  {
    w in s.leases && s.now < s.leases[w] + LEADER_TTL
  }

  /** Whoever leads is the identity on record, for as long as its lease lasts. */
  predicate Inv(s: State)
  {
    forall w | w in s.leases && Leads(s, w) ::
      s.key.Held? && s.key.holder == w && s.key.expiry >= s.leases[w] + LEADER_TTL
  }

  lemma StepKeeps(s: State, step: Step)
    requires Inv(s)
    ensures Inv(After(s, step))
  {
    var t := After(s, step);
    forall w | w in t.leases && Leads(t, w)
      ensures t.key.Held? && t.key.holder == w && t.key.expiry >= t.leases[w] + LEADER_TTL
    {
      if w in s.leases && t.leases[w] == s.leases[w] { assert Leads(s, w); }
    }
  }

  lemma {:induction false} RunKeeps(steps: seq<Step>)
    ensures Inv(Run(BOOT, steps))
  {
    if steps != [] {
      RunKeeps(steps[..|steps| - 1]);
      StepKeeps(Run(BOOT, steps[..|steps| - 1]), steps[|steps| - 1]);
    }
  }

  /** In every run, at most one worker leads, it is the stored identity, and its
      renewal would be granted. */
  lemma {:induction false} ExclusiveLease(steps: seq<Step>, v: Identity, w: Identity)
    requires Leads(Run(BOOT, steps), v) && Leads(Run(BOOT, steps), w)
    ensures v == w && Run(BOOT, steps).key.HeldBy(w, Run(BOOT, steps).now)
  {
    RunKeeps(steps);
  }

  /** While a worker leads, no step of another worker touches the key or the
      lease; only its own release ends them before the TTL. */
  lemma {:induction false} LeaseUndisturbed(steps: seq<Step>, more: seq<Step>, w: Identity)
    requires Leads(Run(BOOT, steps), w)
    requires forall i | 0 <= i < |more| :: more[i].Tick? || more[i].w != w
    requires Run(Run(BOOT, steps), more).now < Run(BOOT, steps).leases[w] + LEADER_TTL
    ensures var s, t := Run(BOOT, steps), Run(Run(BOOT, steps), more);
            t.key == s.key && w in t.leases && t.leases[w] == s.leases[w]
  {
    RunKeeps(steps);
    if more != [] {
      var front, step := more[..|more| - 1], more[|more| - 1];
      assert step.Tick? || step.w != w;
      LeaseUndisturbed(steps, front, w);
    }
  }

  /** No key outlives the TTL, and no lease began in the future. */
  predicate Bounded(s: State)
  {
    && (s.key.Held? ==> s.key.expiry <= s.now + LEADER_TTL)
    && forall w | w in s.leases :: s.leases[w] <= s.now
  }

  lemma {:induction false} RunBounded(steps: seq<Step>)
    ensures Bounded(Run(BOOT, steps))
  {
    if steps != [] { RunBounded(steps[..|steps| - 1]); }
  }

  /** What a worker that takes no step leaves behind. */
  lemma {:induction false} Silent(s: State, more: seq<Step>, w: Identity)
    requires Bounded(s) && forall i | 0 <= i < |more| :: more[i].Tick? || more[i].w != w
    ensures var t := Run(s, more);
            && t.now >= s.now
            && (t.key.Held? && t.key.holder == w ==> t.key.expiry <= s.now + LEADER_TTL)
            && (w in t.leases ==> t.leases[w] <= s.now)
  {
    if more != [] {
      Silent(s, more[..|more| - 1], w);
      assert more[|more| - 1].Tick? || more[|more| - 1].w != w;
    }
  }

  /** A leader that dies is replaced: from whatever state it went silent in, once the
      TTL has passed it neither leads nor holds the key, and unless another worker
      holds it by then, whoever acquires next leads. */
  lemma {:induction false} DeadLeaderReplaced(steps: seq<Step>, more: seq<Step>, w: Identity, v: Identity, lag: nat)
    requires forall i | 0 <= i < |more| :: more[i].Tick? || more[i].w != w
    requires Run(Run(BOOT, steps), more).now >= Run(BOOT, steps).now + LEADER_TTL
    ensures var t := Run(Run(BOOT, steps), more);
            && !Leads(t, w) && !t.key.HeldBy(w, t.now)
            && (Leads(After(t, Acquire(v, lag)), v) <==>
                if t.key.Live(t.now).Missing? then lag < LEADER_TTL else Leads(t, v))
  {
    RunBounded(steps);
    Silent(Run(BOOT, steps), more, w);
  }

  /** A release hands over at once: in every run, when the holder's release arrives it no
      longer leads, and whoever acquires next gets the key for the whole TTL and leads
      exactly if its request took less than that. A release of anyone else leaves the
      key to its holder. */
  lemma {:induction false} ReleaseHandsOver(steps: seq<Step>, w: Identity, v: Identity, lag: nat)
    ensures var s := Run(BOOT, steps);
            var t := After(s, Release(w, true));
            var u := After(t, Acquire(v, lag));
            && !Leads(t, w)
            && (if s.key.Held? && s.key.holder != w && s.now < s.key.expiry
                then t.key == u.key == s.key
                else u.key == Held(v, s.now + 30) && (Leads(u, v) <==> lag < 30))
  {}

  lemma {:induction false} RunSnoc(s: State, steps: seq<Step>, step: Step)
    ensures Run(s, steps + [step]) == After(Run(s, steps), step)
  {
    assert (steps + [step])[..|steps|] == steps;
  }

  /** In every run a leader's renewal is granted, for the whole TTL from when it was sent;
      a release that is lost ends its lease and leaves the key to expire. */
  lemma {:induction false} LeaderIsServed(steps: seq<Step>, w: Identity, lag: nat)
    requires Leads(Run(BOOT, steps), w)
    ensures var s := Run(BOOT, steps);
            var t, u := After(s, Renew(w, lag)), After(s, Release(w, false));
            && t == State(s.now, Held(w, s.now + 30), s.leases[w := s.now - lag])
            && u == State(s.now, s.key, s.leases - {w}) && u.key.HeldBy(w, s.now)
  {
    RunKeeps(steps);
  }

  /** One renewal after `d` seconds. */
  function Beats(w: Identity, d: nat, k: nat): seq<Step>
  {
    if k == 0 then [Acquire(w, 0)] else Beats(w, d, k - 1) + [Tick(d)] + [Renew(w, 0)]
  }

  /** A worker that renews within the TTL leads for as long as it does. */
  lemma {:induction false} SteadyLeader(w: Identity, d: nat, k: nat)
    requires d < LEADER_TTL
    ensures var s := Run(BOOT, Beats(w, d, k));
            s == State(k * d, Held(w, k * d + 30), map[w := k * d]) && Leads(After(s, Tick(d)), w)
  {
    if k == 0 {
      RunSnoc(BOOT, [], Acquire(w, 0));
      assert [] + [Acquire(w, 0)] == [Acquire(w, 0)];
    } else {
      SteadyLeader(w, d, k - 1);
      var front := Beats(w, d, k - 1);
      RunSnoc(BOOT, front, Tick(d));
      RunSnoc(BOOT, front + [Tick(d)], Renew(w, 0));
      OneBeat(Run(BOOT, front), w, d, (k - 1) * d);
      assert (k - 1) * d + d == k * d;
    }
  }

  lemma OneBeat(s: State, w: Identity, d: nat, at: nat)
    requires d < LEADER_TTL && s == State(at, Held(w, at + 30), map[w := at])
    ensures After(After(s, Tick(d)), Renew(w, 0)) == State(at + d, Held(w, at + d + 30), map[w := at + d])
  {}
}
