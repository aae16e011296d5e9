/** Who rebuilds a mirror: one background task per worker, paced by a pause
    after each attempt, and one rebuild per island, held by a Redis lock with a
    TTL. The lock carries no owner, so whoever finishes deletes it. Times are
    in seconds. */
module MirrorLock {

  const LOCK_TTL: int := 30
  const RETRY_AFTER: int := 2

  datatype Phase = Idle | Queued | Rebuilding(since: int)

  datatype Worker = Worker(phase: Phase, nextKick: int)

  /** The expiry of the lock key; a time that has passed means no lock. */
  datatype State = State(now: int, lockExpiry: int, workers: seq<Worker>)

  // ----- one worker, as methods

  class LockKey {
    var expiry: int

    constructor ()
      ensures expiry == 0
    {
      expiry := 0;
    }

    /** `SET lock 1 NX EX 30` */
    method SetNx(now: int) returns (won: bool)
      modifies this
      ensures won == (old(expiry) <= now)
      ensures expiry == if won then now + LOCK_TTL else old(expiry)
    {
      won := expiry <= now;
      if won { expiry := now + LOCK_TTL; }
    }
  }

  class Mirror {
    var phase: Phase
    var nextKick: int
    const lock: LockKey

    function Value(): Worker
      reads this
    {
      Worker(phase, nextKick)
    }

    constructor (lock: LockKey)
      ensures Value() == Worker(Idle, 0) && this.lock == lock
    {
      phase, nextKick := Idle, 0;
      this.lock := lock;
    }

    /** Starts a task, unless one is running or the pause is not over. */
    method Kick(now: int)
      modifies this
      ensures Value() == Kicked(old(Value()), now)
    {
      if now < nextKick || phase != Idle { return; }
      phase := Queued;
    }

    method TakeLock(now: int) returns (won: bool)
      requires phase == Queued
      modifies this, lock
      ensures won == (old(lock.expiry) <= now)
      ensures Value() == LockTried(old(Value()), now, old(lock.expiry))
      ensures lock.expiry == if won then now + LOCK_TTL else old(lock.expiry)
    {
      won := lock.SetNx(now);
      if won {
        phase := Rebuilding(now);
      } else {
        phase, nextKick := Idle, now + RETRY_AFTER;
      }
    }

    /** The end of an attempt; the DELETE may fail, and then the lock expires on its own. */
    method Finish(now: int, deletes: bool)
      modifies this, lock
      ensures Value() == Worker(Idle, now + RETRY_AFTER)
      ensures lock.expiry == if deletes then now else old(lock.expiry)
    {
      if deletes { lock.expiry := now; }
      phase, nextKick := Idle, now + RETRY_AFTER;
    }
  }

  function Kicked(w: Worker, now: int): Worker
  {
    if now < w.nextKick || w.phase != Idle then w else w.(phase := Queued)
  }

  function LockTried(w: Worker, now: int, lockExpiry: int): Worker
  {
    if lockExpiry <= now then w.(phase := Rebuilding(now)) else Worker(Idle, now + RETRY_AFTER)
  }

  // ----- all workers of an island

  datatype Step =
    | Tick(seconds: nat)
    | Kick(w: nat)
    | TakeLock(w: nat)
    | Finish(w: nat, deletes: bool)

  /** `longest` bounds a rebuild: time does not pass over one that is overdue. */
  predicate Enabled(longest: nat, s: State, step: Step)
  {
    match step
    case Tick(d) => forall i | 0 <= i < |s.workers| && s.workers[i].phase.Rebuilding? ::
                      s.now + d <= s.workers[i].phase.since + longest
    case Kick(w) => w < |s.workers|
    case TakeLock(w) => w < |s.workers| && s.workers[w].phase == Queued
    case Finish(w, _) => w < |s.workers| && s.workers[w].phase.Rebuilding?
  }

  function After(s: State, step: Step): State
  {
    match step
    case Tick(d) => s.(now := s.now + d)
    case Kick(w) =>
      if w < |s.workers| then s.(workers := s.workers[w := Kicked(s.workers[w], s.now)]) else s
    case TakeLock(w) =>
      if w < |s.workers|
      then s.(workers := s.workers[w := LockTried(s.workers[w], s.now, s.lockExpiry)],
              lockExpiry := if s.lockExpiry <= s.now then s.now + LOCK_TTL else s.lockExpiry)
      else s
    case Finish(w, deletes) =>
      if w < |s.workers|
      then s.(workers := s.workers[w := Worker(Idle, s.now + RETRY_AFTER)],
              lockExpiry := if deletes then s.now else s.lockExpiry)
      else s
  }

  function Boot(n: nat): State
  {
    State(0, 0, seq(n, _ => Worker(Idle, 0)))
  }

  function Run(s: State, steps: seq<Step>): State
  {
    if steps == [] then s else After(Run(s, steps[..|steps| - 1]), steps[|steps| - 1])
  }

  predicate Legal(longest: nat, s: State, steps: seq<Step>)
  {
    steps != [] ==>
      && Legal(longest, s, steps[..|steps| - 1])
      && Enabled(longest, Run(s, steps[..|steps| - 1]), steps[|steps| - 1])
  }

  // ----- one rebuild per island

  predicate Exclusive(s: State)
  {
    forall i, j | 0 <= i < j < |s.workers| ::
      !(s.workers[i].phase.Rebuilding? && s.workers[j].phase.Rebuilding?)
  }

  /** The lock on record is the one the rebuilding worker took, and it is live. */
  predicate LockHeld(longest: nat, s: State)
  {
    forall i | 0 <= i < |s.workers| && s.workers[i].phase.Rebuilding? ::
      && s.workers[i].phase.since <= s.now <= s.workers[i].phase.since + longest
      && s.lockExpiry == s.workers[i].phase.since + LOCK_TTL
  }

  lemma {:induction false} LockKept(longest: nat, n: nat, steps: seq<Step>)
    requires longest < LOCK_TTL && Legal(longest, Boot(n), steps)
    ensures Exclusive(Run(Boot(n), steps)) && LockHeld(longest, Run(Boot(n), steps))
  {
    if steps != [] {
      LockKept(longest, n, steps[..|steps| - 1]);
    }
  }

  lemma {:induction false} RunSnoc(longest: nat, s: State, steps: seq<Step>, step: Step)
    requires Legal(longest, s, steps) && Enabled(longest, Run(s, steps), step)
    ensures Legal(longest, s, steps + [step])
    ensures Run(s, steps + [step]) == After(Run(s, steps), step)
  {
    assert (steps + [step])[..|steps|] == steps;
  }

  lemma FirstTakes(s: State)
    requires s.now == s.lockExpiry == 0 && |s.workers| >= 1 && s.workers[0] == Worker(Idle, 0)
    ensures After(After(s, Kick(0)), TakeLock(0)) == State(0, LOCK_TTL, s.workers[0 := Worker(Rebuilding(0), 0)])
  {}

  /** One worker rebuilds for as long as the lock lasts. */
  lemma {:induction false} OneRebuilds(longest: nat, n: nat) returns (steps: seq<Step>)
    requires longest >= LOCK_TTL && n >= 2
    ensures Legal(longest, Boot(n), steps)
    ensures Run(Boot(n), steps) == State(LOCK_TTL, LOCK_TTL, Boot(n).workers[0 := Worker(Rebuilding(0), 0)])
  {
    var s := Boot(n);
    FirstTakes(s);
    steps := [];
    RunSnoc(longest, s, steps, Kick(0));
    steps := steps + [Kick(0)];
    RunSnoc(longest, s, steps, TakeLock(0));
    steps := steps + [TakeLock(0)];
    RunSnoc(longest, s, steps, Tick(LOCK_TTL));
    steps := steps + [Tick(LOCK_TTL)];
  }

  /** A rebuild as long as the lock's TTL lets a second worker in. */
  lemma {:induction false} SlowRebuildOverlaps(longest: nat, n: nat) returns (steps: seq<Step>)
    requires longest >= LOCK_TTL && n >= 2
    ensures Legal(longest, Boot(n), steps) && !Exclusive(Run(Boot(n), steps))
  {
    steps := OneRebuilds(longest, n);
    RunSnoc(longest, Boot(n), steps, Kick(1));
    steps := steps + [Kick(1)];
    RunSnoc(longest, Boot(n), steps, TakeLock(1));
    steps := steps + [TakeLock(1)];
    var t := Run(Boot(n), steps);
    assert t.workers[0].phase.Rebuilding? && t.workers[1].phase.Rebuilding?;
  }

  /** With two workers or more, no two ever rebuild at once if and only if every
      rebuild ends before the lock's TTL. */
  lemma ExclusiveIff(longest: nat, n: nat)
    requires n >= 2
    ensures longest < LOCK_TTL <==>
            forall steps | Legal(longest, Boot(n), steps) :: Exclusive(Run(Boot(n), steps))
  {
    if longest < LOCK_TTL {
      forall steps | Legal(longest, Boot(n), steps) ensures Exclusive(Run(Boot(n), steps)) {
        LockKept(longest, n, steps);
      }
    } else {
      var steps := SlowRebuildOverlaps(longest, n);
    }
  }

  /** A worker's attempts are paced: between the end of one and the start of the
      next lies at least the pause. */
  lemma {:induction false} AttemptsPaced(longest: nat, s: State, steps: seq<Step>, w: nat)
    requires w < |s.workers| && s.workers[w].phase == Idle
    requires Legal(longest, s, steps)
    ensures var t := Run(s, steps);
            |t.workers| == |s.workers| && t.now >= s.now &&
            (t.now < s.workers[w].nextKick ==> t.workers[w] == s.workers[w])
  {
    if steps != [] {
      AttemptsPaced(longest, s, steps[..|steps| - 1], w);
    }
  }

  /** The attempt of `w` ends: its rebuild is over, or it finds the lock taken. */
  predicate Ends(s: State, step: Step, w: nat)
  {
    w < |s.workers| && (step == Finish(w, true) || step == Finish(w, false) || (step == TakeLock(w) && s.lockExpiry > s.now))
  }

  /** However an attempt ends, its worker starts nothing for two seconds, whatever happens
      meanwhile, and starts again on the first kick after them. */
  lemma {:induction false} PausedThenStarts(longest: nat, s: State, end: Step, steps: seq<Step>, w: nat)
    requires Ends(s, end, w) && Legal(longest, After(s, end), steps)
    ensures var t := Run(After(s, end), steps);
            && w < |t.workers| && (t.now < s.now + 2 ==> t.workers[w].phase == Idle)
            && (t.workers[w] == After(s, end).workers[w] ==>
                  (After(t, Kick(w)).workers[w].phase == Queued <==> t.now >= s.now + 2))
  {
    AttemptsPaced(longest, After(s, end), steps, w);
  }

  /** A rebuild that deletes the lock lets a waiting worker rebuild at once; one that does
      not lets it do so exactly once the lock has expired. */
  lemma {:induction false} LockPassesOn(s: State, w: nat, deletes: bool, d: nat, v: nat)
    requires w < |s.workers| && v < |s.workers| && v != w && s.workers[v].phase == Queued
    ensures var t := After(After(s, Finish(w, deletes)), Tick(d));
            After(t, TakeLock(v)).workers[v].phase ==
            if deletes || s.lockExpiry <= s.now + d then Rebuilding(s.now + d) else Idle
  {}
}
