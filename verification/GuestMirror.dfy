/** The Redis mirror of guest rows, as a protocol. A request marks a number
    before it commits a guest row, unmarks after it commits a conversion or a
    deletion, and any worker may at any time read the table and later replace
    the mirror by what it read plus the pending marks. Reading the table and
    writing the mirror are separate steps, keys expire, and Redis may lose its
    data. Times are in seconds. */
module GuestMirror {

  type Uin = int

  const GUEST_TTL: int := 300
  const PENDING_TTL: int := 120

  // ----- the keys

  /** `guest_uins`, `guest_uins:pending` and its expiry, the expiry of
      `guest_uins:loaded`, and whether `guest_uins:built` exists. */
  datatype Redis = Redis(guests: set<Uin>, pending: set<Uin>, pendingExpiry: int, markerExpiry: int, built: bool)
  {
    function Live(now: int): set<Uin>
    {
      if now < pendingExpiry then pending else {}
    }

    predicate Answerable(now: int)
    {
      now < markerExpiry || built
    }

    function Marked(now: int, u: Uin): Redis
    {
      this.(guests := guests + {u}, pending := Live(now) + {u}, pendingExpiry := now + PENDING_TTL)
    }

    function Unmarked(now: int, u: Uin): Redis
    {
      this.(guests := guests - {u}, pending := Live(now) - {u})
    }

    function Rebuilt(now: int, rows: set<Uin>): Redis
    {
      this.(guests := rows + Live(now), markerExpiry := now + GUEST_TTL, built := true)
    }
  }

  const EMPTY: Redis := Redis({}, {}, 0, 0, false)

  /** The cache operations of one worker, command by command. */
  class GuestCache {
    var guests: set<Uin>
    var pending: set<Uin>
    var pendingExpiry: int
    var markerExpiry: int
    var built: bool

    function Value(): Redis
      reads this
    {
      Redis(guests, pending, pendingExpiry, markerExpiry, built)
    }

    constructor ()
      ensures Value() == EMPTY
    {
      guests, pending, pendingExpiry, markerExpiry, built := {}, {}, 0, 0, false;
    }

    /** Expired keys are gone before any command sees them. */
    method Sweep(now: int)
      modifies this`pending
      ensures Value() == old(Value()).(pending := old(Value()).Live(now))
    {
      if pendingExpiry <= now { pending := {}; }
    }

    method MarkGuest(u: Uin, now: int)
      modifies this
      ensures Value() == old(Value()).Marked(now, u)
      ensures guests == old(guests) + {u} && pendingExpiry == now + 120
      ensures pending == (if now < old(pendingExpiry) then old(pending) else {}) + {u}
      ensures markerExpiry == old(markerExpiry) && built == old(built)
    {
      Sweep(now);
      guests := guests + {u};
      pending := pending + {u};
      pendingExpiry := now + PENDING_TTL;
    }

    /** Best effort: when the removal cannot be written the marker is dropped,
        and when that fails too nothing changes. */
    method UnmarkGuest(u: Uin, now: int, removes: bool, drops: bool)
      modifies this
      ensures removes ==> Value() == old(Value()).Unmarked(now, u)
      ensures removes ==> guests == old(guests) - {u} && u !in pending
      ensures removes ==> forall v | v != u :: v in pending <==> v in old(pending) && now < old(pendingExpiry)
      ensures !removes && drops ==> Value() == old(Value()).(markerExpiry := now)
      ensures !removes && !drops ==> Value() == old(Value())
    {
      if removes {
        Sweep(now);
        guests := guests - {u};
        pending := pending - {u};
        return;
      }
      if drops { markerExpiry := now; }
    }

    /** One MULTI: fill a scratch set, store its union with the pending marks. */
    method Rebuild(rows: set<Uin>, now: int)
      modifies this
      ensures Value() == old(Value()).(pending := old(Value()).Live(now)).Rebuilt(now, rows)
      ensures guests == rows + (if now < old(pendingExpiry) then old(pending) else {})
      ensures built && markerExpiry == now + 300
    {
      Sweep(now);
      var scratch: set<Uin> := {};
      if rows != {} { scratch := scratch + rows; }
      guests := scratch + pending;
      markerExpiry := now + GUEST_TTL;
      built := true;
    }

    /** `RedisMirror.ensure`: a live marker or a built mirror answers as it is,
        and a lapsed marker asks for a background rebuild; a mirror that was
        never built is rebuilt inline from `rows`. */
    method Ensure(rows: set<Uin>, now: int) returns (kick: bool)
      modifies this
      ensures old(Value()).Answerable(now) ==> Value() == old(Value()) && (kick <==> now >= markerExpiry)
      ensures !old(Value()).Answerable(now) ==>
                !kick && Value() == old(Value()).(pending := old(Value()).Live(now)).Rebuilt(now, rows)
      ensures old(built) ==> Value() == old(Value()) && (kick <==> old(markerExpiry) <= now)
      ensures !old(built) && now < old(markerExpiry) ==> Value() == old(Value()) && !kick
      ensures !old(built) && old(markerExpiry) <= now ==>
                !kick && guests == rows + (if now < old(pendingExpiry) then old(pending) else {})
    {
      kick := false;
      if now < markerExpiry { return; }
      if built { kick := true; return; }
      Rebuild(rows, now);
    }

    /** `is_guest` with nothing interleaved: the mirror as it is, the rebuilt mirror
        when there was none, and the row itself when Redis fails before or after
        `ensure` is done. */
    method IsGuest(u: Uin, table: set<Uin>, now: int, ensureUp: bool, readUp: bool) returns (answer: bool)
      modifies this
      ensures ensureUp && old(Value()).Answerable(now) ==> Value() == old(Value())
      ensures ensureUp && !old(Value()).Answerable(now) ==>
                Value() == old(Value()).(pending := old(Value()).Live(now)).Rebuilt(now, table)
      ensures !ensureUp ==> Value() == old(Value())
      ensures answer <==> if !ensureUp || !readUp then u in table
                          else if old(Value()).Answerable(now) then u in old(guests)
                          else u in table || u in old(Value()).Live(now)
      ensures ensureUp && readUp && (old(built) || now < old(markerExpiry)) ==> (answer <==> u in old(guests))
      ensures ensureUp && readUp && !old(built) && old(markerExpiry) <= now ==>
                (answer <==> u in table || (u in old(pending) && now < old(pendingExpiry)))
    {
      if ensureUp {
        var kick := Ensure(table, now);
        if readUp { return u in guests; }
      }
      return u in table;
    }
  }

  // ----- the protocol

  /** A request between its mark and its commit, or between a commit that ends
      a guest and the unmark that follows. */
  datatype Op = Minting(markedAt: int) | Leaving

  /** A rebuild between its table read and its MULTI. */
  datatype Rebuild = Rebuild(rows: set<Uin>, readAt: int)

  /** An `is_guest` call between `ensure` and SISMEMBER; `lost` records that
      Redis lost its data in between. */
  datatype Reader = Reader(u: Uin, lost: bool)

  datatype State = State(
    now: nat,
    table: set<Uin>,
    redis: Redis,
    ops: map<Uin, Op>,
    rebuilds: map<nat, Rebuild>,
    readers: map<nat, Reader>)

  datatype Step =
    | Tick(seconds: nat)
    | MarkMint(u: Uin)
    | MarkRefused(u: Uin, applied: bool)
    | CommitMint(u: Uin)
    | FailMint(u: Uin)
    | MarkClaim(u: Uin)
    | Leave(u: Uin)
    | Unmark(u: Uin)
    | UnmarkFails(u: Uin, drops: bool)
    | ReadTable(id: nat)
    | WriteMirror(id: nat)
    | AbandonRebuild(id: nat)
    | Ensured(reader: nat, u: Uin)
    | Answer(reader: nat)
    | LoseData

  /** The longest time from a mark to its commit, and from a rebuild's read to
      its write. */
  datatype Limits = Limits(mint: nat, rebuild: nat)

  predicate Minted(s: State, u: Uin)
  {
    u in s.ops && s.ops[u].Minting?
  }

  predicate Enabled(l: Limits, s: State, step: Step)
  {
    match step
    case Tick(_) => true
    case MarkMint(u) => u !in s.table && u !in s.ops
    case MarkRefused(u, _) => u !in s.table && u !in s.ops
    case CommitMint(u) => Minted(s, u) && s.now <= s.ops[u].markedAt + l.mint
    case FailMint(u) => Minted(s, u)
    case MarkClaim(u) => u in s.table && u !in s.ops
    case Leave(u) => u in s.table && u !in s.ops
    case Unmark(u) => u in s.ops && s.ops[u].Leaving?
    case UnmarkFails(u, _) => u in s.ops && s.ops[u].Leaving?
    case ReadTable(id) => id !in s.rebuilds
    case WriteMirror(id) => id in s.rebuilds && s.now <= s.rebuilds[id].readAt + l.rebuild
    case AbandonRebuild(id) => id in s.rebuilds
    case Ensured(i, _) => i !in s.readers && s.redis.Answerable(s.now)
    case Answer(i) => i in s.readers
    case LoseData => s.rebuilds == map[] && forall u | u in s.ops :: !Minted(s, u)
  }

  function After(s: State, step: Step): State
  {
    match step
    case Tick(d) => s.(now := s.now + d)
    case MarkMint(u) => s.(redis := s.redis.Marked(s.now, u), ops := s.ops[u := Minting(s.now)])
    case MarkRefused(u, applied) => if applied then s.(redis := s.redis.Marked(s.now, u)) else s
    case CommitMint(u) => s.(table := s.table + {u}, ops := s.ops - {u})
    case FailMint(u) => s.(ops := s.ops[u := Leaving])
    case MarkClaim(u) => s.(redis := s.redis.Marked(s.now, u))
    case Leave(u) => s.(table := s.table - {u}, ops := s.ops[u := Leaving])
    case Unmark(u) => s.(redis := s.redis.Unmarked(s.now, u), ops := s.ops - {u})
    case UnmarkFails(u, drops) =>
      s.(redis := if drops then s.redis.(markerExpiry := s.now) else s.redis, ops := s.ops - {u})
    case ReadTable(id) => s.(rebuilds := s.rebuilds[id := Rebuild(s.table, s.now)])
    case WriteMirror(id) =>
      if id in s.rebuilds
      then s.(redis := s.redis.Rebuilt(s.now, s.rebuilds[id].rows), rebuilds := s.rebuilds - {id})
      else s
    case AbandonRebuild(id) => s.(rebuilds := s.rebuilds - {id})
    case Ensured(i, u) => s.(readers := s.readers[i := Reader(u, false)])
    case Answer(i) => s.(readers := s.readers - {i})
    case LoseData => s.(redis := EMPTY, readers := map i | i in s.readers :: s.readers[i].(lost := true))
  }

  function Run(s: State, steps: seq<Step>): State
  {
    if steps == [] then s else After(Run(s, steps[..|steps| - 1]), steps[|steps| - 1])
  }

  predicate Legal(l: Limits, s: State, steps: seq<Step>)
  {
    steps != [] ==>
      && Legal(l, s, steps[..|steps| - 1])
      && Enabled(l, Run(s, steps[..|steps| - 1]), steps[|steps| - 1])
  }

  /** An island whose Redis has never held the mirror, with any guests already in the table. */
  function Boot(table: set<Uin>): State
  {
    State(0, table, EMPTY, map[], map[], map[])
  }

  /** A mark that reached Redis. */
  predicate IsMark(step: Step)
  {
    step.MarkMint? || step.MarkClaim? || (step.MarkRefused? && step.applied)
  }

  /** What a step means for one number: in the set, in the table, and pending at a later
      time `at`. A mark puts it there for 120 seconds and keeps the live ones as long; an
      unmark takes it out; a rebuild leaves what it read and what is pending. */
  lemma StepSeen(s: State, step: Step, u: Uin, at: int)
    requires at >= s.now
    ensures var t := After(s, step);
            var live := s.now < s.redis.pendingExpiry && u in s.redis.pending;
            && (u in t.table <==>
                  if step == CommitMint(u) then true else if step == Leave(u) then false else u in s.table)
            && (u in t.redis.guests <==>
                  if IsMark(step) && step.u == u then true
                  else if step == Unmark(u) || step.LoseData? then false
                  else if step.WriteMirror? && step.id in s.rebuilds then u in s.rebuilds[step.id].rows || live
                  else u in s.redis.guests)
            && (u in t.redis.Live(at) <==>
                  if IsMark(step) then (step.u == u || live) && at < s.now + 120
                  else if step == Unmark(u) || step.LoseData? then false
                  else u in s.redis.pending && at < s.redis.pendingExpiry && (step.Unmark? ==> live))
  {}

  /** What a step means for the marker and the readers. */
  lemma StepTimes(s: State, step: Step)
    ensures var t := After(s, step);
            && t.now == s.now + (if step.Tick? then step.seconds else 0)
            && (t.redis.built <==> !step.LoseData? && (s.redis.built || (step.WriteMirror? && step.id in s.rebuilds)))
            && t.redis.markerExpiry ==
                 (if step.WriteMirror? && step.id in s.rebuilds then s.now + 300
                  else if step.UnmarkFails? && step.drops then s.now
                  else if step.LoseData? then 0 else s.redis.markerExpiry)
            && t.rebuilds.Keys ==
                 (if step.ReadTable? then s.rebuilds.Keys + {step.id}
                  else if step.WriteMirror? || step.AbandonRebuild? then s.rebuilds.Keys - {step.id}
                  else s.rebuilds.Keys)
            && t.readers.Keys ==
                 (if step.Ensured? then s.readers.Keys + {step.reader}
                  else if step.Answer? then s.readers.Keys - {step.reader} else s.readers.Keys)
  {}

  // ----- what every step keeps

  predicate Timed(l: Limits)
  {
    l.mint + l.rebuild < PENDING_TTL
  }

  /** A mark that may still be committed is in the set and will stay in the
      pending set for the pending TTL from its mark. */
  predicate MintsHeld(l: Limits, s: State)
  {
    forall u | u in s.ops && s.ops[u].Minting? ::
      && s.ops[u].markedAt <= s.now
      && (s.now <= s.ops[u].markedAt + l.mint ==>
            u in s.redis.guests && u in s.redis.pending && s.redis.pendingExpiry >= s.ops[u].markedAt + PENDING_TTL)
  }

  /** A rebuild that may still write will find every guest row it did not read
      among the pending marks. */
  predicate RebuildsCovered(l: Limits, s: State)
  {
    forall id | id in s.rebuilds ::
      && s.rebuilds[id].readAt <= s.now
      && (s.now <= s.rebuilds[id].readAt + l.rebuild ==>
            forall u | u in s.table && u !in s.rebuilds[id].rows ::
              u in s.redis.pending && s.redis.pendingExpiry > s.rebuilds[id].readAt + l.rebuild)
  }

  predicate Inv(l: Limits, s: State)
  {
    && s.redis.pendingExpiry <= s.now + PENDING_TTL
    && (s.redis.Answerable(s.now) ==> s.redis.built)
    && (s.redis.built ==> s.table <= s.redis.guests)
    && (forall u | u in s.ops :: u !in s.table)
    && (forall i | i in s.readers :: !s.readers[i].lost ==> s.redis.built)
    && MintsHeld(l, s)
    && RebuildsCovered(l, s)
  }

  lemma MarkKeeps(l: Limits, s: State, u: Uin, r: Redis)
    requires Timed(l) && Inv(l, s) && r == s.redis.Marked(s.now, u)
    ensures Inv(l, s.(redis := r))
  {
    var s' := s.(redis := r);
    assert MintsHeld(l, s');
    assert RebuildsCovered(l, s');
  }

  lemma CommitKeeps(l: Limits, s: State, u: Uin)
    requires Timed(l) && Inv(l, s) && Enabled(l, s, CommitMint(u))
    ensures Inv(l, After(s, CommitMint(u)))
  {
    var s' := After(s, CommitMint(u));
    assert MintsHeld(l, s');
    assert RebuildsCovered(l, s');
  }

  lemma WriteKeeps(l: Limits, s: State, id: nat)
    requires Timed(l) && Inv(l, s) && Enabled(l, s, WriteMirror(id))
    ensures Inv(l, After(s, WriteMirror(id)))
  {
    var s' := After(s, WriteMirror(id));
    var rows := s.rebuilds[id].rows;
    forall u | u in s.table ensures u in s'.redis.guests {
      if u !in rows { assert u in s.redis.Live(s.now); }
    }
    assert MintsHeld(l, s');
  }

  lemma UnmarkKeeps(l: Limits, s: State, u: Uin)
    requires Timed(l) && Inv(l, s) && Enabled(l, s, Unmark(u))
    ensures Inv(l, After(s, Unmark(u)))
  {
    var s' := After(s, Unmark(u));
    assert MintsHeld(l, s');
    assert RebuildsCovered(l, s');
  }

  lemma StepKeeps(l: Limits, s: State, step: Step)
    requires Timed(l) && Inv(l, s) && Enabled(l, s, step)
    ensures Inv(l, After(s, step))
  {
    match step
    case MarkMint(u) => MarkKeeps(l, s, u, s.redis.Marked(s.now, u));
    case MarkRefused(u, _) => MarkKeeps(l, s, u, s.redis.Marked(s.now, u));
    case MarkClaim(u) => MarkKeeps(l, s, u, s.redis.Marked(s.now, u));
    case CommitMint(u) => CommitKeeps(l, s, u);
    case Unmark(u) => UnmarkKeeps(l, s, u);
    case WriteMirror(id) => WriteKeeps(l, s, id);
    case _ =>
  }

  lemma {:induction false} RunKeeps(l: Limits, s: State, steps: seq<Step>)
    requires Timed(l) && Inv(l, s) && Legal(l, s, steps)
    ensures Inv(l, Run(s, steps))
  {
    if steps != [] {
      var front := steps[..|steps| - 1];
      RunKeeps(l, s, front);
      StepKeeps(l, Run(s, front), steps[|steps| - 1]);
    }
  }

  /** No committed guest is missing from an answerable mirror, and no call that
      found the mirror answerable, with no data loss since, calls one native. */
  predicate Safe(s: State)
  {
    && (s.redis.Answerable(s.now) ==> s.table <= s.redis.guests)
    && (forall i | i in s.readers && !s.readers[i].lost && s.readers[i].u in s.table ::
          s.readers[i].u in s.redis.guests)
  }

  lemma {:induction false} GuestNeverNative(l: Limits, table: set<Uin>, steps: seq<Step>)
    requires Timed(l) && Legal(l, Boot(table), steps)
    ensures Safe(Run(Boot(table), steps))
  {
    RunKeeps(l, Boot(table), steps);
  }

  // ----- the timing assumption is exact

  lemma {:induction false} RunSnoc(l: Limits, s: State, steps: seq<Step>, step: Step)
    requires Legal(l, s, steps) && Enabled(l, Run(s, steps), step)
    ensures Legal(l, s, steps + [step])
    ensures Run(s, steps + [step]) == After(Run(s, steps), step)
  {
    assert (steps + [step])[..|steps|] == steps;
  }

  /** A mint that takes `a` seconds, and a rebuild that reads just before its commit. */
  lemma {:induction false} ReadBeforeCommit(l: Limits, a: nat) returns (steps: seq<Step>)
    requires a <= l.mint
    ensures Legal(l, Boot({}), steps)
    ensures Run(Boot({}), steps) ==
            State(a, {1}, Redis({1}, {1}, PENDING_TTL, 0, false), map[], map[0 := Rebuild({}, a)], map[])
  {
    steps := [];
    RunSnoc(l, Boot({}), steps, MarkMint(1));
    steps := steps + [MarkMint(1)];
    RunSnoc(l, Boot({}), steps, Tick(a));
    steps := steps + [Tick(a)];
    RunSnoc(l, Boot({}), steps, ReadTable(0));
    steps := steps + [ReadTable(0)];
    RunSnoc(l, Boot({}), steps, CommitMint(1));
    steps := steps + [CommitMint(1)];
    assert map[1 := Minting(0)] - {1} == map[];
  }

  /** A mint and a rebuild that together outlast the pending TTL leave a
      committed guest outside a built mirror. */
  lemma {:induction false} SlowRebuildDropsGuest(l: Limits) returns (steps: seq<Step>)
    requires !Timed(l)
    ensures Legal(l, Boot({}), steps) && !Safe(Run(Boot({}), steps))
  {
    var a := if l.mint < PENDING_TTL then l.mint else PENDING_TTL;
    var b := PENDING_TTL - a;
    steps := ReadBeforeCommit(l, a);
    RunSnoc(l, Boot({}), steps, Tick(b));
    steps := steps + [Tick(b)];
    RunSnoc(l, Boot({}), steps, WriteMirror(0));
    steps := steps + [WriteMirror(0)];
    assert 1 in Run(Boot({}), steps).table;
    assert 1 !in Run(Boot({}), steps).redis.guests;
  }

  /** Every run is safe if and only if mark-to-commit plus read-to-write stays
      below the pending TTL. */
  lemma {:induction false} SafetyIff(l: Limits)
    ensures Timed(l) <==>
            forall table, steps | Legal(l, Boot(table), steps) :: Safe(Run(Boot(table), steps))
  {
    if Timed(l) {
      forall table, steps | Legal(l, Boot(table), steps) ensures Safe(Run(Boot(table), steps)) {
        GuestNeverNative(l, table, steps);
      }
    } else {
      var steps := SlowRebuildDropsGuest(l);
    }
  }

  // ----- errors on the safe side, and convergence

  /** Step `i` of a run put `u` into the mirror, or left it there, although it
      is not a guest: a mark whose request was refused, a lost unmark, or a
      rebuild that had read the row before it left or found it pending. */
  predicate Cause(s: State, steps: seq<Step>, i: nat, u: Uin)
  {
    i < |steps| &&
    var at := Run(s, steps[..i]);
    match steps[i]
    case MarkRefused(v, applied) => v == u && applied
    case UnmarkFails(v, _) => v == u
    case WriteMirror(id) =>
      u !in at.table && id in at.rebuilds && (u in at.rebuilds[id].rows || u in at.redis.Live(at.now))
    case _ => false
  }

  /** In the mirror although no guest row has the number and no request is about it. */
  predicate Extra(s: State, u: Uin)
  {
    u in s.redis.guests && u !in s.table && u !in s.ops
  }

  /** Step `i` is a cause, and the number has been extra ever since. */
  predicate StillExtra(s: State, steps: seq<Step>, i: nat, u: Uin)
  {
    Cause(s, steps, i, u) && forall j | i < j <= |steps| :: Extra(Run(s, steps[..j]), u)
  }

  lemma {:induction false} ExtraSnoc(s: State, steps: seq<Step>, step: Step, i: nat, u: Uin)
    requires StillExtra(s, steps, i, u) && Extra(Run(s, steps + [step]), u)
    ensures StillExtra(s, steps + [step], i, u)
  {
    var all := steps + [step];
    assert all[..i] == steps[..i];
    forall j | i < j <= |all| ensures Extra(Run(s, all[..j]), u) {
      if j <= |steps| { assert all[..j] == steps[..j]; } else { assert all[..j] == all; }
    }
  }

  /** A number that is extra is so because of one of the causes above, and has been
      extra from that step on. */
  lemma {:induction false} ExtraHasCause(l: Limits, table: set<Uin>, steps: seq<Step>, u: Uin)
    requires Legal(l, Boot(table), steps) && Extra(Run(Boot(table), steps), u)
    ensures exists i: nat :: StillExtra(Boot(table), steps, i, u)
  {
    var s0 := Boot(table);
    if steps == [] {
      assert false;
    }
    var front, step := steps[..|steps| - 1], steps[|steps| - 1];
    assert steps == front + [step];
    if Extra(Run(s0, front), u) {
      ExtraHasCause(l, table, front, u);
      var i: nat :| StillExtra(s0, front, i, u);
      ExtraSnoc(s0, front, step, i, u);
    } else {
      assert steps[..|front|] == front && steps[..|steps|] == steps;
      assert StillExtra(s0, steps, |front|, u);
    }
  }

  lemma HeldThrough(l: Limits, t: State, step: Step, id: nat, u: Uin)
    requires Enabled(l, t, step) && id in t.rebuilds
    requires step != WriteMirror(id) && step != AbandonRebuild(id)
    ensures var t' := After(t, step);
            && id in t'.rebuilds && t'.rebuilds[id] == t.rebuilds[id]
            && (u in t.table && u !in t'.table ==> step == Leave(u))
  {}

  /** A rebuild holds a number that is no guest only because the row left after
      the rebuild read the table. */
  lemma {:induction false} StaleRowLeft(l: Limits, s: State, steps: seq<Step>, id: nat, u: Uin)
    requires Enabled(l, s, ReadTable(id)) && Legal(l, After(s, ReadTable(id)), steps)
    requires WriteMirror(id) !in steps && AbandonRebuild(id) !in steps
    ensures var t := Run(After(s, ReadTable(id)), steps);
            && id in t.rebuilds && t.rebuilds[id] == Rebuild(s.table, s.now)
            && (u in t.rebuilds[id].rows && u !in t.table ==> Leave(u) in steps)
  {
    if steps != [] {
      var front, step := steps[..|steps| - 1], steps[|steps| - 1];
      assert steps == front + [step];
      StaleRowLeft(l, s, front, id, u);
      HeldThrough(l, Run(After(s, ReadTable(id)), front), step, id, u);
    }
  }

  predicate Quiet(step: Step)
  {
    step.Tick? || step.ReadTable? || step.WriteMirror? || step.AbandonRebuild? || step.Ensured? || step.Answer?
  }

  predicate AllQuiet(steps: seq<Step>)
  {
    forall i | 0 <= i < |steps| :: Quiet(steps[i])
  }

  /** After the writers stopped in state `s`: the table no longer changes, and a
      rebuild holds the table or had read it before. */
  predicate Settling(s: State, t: State)
  {
    && t.table == s.table && t.now >= s.now
    && t.redis.pendingExpiry <= s.now + PENDING_TTL
    && (forall id | id in t.rebuilds :: t.rebuilds[id].rows == s.table || t.rebuilds[id].readAt <= s.now)
  }

  lemma {:induction false} QuietSettles(l: Limits, s: State, steps: seq<Step>)
    requires s.redis.pendingExpiry <= s.now + PENDING_TTL
    requires forall id | id in s.rebuilds :: s.rebuilds[id].readAt <= s.now
    requires Legal(l, s, steps) && AllQuiet(steps)
    ensures Settling(s, Run(s, steps))
  {
    if steps != [] {
      var front := steps[..|steps| - 1];
      QuietSettles(l, s, front);
      assert Quiet(steps[|steps| - 1]);
    }
  }

  lemma {:induction false} QuietFront(l: Limits, s: State, steps: seq<Step>)
    requires Inv(l, s) && Legal(l, s, steps) && AllQuiet(steps) && steps != []
    ensures var front := steps[..|steps| - 1];
            AllQuiet(front) && Settling(s, Run(s, front)) && Quiet(steps[|steps| - 1])
  {
    QuietSettles(l, s, steps[..|steps| - 1]);
  }

  /** Once the pending TTL has passed since the writers stopped, the next
      rebuild to write makes the mirror equal to the table, and it stays so. */
  lemma {:induction false} Converges(l: Limits, s: State, steps: seq<Step>, i: nat)
    requires Timed(l) && Inv(l, s) && Legal(l, s, steps) && AllQuiet(steps)
    requires i < |steps| && steps[i].WriteMirror?
    requires Run(s, steps[..i]).now >= s.now + PENDING_TTL
    ensures Run(s, steps).redis.guests == Run(s, steps).table == s.table
  {
    var front, step := steps[..|steps| - 1], steps[|steps| - 1];
    var t := Run(s, front);
    assert steps == front + [step];
    QuietFront(l, s, steps);
    LaterNow(s, front, if i < |front| then i else |front|);
    assert steps[..i] == front[..i];
    if i < |front| { Converges(l, s, front, i); }
  }

  /** No step after the first `i` loses Redis' data. */
  predicate NoLoss(steps: seq<Step>, i: nat)
  {
    forall k | i <= k < |steps| :: !steps[k].LoseData?
  }

  lemma {:induction false} BuiltKept(l: Limits, s: State, steps: seq<Step>, i: nat)
    requires Legal(l, s, steps) && i < |steps| && steps[i].WriteMirror? && NoLoss(steps, i)
    ensures Run(s, steps).redis.built
  {
    if i < |steps| - 1 {
      BuiltKept(l, s, steps[..|steps| - 1], i);
      assert !steps[|steps| - 1].LoseData?;
    }
  }

  /** Once a rebuild has written, and until Redis loses its data, the mirror answers
      without waiting for another rebuild, at every time and whatever became of the
      marker, and holds every guest of the table. */
  lemma {:induction false} BuiltAnswers(l: Limits, table: set<Uin>, steps: seq<Step>, i: nat, reader: nat, u: Uin)
    requires Timed(l) && Legal(l, Boot(table), steps) && i < |steps| && steps[i].WriteMirror? && NoLoss(steps, i)
    ensures var t := Run(Boot(table), steps);
            t.table <= t.redis.guests && (reader !in t.readers ==> Enabled(l, t, Ensured(reader, u)))
  {
    BuiltKept(l, Boot(table), steps, i);
    RunKeeps(l, Boot(table), steps);
  }

  lemma {:induction false} LaterNow(s: State, steps: seq<Step>, i: nat)
    requires i <= |steps|
    ensures Run(s, steps[..i]).now <= Run(s, steps).now
  {
    if i == |steps| {
      assert steps[..i] == steps;
    } else {
      var front := steps[..|steps| - 1];
      LaterNow(s, front, i);
      assert front[..i] == steps[..i];
      NowGrows(Run(s, front), steps[|steps| - 1]);
    }
  }

  lemma NowGrows(s: State, step: Step)
    ensures s.now <= After(s, step).now
  {}
}
