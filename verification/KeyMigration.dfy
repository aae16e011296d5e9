/** The boot migration of per-account keys, run by every worker at once while
    live requests write and remove fields of the new keys. Folding a legacy key is a snapshot, a
    set-if-absent per field (all at once for the set family), and a DELETE whose
    own answer is counted. */
module KeyMigration {
  import opened Sets

  type Uin = nat

  /** Field names and values are only ever compared. For the set family a member
      is a field whose value says nothing. */
  type Hash = map<nat, nat>

  /** Per-account hashes; a missing key reads as an empty hash. */
  type Keys = map<Uin, Hash>

  function Get(k: Keys, u: Uin): Hash
  {
    if u in k then k[u] else map[]
  }

  /** HSETNX of some fields of a snapshot: what is there already wins. */
  function Folded(there: Hash, snap: Hash, fs: set<nat>): Hash
  {
    (map f | f in fs && f in snap :: snap[f]) + there
  }

  // ----- one worker alone

  /** The inner loop: HSETNX of every field of a legacy hash into the new key. */
  method HSetNxAll(there: Hash, fields: Hash) returns (h: Hash)
    ensures h == fields + there
  {
    h := there;
    var todo := fields.Keys;
    while todo != {}
      invariant FoldedSoFar(there, fields, todo, h)
      decreases todo
    {
      var f := Take(todo);
      FoldNext(there, fields, todo, h, f);
      h := HSetNx(h, f, fields[f]);
      todo := todo - {f};
    }
    FoldDone(there, fields, h);
  }

  predicate FoldedSoFar(there: Hash, fields: Hash, todo: set<nat>, h: Hash)
  {
    && todo <= fields.Keys && h.Keys == there.Keys + (fields.Keys - todo)
    && forall f | f in h :: h[f] == (fields + there)[f]
  }

  lemma FoldNext(there: Hash, fields: Hash, todo: set<nat>, h: Hash, f: nat)
    requires FoldedSoFar(there, fields, todo, h) && f in todo
    ensures FoldedSoFar(there, fields, todo - {f}, if f in h then h else h[f := fields[f]])
  {}

  lemma FoldDone(there: Hash, fields: Hash, h: Hash)
    requires FoldedSoFar(there, fields, {}, h)
    ensures h == fields + there
  {
    assert h.Keys == (fields + there).Keys;
    MapsEqual(h, fields + there);
  }

  method HSetNx(h: Hash, f: nat, v: nat) returns (r: Hash)
    ensures r == if f in h then h else h[f := v]
  {
    r := h;
    if f !in h { r := h[f := v]; }
  }

  class Store {
    var legacy: Keys
    var target: Keys

    constructor (legacy: Keys, target: Keys)
      ensures this.legacy == legacy && this.target == target
    {
      this.legacy, this.target := legacy, target;
    }

    /** DELETE, answering how many keys it removed. */
    method Delete(u: Uin) returns (removed: nat)
      modifies this`legacy
      ensures legacy == old(legacy) - {u} && removed == if u in old(legacy) then 1 else 0
    {
      removed := if u in legacy then 1 else 0;
      legacy := legacy - {u};
    }

    /** One legacy key: fold its fields, then DELETE it. */
    method FoldKey(u: Uin) returns (removed: nat)
      modifies this
      ensures Get(target, u) == Get(old(legacy), u) + Get(old(target), u)
      ensures forall v | v != u :: Get(target, v) == Get(old(target), v)
      ensures legacy == old(legacy) - {u} && removed == if u in old(legacy) then 1 else 0
    {
      var h := HSetNxAll(Get(target, u), Get(legacy, u));
      target := target[u := h];
      removed := Delete(u);
    }

    /** The outer loop over the keys the SCAN returned, in any order and with any
        repeats: the legacy hash is folded under what the new key held. */
    method Migrate(scan: seq<Uin>) returns (moved: nat)
      modifies this
      ensures forall u :: Get(target, u) == Merged(old(legacy), old(target), scan, u)
      ensures legacy == old(legacy) - Elements(scan)
      ensures moved == |old(legacy)| - |legacy|
    {
      moved := 0;
      for i := 0 to |scan|
        invariant SoFar(old(legacy), old(target), scan[..i], legacy, target)
        invariant moved == |old(legacy)| - |legacy|
      {
        assert scan[..i + 1] == scan[..i] + [scan[i]];
        var removed := FoldScanned(scan[i], old(legacy), old(target), scan[..i]);
        moved := moved + removed;
      }
      assert scan[..|scan|] == scan;
    }

    /** One pass of that loop, after `scanned`. */
    method FoldScanned(u: Uin, ghost l0: Keys, ghost t0: Keys, ghost scanned: seq<Uin>) returns (removed: nat)
      requires SoFar(l0, t0, scanned, legacy, target)
      modifies this
      ensures SoFar(l0, t0, scanned + [u], legacy, target)
      ensures removed == |old(legacy)| - |legacy|
    {
      removed := FoldKey(u);
      RemoveCounts(old(legacy), u);
      MigrateStep(l0, t0, scanned, u, old(legacy), old(target), legacy, target);
    }
  }

  function Merged(legacy: Keys, target: Keys, scanned: seq<Uin>, u: Uin): Hash
  {
    if u in scanned then Get(legacy, u) + Get(target, u) else Get(target, u)
  }

  /** The scanned keys are folded, and gone from the legacy side. */
  ghost predicate SoFar(l0: Keys, t0: Keys, scanned: seq<Uin>, l: Keys, t: Keys)
  {
    l == l0 - Elements(scanned) && forall u :: Get(t, u) == Merged(l0, t0, scanned, u)
  }

  lemma MigrateStep(l0: Keys, t0: Keys, scanned: seq<Uin>, v: Uin, l1: Keys, t1: Keys, l2: Keys, t2: Keys)
    requires SoFar(l0, t0, scanned, l1, t1)
    requires l2 == l1 - {v} && Get(t2, v) == Get(l1, v) + Get(t1, v)
    requires forall u | u != v :: Get(t2, u) == Get(t1, u)
    ensures SoFar(l0, t0, scanned + [v], l2, t2)
  {
    ElementsSnoc(scanned, v);
    forall u ensures Get(t2, u) == Merged(l0, t0, scanned + [v], u) {
      if u == v && v in scanned {
        assert map[] + Get(t1, v) == Get(t1, v);
      }
    }
  }

  // ----- all workers at once

  /** A worker between keys, or folding one: its snapshot and the fields not yet
      written. `moved` is its running count. */
  datatype Worker =
    | Idle(moved: nat)
    | Folding(moved: nat, u: Uin, snap: Hash, todo: set<nat>)

  datatype Field = Field(u: Uin, f: nat)

  /** `live` records the fields last written by a live request, `removed` those last
      removed by one, and `lost` counts DELETEs that took effect although their
      reply never arrived. */
  datatype State = State(
    legacy: Keys, target: Keys, live: Keys, removed: set<Field>, workers: seq<Worker>, lost: nat)

  datatype Step =
    | Snapshot(w: nat, u: Uin)
    | Fold(w: nat, fs: set<nat>)
    | Delete(w: nat)
    | DeleteUnanswered(w: nat)
    | Fail(w: nat)
    | LiveWrite(u: Uin, field: nat, value: nat)
    | LiveRemove(u: Uin, field: nat)

  predicate Enabled(origin: Keys, s: State, step: Step)
  {
    match step
    case Snapshot(w, u) => w < |s.workers| && s.workers[w].Idle? && u in origin
    case Fold(w, fs) => w < |s.workers| && s.workers[w].Folding? && fs <= s.workers[w].todo
    case Delete(w) => w < |s.workers| && s.workers[w].Folding? && s.workers[w].todo == {}
    case DeleteUnanswered(w) => w < |s.workers| && s.workers[w].Folding? && s.workers[w].todo == {}
    case Fail(w) => w < |s.workers| && s.workers[w].Folding?
    case LiveWrite(_, _, _) => true
    case LiveRemove(_, _) => true
  }

  function After(origin: Keys, s: State, step: Step): State
    requires Enabled(origin, s, step)
  {
    match step
    case Snapshot(w, u) =>
      var snap := Get(s.legacy, u);
      s.(workers := s.workers[w := Folding(s.workers[w].moved, u, snap, snap.Keys)])
    case Fold(w, fs) =>
      var k := s.workers[w];
      s.(target := s.target[k.u := Folded(Get(s.target, k.u), k.snap, fs)],
         workers := s.workers[w := k.(todo := k.todo - fs)])
    case Delete(w) =>
      var k := s.workers[w];
      s.(legacy := s.legacy - {k.u},
         workers := s.workers[w := Idle(k.moved + if k.u in s.legacy then 1 else 0)])
    case DeleteUnanswered(w) =>
      var k := s.workers[w];
      s.(legacy := s.legacy - {k.u}, workers := s.workers[w := Idle(k.moved)],
         lost := s.lost + if k.u in s.legacy then 1 else 0)
    case Fail(w) => s.(workers := s.workers[w := Idle(s.workers[w].moved)])
    case LiveWrite(u, f, v) =>
      s.(target := s.target[u := Get(s.target, u)[f := v]], live := s.live[u := Get(s.live, u)[f := v]],
         removed := s.removed - {Field(u, f)})
    case LiveRemove(u, f) =>
      s.(target := s.target[u := Get(s.target, u) - {f}], live := s.live[u := Get(s.live, u) - {f}],
         removed := s.removed + {Field(u, f)})
  }

  /** A run; a step that is not enabled does nothing. */
  function Run(origin: Keys, s: State, steps: seq<Step>): State
  {
    if steps == [] then s
    else
      var t := Run(origin, s, steps[..|steps| - 1]);
      if Enabled(origin, t, steps[|steps| - 1]) then After(origin, t, steps[|steps| - 1]) else t
  }

  /** Before the first worker boots: nothing under the new names yet. */
  function Boot(origin: Keys, n: nat): State
  {
    State(origin, map[], map[], {}, seq(n, _ => Idle(0)), 0)
  }

  function Moved(ws: seq<Worker>): nat
  {
    if ws == [] then 0 else Moved(ws[..|ws| - 1]) + ws[|ws| - 1].moved
  }

  // ----- what every step keeps

  /** A field is under the new key, or a live request has removed it. */
  predicate Settled(s: State, u: Uin, f: nat)
  {
    f in Get(s.target, u) || Field(u, f) in s.removed
  }

  /** A worker's snapshot is the whole legacy hash, or empty because the key was
      gone; what it has written is settled. */
  predicate WorkerOk(origin: Keys, s: State, k: Worker)
  {
    k.Folding? ==>
      && k.u in origin && k.todo <= k.snap.Keys
      && (k.snap == origin[k.u] || k.u !in s.legacy)
      && (forall f | f in k.snap :: f in origin[k.u] && k.snap[f] == origin[k.u][f])
      && (forall f | f in k.snap && f !in k.todo :: Settled(s, k.u, f))
  }

  /** The legacy keys that remain are untouched, and the fields of those that are
      gone are settled. */
  predicate NothingLost(origin: Keys, s: State)
  {
    && (forall u | u in s.legacy :: u in origin && s.legacy[u] == origin[u])
    && (forall u, f | u in origin && u !in s.legacy && f in origin[u] :: Settled(s, u, f))
  }

  /** Every value under a new key is the last live write to that field, or the
      legacy value of a field no live request has written. */
  predicate WinsAt(o: Hash, t: Hash, l: Hash)
  {
    && l.Keys <= t.Keys
    && forall f | f in t :: if f in l then t[f] == l[f] else f in o && t[f] == o[f]
  }

  ghost predicate LiveWins(origin: Keys, s: State)
  {
    forall u: Uin :: WinsAt(Get(origin, u), Get(s.target, u), Get(s.live, u))
  }

  predicate RemovedAreNotLive(s: State)
  {
    forall x | x in s.removed :: x.f !in Get(s.live, x.u)
  }

  predicate Counted(origin: Keys, s: State)
  {
    Moved(s.workers) + s.lost == |origin| - |s.legacy|
  }

  ghost predicate Inv(origin: Keys, s: State)
  {
    && NothingLost(origin, s) && LiveWins(origin, s) && RemovedAreNotLive(s)
    && (forall i | 0 <= i < |s.workers| :: WorkerOk(origin, s, s.workers[i]))
  }

  lemma WorkersGrow(origin: Keys, s: State, s': State, except: int)
    requires forall i | 0 <= i < |s.workers| :: WorkerOk(origin, s, s.workers[i])
    requires s'.legacy == s.legacy && |s'.workers| == |s.workers|
    requires forall i | 0 <= i < |s.workers| && i != except :: s'.workers[i] == s.workers[i]
    requires forall u: Uin, f: nat | Settled(s, u, f) :: Settled(s', u, f)
    ensures forall i | 0 <= i < |s.workers| && i != except :: WorkerOk(origin, s', s'.workers[i])
  {}

  lemma FoldWins(o: Hash, t: Hash, l: Hash, snap: Hash, fs: set<nat>)
    requires WinsAt(o, t, l) && forall f | f in snap :: f in o && snap[f] == o[f]
    ensures WinsAt(o, Folded(t, snap, fs), l) && t.Keys <= Folded(t, snap, fs).Keys
  {}

  lemma FoldKeeps(origin: Keys, s: State, w: nat, fs: set<nat>)
    requires Inv(origin, s) && Enabled(origin, s, Fold(w, fs))
    ensures Inv(origin, After(origin, s, Fold(w, fs)))
  {
    var s', k := After(origin, s, Fold(w, fs)), s.workers[w];
    assert WorkerOk(origin, s, k);
    FoldWins(Get(origin, k.u), Get(s.target, k.u), Get(s.live, k.u), k.snap, fs);
    assert Get(s'.target, k.u) == Folded(Get(s.target, k.u), k.snap, fs);
    assert forall v: Uin | v != k.u :: Get(s'.target, v) == Get(s.target, v);
    forall u: Uin, f: nat | Settled(s, u, f) ensures Settled(s', u, f) {}
    WorkersGrow(origin, s, s', w);
    assert WorkerOk(origin, s', s'.workers[w]);
  }

  lemma DeleteKeeps(origin: Keys, s: State, w: nat, s': State)
    requires Inv(origin, s) && Enabled(origin, s, Delete(w))
    requires s'.legacy == s.legacy - {s.workers[w].u} && s'.target == s.target && s'.live == s.live
    requires s'.removed == s.removed
    requires exists m: nat :: s'.workers == s.workers[w := Idle(m)]
    ensures Inv(origin, s')
  {
    var k := s.workers[w];
    assert WorkerOk(origin, s, k);
    forall f | f in origin[k.u] ensures Settled(s', k.u, f) {
      if k.snap == origin[k.u] {
        assert f in k.snap && Settled(s, k.u, f);
      } else {
        assert Settled(s, k.u, f);
      }
    }
    forall u, f | u in origin && u !in s'.legacy && f in origin[u] ensures Settled(s', u, f) {
      if u != k.u { assert u !in s.legacy && Settled(s, u, f); }
    }
    forall i | 0 <= i < |s'.workers| ensures WorkerOk(origin, s', s'.workers[i]) {
      assert WorkerOk(origin, s, s.workers[i]);
    }
  }

  lemma LiveWriteWins(o: Hash, t: Hash, l: Hash, f: nat, v: nat)
    requires WinsAt(o, t, l)
    ensures WinsAt(o, t[f := v], l[f := v])
  {}

  lemma LiveKeeps(origin: Keys, s: State, u: Uin, f: nat, v: nat)
    requires Inv(origin, s)
    ensures Inv(origin, After(origin, s, LiveWrite(u, f, v)))
  {
    var s' := After(origin, s, LiveWrite(u, f, v));
    LiveWriteWins(Get(origin, u), Get(s.target, u), Get(s.live, u), f, v);
    LiveSettles(origin, s, u, f, v);
    WorkersGrow(origin, s, s', -1);
  }

  lemma LiveSettles(origin: Keys, s: State, u: Uin, f: nat, v: nat)
    ensures var s' := After(origin, s, LiveWrite(u, f, v));
            && (forall x: Uin | x != u :: Get(s'.target, x) == Get(s.target, x) && Get(s'.live, x) == Get(s.live, x))
            && forall x: Uin, g: nat | Settled(s, x, g) :: Settled(s', x, g)
  {}

  lemma LiveRemoveWins(o: Hash, t: Hash, l: Hash, f: nat)
    requires WinsAt(o, t, l)
    ensures WinsAt(o, t - {f}, l - {f})
  {}

  lemma RemoveKeeps(origin: Keys, s: State, u: Uin, f: nat)
    requires Inv(origin, s)
    ensures Inv(origin, After(origin, s, LiveRemove(u, f)))
  {
    var s' := After(origin, s, LiveRemove(u, f));
    LiveRemoveWins(Get(origin, u), Get(s.target, u), Get(s.live, u), f);
    RemovalSettles(origin, s, u, f);
    WorkersGrow(origin, s, s', -1);
  }

  lemma RemovalSettles(origin: Keys, s: State, u: Uin, f: nat)
    ensures var s' := After(origin, s, LiveRemove(u, f));
            && (forall x: Uin | x != u :: Get(s'.target, x) == Get(s.target, x) && Get(s'.live, x) == Get(s.live, x))
            && forall x: Uin, g: nat | Settled(s, x, g) :: Settled(s', x, g)
  {}

  lemma StepKeeps(origin: Keys, s: State, step: Step)
    requires Inv(origin, s) && Enabled(origin, s, step)
    ensures Inv(origin, After(origin, s, step))
  {
    match step
    case Fold(w, fs) => FoldKeeps(origin, s, w, fs);
    case Delete(w) => DeleteKeeps(origin, s, w, After(origin, s, step));
    case DeleteUnanswered(w) => DeleteKeeps(origin, s, w, After(origin, s, step));
    case LiveWrite(u, f, v) => LiveKeeps(origin, s, u, f, v);
    case LiveRemove(u, f) => RemoveKeeps(origin, s, u, f);
    case _ =>
      var s' := After(origin, s, step);
      forall i | 0 <= i < |s'.workers| ensures WorkerOk(origin, s', s'.workers[i]) {
        assert WorkerOk(origin, s, s.workers[i]);
      }
  }

  lemma {:induction false} RunKeeps(origin: Keys, n: nat, steps: seq<Step>)
    ensures Inv(origin, Run(origin, Boot(origin, n), steps))
  {
    if steps != [] {
      var front := steps[..|steps| - 1];
      RunKeeps(origin, n, front);
      var t := Run(origin, Boot(origin, n), front);
      if Enabled(origin, t, steps[|steps| - 1]) { StepKeeps(origin, t, steps[|steps| - 1]); }
    }
  }

  /** At every point of every interleaving, each legacy field is still under its
      legacy key, already under the new one, or removed by a live request. */
  lemma {:induction false} EveryFieldSurvives(origin: Keys, n: nat, steps: seq<Step>, u: Uin, f: nat)
    requires u in origin && f in origin[u]
    ensures var s := Run(origin, Boot(origin, n), steps);
            (u in s.legacy && s.legacy[u] == origin[u]) || f in Get(s.target, u) || Field(u, f) in s.removed
  {
    RunKeeps(origin, n, steps);
  }

  /** Whatever the interleaving, once no legacy key is left every new key holds the
      legacy fields overridden by the live writes; only where a live request removed
      a field last may it differ, and then the legacy value has come back. */
  lemma {:induction false} MigrationConfluent(origin: Keys, n: nat, steps: seq<Step>, u: Uin, f: nat)
    requires Run(origin, Boot(origin, n), steps).legacy == map[]
    ensures var s := Run(origin, Boot(origin, n), steps);
            var expected := Get(origin, u) + Get(s.live, u);
            && (Field(u, f) !in s.removed ==> (f in Get(s.target, u) <==> f in expected))
            && (f in Get(s.target, u) ==> f in expected && Get(s.target, u)[f] == expected[f])
            && (Field(u, f) in s.removed && f in Get(s.target, u) ==> f in Get(origin, u))
  {
    RunKeeps(origin, n, steps);
    ConfluentAt(origin, Run(origin, Boot(origin, n), steps), u, f);
  }

  lemma ConfluentAt(origin: Keys, s: State, u: Uin, f: nat)
    requires Inv(origin, s) && s.legacy == map[]
    ensures var expected := Get(origin, u) + Get(s.live, u);
            && (Field(u, f) !in s.removed ==> (f in Get(s.target, u) <==> f in expected))
            && (f in Get(s.target, u) ==> f in expected && Get(s.target, u)[f] == expected[f])
            && (Field(u, f) in s.removed && f in Get(s.target, u) ==> f in Get(origin, u))
  {
    assert WinsAt(Get(origin, u), Get(s.target, u), Get(s.live, u));
    if u in origin && f in origin[u] { assert Settled(s, u, f); }
  }

  // ----- a removal that does not last

  /** A field can still reach the new key: it is in a legacy key that some worker may
      read, or waits in the snapshot of a worker. */
  predicate Pending(s: State, u: Uin, f: nat)
  {
    || (u in s.legacy && f in s.legacy[u] && |s.workers| > 0)
    || exists w | 0 <= w < |s.workers| :: Waits(s.workers[w], u, f)
  }

  predicate Waits(k: Worker, u: Uin, f: nat)
  {
    k.Folding? && k.u == u && f in k.todo && f in k.snap
  }

  predicate Unwritten(steps: seq<Step>, u: Uin, f: nat)
  {
    forall i | 0 <= i < |steps| :: !(steps[i].LiveWrite? && steps[i].u == u && steps[i].field == f)
  }

  lemma {:induction false} StaysAway(origin: Keys, s: State, steps: seq<Step>, u: Uin, f: nat)
    requires f !in Get(s.target, u) && !Pending(s, u, f) && Unwritten(steps, u, f)
    ensures var t := Run(origin, s, steps);
            f !in Get(t.target, u) && !Pending(t, u, f) && |t.workers| == |s.workers|
  {
    if steps != [] {
      var front, step := steps[..|steps| - 1], steps[|steps| - 1];
      StaysAway(origin, s, front, u, f);
      assert !(step.LiveWrite? && step.u == u && step.field == f);
      var t := Run(origin, s, front);
      if Enabled(origin, t, step) { StepStaysAway(origin, t, step, u, f); }
    }
  }

  lemma StepStaysAway(origin: Keys, t: State, step: Step, u: Uin, f: nat)
    requires f !in Get(t.target, u) && !Pending(t, u, f) && Enabled(origin, t, step)
    requires !(step.LiveWrite? && step.u == u && step.field == f)
    ensures var t' := After(origin, t, step);
            f !in Get(t'.target, u) && !Pending(t', u, f) && |t'.workers| == |t.workers|
  {
    var t' := After(origin, t, step);
    if step.Fold? { assert !Waits(t.workers[step.w], u, f); }
    forall w | 0 <= w < |t'.workers| ensures !Waits(t'.workers[w], u, f) {
      assert !Waits(t.workers[w], u, f);
    }
  }

  /** After a live removal the field stays away, whatever the workers do, if and only
      if it is not pending any more: otherwise an HSETNX from an older snapshot can
      bring the legacy value back. */
  lemma {:induction false} RemovalLastsIff(origin: Keys, s: State, u: Uin, f: nat)
    requires Inv(origin, s)
    ensures !Pending(s, u, f) <==>
            forall steps | Unwritten(steps, u, f) ::
              f !in Get(Run(origin, After(origin, s, LiveRemove(u, f)), steps).target, u)
  {
    var t := After(origin, s, LiveRemove(u, f));
    if !Pending(s, u, f) {
      forall steps | Unwritten(steps, u, f) ensures f !in Get(Run(origin, t, steps).target, u) {
        StaysAway(origin, t, steps, u, f);
      }
    } else {
      var steps := ComesBack(origin, s, u, f);
      assert Unwritten(steps, u, f) && f in Get(Run(origin, t, steps).target, u);
    }
  }

  lemma {:induction false} ComesBack(origin: Keys, s: State, u: Uin, f: nat) returns (steps: seq<Step>)
    requires Inv(origin, s) && Pending(s, u, f)
    ensures Unwritten(steps, u, f)
    ensures f in Get(Run(origin, After(origin, s, LiveRemove(u, f)), steps).target, u)
  {
    var t := After(origin, s, LiveRemove(u, f));
    if w :| 0 <= w < |s.workers| && Waits(s.workers[w], u, f) {
      steps := [Fold(w, {f})];
      FoldReturns(origin, t, [], w, u, f);
      assert [] + [Fold(w, {f})] == steps;
    } else {
      ReadAgain(origin, t, u, f);
      FoldReturns(origin, t, [Fail(0)] + [Snapshot(0, u)], 0, u, f);
      steps := [Fail(0)] + [Snapshot(0, u)] + [Fold(0, {f})];
    }
  }

  lemma {:induction false} ReadAgain(origin: Keys, t: State, u: Uin, f: nat)
    requires |t.workers| > 0 && u in origin && u in t.legacy && f in t.legacy[u]
    ensures var r := Run(origin, t, [Fail(0)] + [Snapshot(0, u)]); |r.workers| > 0 && Waits(r.workers[0], u, f)
  {
    assert [] + [Fail(0)] == [Fail(0)];
    RunSnoc(origin, t, [], Fail(0));
    RunSnoc(origin, t, [Fail(0)], Snapshot(0, u));
  }

  lemma {:induction false} RunSnoc(origin: Keys, s: State, steps: seq<Step>, step: Step)
    ensures var t := Run(origin, s, steps);
            Run(origin, s, steps + [step]) == if Enabled(origin, t, step) then After(origin, t, step) else t
  {
    assert (steps + [step])[..|steps|] == steps;
  }

  lemma {:induction false} FoldReturns(origin: Keys, s: State, steps: seq<Step>, w: nat, u: Uin, f: nat)
    requires var t := Run(origin, s, steps); w < |t.workers| && Waits(t.workers[w], u, f)
    ensures f in Get(Run(origin, s, steps + [Fold(w, {f})]).target, u)
  {
    RunSnoc(origin, s, steps, Fold(w, {f}));
  }

  // ----- the counts

  lemma {:induction false} MovedUpdate(ws: seq<Worker>, w: nat, k: Worker)
    requires w < |ws|
    ensures Moved(ws[w := k]) == Moved(ws) - ws[w].moved + k.moved
  {
    var ws', last := ws[w := k], |ws| - 1;
    if w < last {
      MovedUpdate(ws[..last], w, k);
      assert ws'[..last] == ws[..last][w := k];
    } else {
      assert ws'[..last] == ws[..last];
    }
  }

  lemma {:induction false} MovedZero(n: nat)
    ensures Moved(seq(n, _ => Idle(0))) == 0
  {
    if n > 0 {
      MovedZero(n - 1);
      assert seq(n, _ => Idle(0))[..n - 1] == seq(n - 1, _ => Idle(0));
    }
  }

  lemma StepCounts(origin: Keys, s: State, step: Step)
    requires Counted(origin, s) && Enabled(origin, s, step)
    ensures Counted(origin, After(origin, s, step))
  {
    if !step.LiveWrite? && !step.LiveRemove? {
      var k := After(origin, s, step).workers[step.w];
      MovedUpdate(s.workers, step.w, k);
      if step.Delete? || step.DeleteUnanswered? { RemoveCounts(s.legacy, s.workers[step.w].u); }
    }
  }

  lemma RemoveCounts(k: Keys, u: Uin)
    ensures |k - {u}| + (if u in k then 1 else 0) == |k|
  {
    assert k.Keys == (k - {u}).Keys + (if u in k then {u} else {});
  }

  /** The workers' counts add up to the legacy keys removed, short by exactly the
      DELETEs whose answers were lost. */
  lemma {:induction false} CountsAddUp(origin: Keys, n: nat, steps: seq<Step>)
    ensures var t := Run(origin, Boot(origin, n), steps);
            Counted(origin, t) && Moved(t.workers) == |origin| - |t.legacy| - t.lost
  {
    if steps == [] {
      MovedZero(n);
    } else {
      var front := steps[..|steps| - 1];
      CountsAddUp(origin, n, front);
      var t := Run(origin, Boot(origin, n), front);
      if Enabled(origin, t, steps[|steps| - 1]) { StepCounts(origin, t, steps[|steps| - 1]); }
    }
  }

  /** A worker that is not interrupted moves a key, from whatever state: the legacy key is
      gone, its fields are under the new one where that had none of their own, no other
      key has changed, and the worker has counted it exactly if it was there. */
  lemma {:induction false} UninterruptedFold(origin: Keys, s: State, w: nat, u: Uin)
    requires w < |s.workers| && s.workers[w].Idle? && u in origin
    ensures var legacy, there := Get(s.legacy, u), Get(s.target, u);
            var t := Run(origin, s, [Snapshot(w, u)] + [Fold(w, legacy.Keys)] + [Delete(w)]);
            && t.legacy == s.legacy - {u} && (forall v | v != u :: Get(t.target, v) == Get(s.target, v))
            && (forall f :: f in Get(t.target, u) <==> f in legacy || f in there)
            && (forall f | f in Get(t.target, u) :: Get(t.target, u)[f] == if f in there then there[f] else legacy[f])
            && t.workers == s.workers[w := Idle(s.workers[w].moved + if u in s.legacy then 1 else 0)]
  {
    var snap := Get(s.legacy, u);
    RunSnoc(origin, s, [], Snapshot(w, u));
    assert [] + [Snapshot(w, u)] == [Snapshot(w, u)];
    RunSnoc(origin, s, [Snapshot(w, u)], Fold(w, snap.Keys));
    RunSnoc(origin, s, [Snapshot(w, u)] + [Fold(w, snap.Keys)], Delete(w));
    assert snap.Keys - snap.Keys == {};
  }
}
