/** One refresh task at a time per worker, bound to the event loop that started
    it, and readers that share one waiting budget per attempt. */
module SingleFlight {
  import opened Basics

  datatype Task = Task(id: nat, loop: nat)

  /** The field, the tasks ever started that have not finished, and their number. */
  datatype State = State(task: Option<Task>, running: set<Task>, started: nat)

  // ----- the object

  /** The refresh in flight on this loop. */
  function Current(task: Option<Task>, running: set<Task>, loop: nat): Option<Task>
  {
    if task.Some? && task.value in running && task.value.loop == loop then task else None
  }

  class Flight {
    var task: Option<Task>
    var startedAt: real

    constructor ()
      ensures task == None && startedAt == 0.0
    {
      task, startedAt := None, 0.0;
    }

    /** A task left over from another loop counts as no task, and is forgotten. */
    method GetCurrent(running: set<Task>, loop: nat) returns (r: Option<Task>)
      modifies this`task
      ensures r == Current(old(task), running, loop)
      ensures r.Some? <==> old(task).Some? && old(task).value in running && old(task).value.loop == loop
      ensures task == if old(task).Some? && old(task).value in running && r.None? then None else old(task)
    {
      if task.None? || task.value !in running { return None; }
      if task.value.loop != loop {
        task := None;
        return None;
      }
      return task;
    }

    /** Joins the refresh in flight, or starts one. */
    method Start(running: set<Task>, loop: nat, id: nat, now: real) returns (t: Task, isNew: bool)
      modifies this
      ensures isNew <==> Current(old(task), running, loop).None?
      ensures isNew ==> t == Task(id, loop) && startedAt == now
      ensures !isNew ==> Some(t) == old(task) && startedAt == old(startedAt)
      ensures task == Some(t)
    {
      var r := GetCurrent(running, loop);
      if r.Some? { return r.value, false; }
      t := Task(id, loop);
      task, startedAt := Some(t), now;
      return t, true;
    }
  }

  // ----- every run

  datatype Step = Ask(loop: nat) | Finish(t: Task)

  function After(s: State, step: Step): State
  {
    match step
    case Ask(loop) =>
      if Current(s.task, s.running, loop).Some? then s
      else
        var t := Task(s.started, loop);
        State(Some(t), s.running + {t}, s.started + 1)
    case Finish(t) => s.(running := s.running - {t})
  }

  function Run(steps: seq<Step>): State
  {
    if steps == [] then State(None, {}, 0) else After(Run(steps[..|steps| - 1]), steps[|steps| - 1])
  }

  /** After every ask a refresh of that loop is running and on record, and it is a new
      one exactly if none of that loop was. */
  lemma {:induction false} EveryAskIsServed(steps: seq<Step>, loop: nat)
    ensures var s, t := Run(steps), Run(steps + [Ask(loop)]);
            && t.task.Some? && t.task.value in t.running && t.task.value.loop == loop
            && (t.started == s.started <==> s.task.Some? && s.task.value in s.running && s.task.value.loop == loop)
  {
    assert (steps + [Ask(loop)])[..|steps|] == steps;
  }

  /** Event loops run one after another: none is asked again after a later one. */
  predicate OneAfterAnother(steps: seq<Step>)
  {
    forall i, j | 0 <= i <= j < |steps| && steps[i].Ask? && steps[j].Ask? :: steps[i].loop <= steps[j].loop
  }

  predicate AtMostOnePerLoop(s: State)
  {
    forall t, u | t in s.running && u in s.running && t.loop == u.loop :: t == u
  }

  /** No running task belongs to a later loop than `loop`, and the one of `loop` is
      on record. */
  predicate Tracked(s: State, loop: nat)
  {
    && AtMostOnePerLoop(s)
    && (forall t | t in s.running :: t.id < s.started && t.loop <= loop && (t.loop == loop ==> s.task == Some(t)))
  }

  lemma {:induction false} RunTracked(steps: seq<Step>, loop: nat)
    requires OneAfterAnother(steps)
    requires forall i | 0 <= i < |steps| && steps[i].Ask? :: steps[i].loop <= loop
    ensures Tracked(Run(steps), loop)
  {
    if steps != [] {
      var front, step := steps[..|steps| - 1], steps[|steps| - 1];
      if step.Ask? {
        RunTracked(front, step.loop);
      } else {
        RunTracked(front, loop);
      }
    }
  }

  /** With loops one after another, at most one refresh is in flight per loop. */
  lemma {:induction false} OneRefreshPerLoop(steps: seq<Step>, loop: nat)
    requires OneAfterAnother(steps)
    requires forall i | 0 <= i < |steps| && steps[i].Ask? :: steps[i].loop <= loop
    ensures AtMostOnePerLoop(Run(steps))
  {
    RunTracked(steps, loop);
  }

  /** Two loops taking turns would each forget the other's task and start a second. */
  lemma AlternatingLoopsOverlap()
    ensures !AtMostOnePerLoop(Run([Ask(0), Ask(1), Ask(0)]))
  {
    var p1, p2, p3 := [Ask(0)], [Ask(0), Ask(1)], [Ask(0), Ask(1), Ask(0)];
    assert p1[..0] == [] && p2[..1] == p1 && p3[..2] == p2;
    assert Run(p1) == State(Some(Task(0, 0)), {Task(0, 0)}, 1);
    assert Run(p2) == State(Some(Task(1, 1)), {Task(0, 0), Task(1, 1)}, 2);
    assert Task(0, 0) in Run(p3).running && Task(2, 0) in Run(p3).running;
  }

  // ----- the exact condition for two refreshes of one loop

  predicate Asks(steps: seq<Step>, i: nat, loop: nat)
  {
    i < |steps| && steps[i] == Ask(loop)
  }

  /** Step `i` starts the task `t`. */
  predicate Starts(steps: seq<Step>, i: nat, t: Task)
  {
    && Asks(steps, i, t.loop)
    && var s := Run(steps[..i]); Current(s.task, s.running, t.loop).None? && t.id == s.started
  }

  predicate Unfinished(steps: seq<Step>, i: nat, k: nat, t: Task)
  {
    forall m | i < m < k && m < |steps| :: steps[m] != Finish(t)
  }

  /** Another loop asked at `j` while the task that `i` started was unfinished. */
  ghost predicate Forgotten(steps: seq<Step>, i: nat, j: nat, t: Task)
  {
    Starts(steps, i, t) && i < j && exists other :: other != t.loop && Asks(steps, j, other)
  }

  /** The loop asked again at `k`, and its task still was unfinished. */
  ghost predicate AskedAgain(steps: seq<Step>, i: nat, j: nat, k: nat, t: Task)
  {
    Forgotten(steps, i, j, t) && j < k && Asks(steps, k, t.loop) && Unfinished(steps, i, k, t)
  }

  /** At some point of the run two refreshes of one loop are in flight. */
  predicate Overlaps(steps: seq<Step>)
  {
    exists n | 0 <= n <= |steps| :: !AtMostOnePerLoop(Run(steps[..n]))
  }

  predicate Numbered(s: State)
  {
    forall t | t in s.running :: t.id < s.started
  }

  lemma {:induction false} RunNumbered(steps: seq<Step>)
    ensures Numbered(Run(steps))
  {
    if steps != [] { RunNumbered(steps[..|steps| - 1]); }
  }

  lemma {:induction false} StartsSnoc(steps: seq<Step>, step: Step, i: nat, t: Task)
    requires Starts(steps, i, t)
    ensures Starts(steps + [step], i, t)
  {
    assert (steps + [step])[..i] == steps[..i];
  }

  /** A task in flight was started, and has not finished since. */
  lemma {:induction false} StartedSomewhere(steps: seq<Step>, t: Task) returns (i: nat)
    requires t in Run(steps).running
    ensures Starts(steps, i, t) && Unfinished(steps, i, |steps|, t)
  {
    if steps == [] {
      assert false;
    }
    var front, step := steps[..|steps| - 1], steps[|steps| - 1];
    assert steps == front + [step];
    if t in Run(front).running {
      i := StartedSomewhere(front, t);
      StartsSnoc(front, step, i, t);
    } else {
      i := |front|;
    }
  }

  /** A task in flight that is not on record was forgotten. */
  lemma {:induction false} Displaced(steps: seq<Step>, t: Task) returns (i: nat, j: nat)
    requires t in Run(steps).running && Run(steps).task != Some(t)
    ensures Forgotten(steps, i, j, t) && Unfinished(steps, i, |steps|, t)
  {
    if steps == [] {
      assert false;
    }
    var front, step := steps[..|steps| - 1], steps[|steps| - 1];
    assert steps == front + [step];
    if Run(front).task != Some(t) {
      i, j := Displaced(front, t);
      StartsSnoc(front, step, i, t);
      var other :| other != t.loop && Asks(front, j, other);
      assert Asks(steps, j, other);
    } else {
      i := StartedSomewhere(front, t);
      StartsSnoc(front, step, i, t);
      j := |front|;
      assert Asks(steps, j, step.loop);
    }
  }

  lemma {:induction false} OverlapHasCause(steps: seq<Step>, t: Task, u: Task) returns (i: nat, j: nat, k: nat, v: Task)
    requires t in Run(steps).running && u in Run(steps).running && t.loop == u.loop && t != u
    ensures AskedAgain(steps, i, j, k, v)
  {
    if steps == [] {
      assert false;
    }
    var front, step := steps[..|steps| - 1], steps[|steps| - 1];
    assert steps == front + [step];
    if t in Run(front).running && u in Run(front).running {
      i, j, k, v := OverlapHasCause(front, t, u);
      AgainSnoc(front, step, i, j, k, v);
    } else {
      v := if t in Run(front).running then t else u;
      i, j := Displaced(front, v);
      StartsSnoc(front, step, i, v);
      var other :| other != v.loop && Asks(front, j, other);
      assert Asks(steps, j, other);
      k := |front|;
    }
  }

  lemma {:induction false} AgainSnoc(steps: seq<Step>, step: Step, i: nat, j: nat, k: nat, t: Task)
    requires AskedAgain(steps, i, j, k, t)
    ensures AskedAgain(steps + [step], i, j, k, t)
  {
    StartsSnoc(steps, step, i, t);
    var other :| other != t.loop && Asks(steps, j, other);
    assert Asks(steps + [step], j, other);
  }

  lemma {:induction false} RunNext(steps: seq<Step>, m: nat)
    requires m < |steps|
    ensures Run(steps[..m + 1]) == After(Run(steps[..m]), steps[m])
  {
    assert steps[..m + 1][..m] == steps[..m];
  }

  /** Until the loop asks again its task runs on, off the record. */
  lemma {:induction false} RunsOn(steps: seq<Step>, i: nat, j: nat, k: nat, t: Task, m: nat)
    requires AskedAgain(steps, i, j, k, t) && i < m <= k && !Overlaps(steps)
    ensures t in Run(steps[..m]).running
    ensures m > j ==> Run(steps[..m]).task.Some? && Run(steps[..m]).task.value.loop != t.loop
    decreases m
  {
    RunNext(steps, m - 1);
    if m > i + 1 {
      RunsOn(steps, i, j, k, t, m - 1);
      if m - 1 > j && steps[m - 1] == Ask(t.loop) {
        SecondStarts(steps, m - 1, t);
      }
      assert steps[m - 1] != Finish(t);
      KeepsRunning(Run(steps[..m - 1]), steps[m - 1], t);
    }
  }

  lemma KeepsRunning(s: State, step: Step, t: Task)
    requires t in s.running && step != Finish(t)
    ensures t in After(s, step).running
    ensures step.Ask? && step.loop != t.loop ==> After(s, step).task.Some? && After(s, step).task.value.loop != t.loop
    ensures step.Finish? ==> After(s, step).task == s.task
  {}

  /** An ask of the loop of a task in flight off the record starts a second one. */
  lemma {:induction false} SecondStarts(steps: seq<Step>, m: nat, t: Task)
    requires Asks(steps, m, t.loop) && t in Run(steps[..m]).running
    requires Run(steps[..m]).task.Some? && Run(steps[..m]).task.value.loop != t.loop
    ensures Overlaps(steps)
  {
    var s := Run(steps[..m]);
    RunNumbered(steps[..m]);
    RunNext(steps, m);
    var u := Task(s.started, t.loop);
    assert t in Run(steps[..m + 1]).running && u in Run(steps[..m + 1]).running && t != u;
  }

  /** Two refreshes of one loop are in flight at some point of a run if and only if
      another loop asked while a task of the loop was unfinished, and the loop asked
      again before that task finished. */
  lemma {:induction false} OverlapIff(steps: seq<Step>)
    ensures Overlaps(steps) <==> exists i, j, k, t :: AskedAgain(steps, i, j, k, t)
  {
    if Overlaps(steps) {
      var n :| 0 <= n <= |steps| && !AtMostOnePerLoop(Run(steps[..n]));
      var t, u :| t in Run(steps[..n]).running && u in Run(steps[..n]).running && t.loop == u.loop && t != u;
      var i, j, k, v := OverlapHasCause(steps[..n], t, u);
      AgainInLonger(steps, n, i, j, k, v);
    }
    if i, j, k, t :| AskedAgain(steps, i, j, k, t) {
      if !Overlaps(steps) {
        RunsOn(steps, i, j, k, t, k);
        SecondStarts(steps, k, t);
      }
    }
  }

  lemma {:induction false} AgainInLonger(steps: seq<Step>, n: nat, i: nat, j: nat, k: nat, t: Task)
    requires n <= |steps| && AskedAgain(steps[..n], i, j, k, t)
    ensures AskedAgain(steps, i, j, k, t)
  {
    assert steps[..n][..i] == steps[..i];
    var other :| other != t.loop && Asks(steps[..n], j, other);
    assert Asks(steps, j, other);
    forall m | i < m < k && m < |steps| ensures steps[m] != Finish(t) {
      assert steps[..n][m] != Finish(t);
    }
  }

  // ----- waiting

  /** When `wait_for_attempt` returns: at once past the budget or when the task is
      done, else when the task is done or the attempt's budget is spent. */
  function Returns(asked: real, started: real, budget: real, done: Option<real>): real
  {
    var deadline := started + budget;
    if deadline <= asked then asked
    else if done.Some? && done.value <= asked then asked
    else if done.Some? && done.value < deadline then done.value
    else deadline
  }

  /** The reader waits until the attempt is done or its budget is over, and not longer:
      it returns at the first moment from its call on at which either is so. */
  lemma ReturnsFirst(asked: real, started: real, budget: real, done: Option<real>)
    ensures var r := Returns(asked, started, budget, done);
            asked <= r && Over(r, started, budget, done) &&
            forall t | Over(t, started, budget, done) && asked <= t :: r <= t
  {}

  /** The attempt is done, or its budget is over. */
  predicate Over(t: real, started: real, budget: real, done: Option<real>)
  {
    started + budget <= t || (done.Some? && done.value <= t)
  }

  /** One request reads the cache again and again, each time after the last answer. */
  predicate OneByOne(asks: seq<real>, started: real, budget: real, done: Option<real>)
  {
    forall i | 0 <= i < |asks| - 1 :: Returns(asks[i], started, budget, done) <= asks[i + 1]
  }

  function Waited(asks: seq<real>, started: real, budget: real, done: Option<real>): real
  {
    if asks == [] then 0.0
    else Returns(asks[0], started, budget, done) - asks[0] + Waited(asks[1..], started, budget, done)
  }

  lemma {:induction false} WaitedSnoc(asks: seq<real>, a: real, started: real, budget: real, done: Option<real>)
    ensures Waited(asks + [a], started, budget, done) ==
            Waited(asks, started, budget, done) + (Returns(a, started, budget, done) - a)
  {
    if asks == [] {
      assert [a][1..] == [];
    } else {
      assert (asks + [a])[1..] == asks[1..] + [a];
      WaitedSnoc(asks[1..], a, started, budget, done);
    }
  }

  /** However often a request reads, all its waits on one attempt together stay
      within what was left of the attempt's budget at its first read. */
  lemma {:induction false} WaitsShareOneBudget(asks: seq<real>, started: real, budget: real, done: Option<real>)
    requires OneByOne(asks, started, budget, done) && asks != []
    ensures 0.0 <= Waited(asks, started, budget, done)
    ensures Waited(asks, started, budget, done) <=
            if asks[0] < started + budget then started + budget - asks[0] else 0.0
    decreases |asks|
  {
    var rest := asks[1..];
    if rest != [] {
      assert OneByOne(rest, started, budget, done) by {
        forall i | 0 <= i < |rest| - 1 ensures Returns(rest[i], started, budget, done) <= rest[i + 1] {
          assert Returns(asks[i + 1], started, budget, done) <= asks[i + 2];
        }
      }
      WaitsShareOneBudget(rest, started, budget, done);
      assert Returns(asks[0], started, budget, done) <= asks[1];
    }
  }
}
