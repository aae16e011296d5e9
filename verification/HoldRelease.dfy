/** Holding every guest row before a downgrade and releasing it afterwards. The
    hold purges unclaimed seats one transaction at a time, then suspends proven
    guests in one transaction that is committed only after the list of them has
    reached the disk. Seats are claimed, guests converted or deleted, and rows
    banned and unbanned by operators while it runs, and a hold that crashed or
    completed is run again on the same list. */
module HoldRelease {
  import opened HoldList
  import opened Sets

  datatype Status = Native | Added | Proven

  datatype Row = Row(status: Status, suspended: bool)

  type Table = map<Uin, Row>

  predicate IsSeat(t: Table, u: Uin)
  {
    u in t && t[u].status == Added
  }

  predicate IsOpenGuest(t: Table, u: Uin)
  {
    u in t && t[u].status == Proven && !t[u].suspended
  }

  predicate IsGuest(t: Table, u: Uin)
  {
    u in t && t[u].status != Native
  }

  function OpenGuests(t: Table): set<Uin>
  {
    set u | u in t && IsOpenGuest(t, u)
  }

  function Seats(t: Table): set<Uin>
  {
    set u | u in t && IsSeat(t, u)
  }

  function Flagged(t: Table, us: set<Uin>, flag: bool): Table
  {
    map u | u in t :: if u in us then t[u].(suspended := flag) else t[u]
  }

  // ----- hold, as a protocol

  /** Where the hold is. After `Updated` the rows in `locked` belong to its open
      transaction until it commits. */
  datatype Phase =
    | Purging(todo: seq<Uin>)
    | Selected(targets: seq<Uin>)
    | Updated(targets: seq<Uin>, locked: set<Uin>)
    | Written(targets: seq<Uin>, locked: set<Uin>)
    | Done
    | Crashed

  /** `held` are the rows whose suspension by a hold has been committed, `banned` the
      rows an operator has suspended, and `lifted` the rows whose suspension an
      operator has lifted since the hold selected its targets, and which nobody has
      suspended or taken as a target again. */
  datatype State = State(
    table: Table, list: string, phase: Phase, held: set<Uin>, banned: set<Uin>, lifted: set<Uin>)

  datatype Step =
    | PurgeNext
    | Select(order: seq<Uin>)
    | Update
    | Write
    | Commit
    | Crash(written: nat)
    | Claim(u: Uin)
    | Convert(u: Uin)
    | Delete(u: Uin)
    | Ban(u: Uin)
    | Lift(u: Uin)
    | Restart(seats: seq<Uin>)

  predicate Free(s: State, u: Uin)
  {
    u in s.table && !((s.phase.Updated? || s.phase.Written?) && u in s.phase.locked)
  }

  predicate Enabled(s: State, step: Step)
  {
    match step
    case PurgeNext => s.phase.Purging? && s.phase.todo != []
    case Select(order) => s.phase.Purging? && s.phase.todo == [] && Elements(order) == OpenGuests(s.table)
    case Update => s.phase.Selected?
    case Write => s.phase.Updated?
    case Commit => s.phase.Written?
    case Crash(n) => !s.phase.Done? && (s.phase.Updated? ==> n <= |Rendered(s.phase.targets)|)
    case Claim(u) => Free(s, u) && IsSeat(s.table, u)
    case Convert(u) => Free(s, u) && IsGuest(s.table, u)
    case Delete(u) => Free(s, u)
    case Ban(u) => Free(s, u)
    case Lift(u) => Free(s, u) && s.table[u].suspended
    case Restart(seats) => (s.phase.Crashed? || s.phase.Done?) && Elements(seats) == Seats(s.table)
  }

  function After(s: State, step: Step): State
    requires Enabled(s, step)
  {
    match step
    case PurgeNext =>
      var u := s.phase.todo[0];
      s.(table := if IsSeat(s.table, u) then s.table - {u} else s.table, phase := Purging(s.phase.todo[1..]))
    case Select(order) => s.(phase := Selected(order), lifted := {})
    case Update =>
      var locked := OpenGuests(s.table) * Elements(s.phase.targets);
      s.(phase := Updated(s.phase.targets, locked), lifted := s.lifted - locked)
    case Write => s.(list := s.list + Rendered(s.phase.targets), phase := Written(s.phase.targets, s.phase.locked))
    case Commit =>
      s.(table := Flagged(s.table, s.phase.locked, true), held := s.held + s.phase.locked, phase := Done)
    case Crash(n) =>
      s.(list := if s.phase.Updated? then s.list + Rendered(s.phase.targets)[..n] else s.list, phase := Crashed)
    case Claim(u) => s.(table := s.table[u := s.table[u].(status := Proven)])
    case Convert(u) => s.(table := s.table[u := s.table[u].(status := Native)])
    case Delete(u) => s.(table := s.table - {u})
    case Ban(u) =>
      s.(table := s.table[u := s.table[u].(suspended := true)], banned := s.banned + {u}, lifted := s.lifted - {u})
    case Lift(u) =>
      s.(table := s.table[u := s.table[u].(suspended := false)],
         held := s.held - {u}, banned := s.banned - {u}, lifted := s.lifted + {u})
    case Restart(seats) => s.(phase := Purging(seats))
  }

  /** A run; a step that is not enabled does nothing. */
  function Run(s: State, steps: seq<Step>): State
  {
    if steps == [] then s
    else
      var t := Run(s, steps[..|steps| - 1]);
      if Enabled(t, steps[|steps| - 1]) then After(t, steps[|steps| - 1]) else t
  }

  /** A hold has read its seats, in some order. */
  predicate Begun(s: State)
  {
    s.phase.Purging? && forall u | u in s.table && IsSeat(s.table, u) :: u in s.phase.todo
  }

  /** The same, and earlier holds left their list. */
  predicate Start(s: State)
  {
    Begun(s) && OnList(s)
  }

  /** Every write of the run finds a list that ends with a newline. */
  predicate CleanWrites(s: State, steps: seq<Step>)
  {
    forall i | 0 <= i < |steps| && steps[i] == Write && Enabled(Run(s, steps[..i]), Write) ::
      Closed(Run(s, steps[..i]).list)
  }

  // ----- what a step does to one row, and to the list

  /** A row goes only by its own deletion, or when the hold finds that it is still a
      seat; its status changes only by a claim or a conversion, and its suspension only
      by an operator or by the commit of a hold that locked it. */
  lemma StepSeen(s: State, step: Step, u: Uin)
    requires Enabled(s, step)
    ensures var t := After(s, step);
            var purged := step == PurgeNext && s.phase.todo[0] == u && u in s.table && s.table[u].status == Added;
            && (u in t.table <==> u in s.table && step != Delete(u) && !purged)
            && (u in t.table ==>
                  t.table[u] == Row(
                    if step == Claim(u) then Proven else if step == Convert(u) then Native else s.table[u].status,
                    if step == Ban(u) then true
                    else if step == Lift(u) then false
                    else s.table[u].suspended || (step == Commit && u in s.phase.locked)))
  {}

  /** The list grows by what the hold writes, as far as it gets; what a hold locks is
      open and a target of its own. */
  lemma StepListed(s: State, step: Step, u: Uin)
    requires Enabled(s, step)
    ensures var t := After(s, step);
            && t.list == s.list + (if step == Write then Rendered(s.phase.targets)
                                   else if step.Crash? && s.phase.Updated? then Rendered(s.phase.targets)[..step.written]
                                   else [])
            && (step == Update ==>
                  && t.phase.Updated? && t.phase.targets == s.phase.targets
                  && (u in t.phase.locked <==>
                        u in s.table && s.table[u] == Row(Proven, false) && u in s.phase.targets))
  {}

  /** No step of the run is an operator's or a user's on this row. */
  predicate LeftAlone(steps: seq<Step>, u: Uin)
  {
    forall i | 0 <= i < |steps| ::
      steps[i] != Claim(u) && steps[i] != Convert(u) && steps[i] != Delete(u) && steps[i] != Ban(u) && steps[i] != Lift(u)
  }

  /** Whatever a hold does, however often it crashes and runs again, a row that is no seat
      stays, with its status, and with its suspension; and a row that is no guest keeps
      everything. */
  lemma {:induction false} HoldSpares(s: State, steps: seq<Step>, u: Uin)
    requires u in s.table && s.table[u].status != Added && LeftAlone(steps, u)
    requires (s.phase.Updated? || s.phase.Written?) && u in s.phase.locked ==> s.table[u].status == Proven
    ensures var t := Run(s, steps);
            && u in t.table && t.table[u].status == s.table[u].status && (s.table[u].suspended ==> t.table[u].suspended)
            && (s.table[u].status == Native ==> t.table[u] == s.table[u])
            && ((t.phase.Updated? || t.phase.Written?) && u in t.phase.locked ==> t.table[u].status == Proven)
  {
    if steps != [] {
      var front, step := steps[..|steps| - 1], steps[|steps| - 1];
      assert LeftAlone(front, u);
      HoldSpares(s, front, u);
      var t := Run(s, front);
      if Enabled(t, step) {
        assert step != Claim(u) && step != Convert(u) && step != Delete(u) && step != Ban(u) && step != Lift(u);
        StepSeen(t, step, u);
        StepListed(t, step, u);
        LocksKept(t, step, u);
      }
    }
  }

  lemma LocksKept(s: State, step: Step, u: Uin)
    requires Enabled(s, step)
    ensures var t := After(s, step);
            (t.phase.Updated? || t.phase.Written?) && u in t.phase.locked ==>
              step == Update || ((s.phase.Updated? || s.phase.Written?) && u in s.phase.locked)
  {}

  // ----- what every step keeps of the table

  predicate NoSeats(t: Table)
  {
    forall u | u in t :: t[u].status != Added
  }

  /** The open guests are among `us`, or were unbanned. */
  predicate OpenAmong(s: State, us: set<Uin>)
  {
    && NoSeats(s.table) && (forall u | u in s.table && IsOpenGuest(s.table, u) :: u in us || u in s.lifted)
    && forall u | u in s.table && u in s.lifted :: !s.table[u].suspended
  }

  predicate Inv(s: State)
  {
    match s.phase
    case Purging(todo) => forall u | u in s.table :: s.table[u].status == Added ==> u in todo
    case Selected(ts) => OpenAmong(s, Elements(ts))
    case Updated(ts, locked) => OpenAmong(s, locked) && locked !! s.lifted
    case Written(ts, locked) => OpenAmong(s, locked) && locked !! s.lifted
    case Done => OpenAmong(s, {})
    case Crashed => true
  }

  lemma UpdateKeeps(s: State)
    requires Inv(s) && s.phase.Selected?
    ensures Inv(After(s, Update))
  {
    var ts := s.phase.targets;
    var locked := OpenGuests(s.table) * Elements(ts);
    forall u | u in s.table && IsOpenGuest(s.table, u) ensures u in locked || u in s.lifted - locked {
      if u in Elements(ts) { assert u in OpenGuests(s.table); }
    }
  }

  lemma CommitKeeps(s: State)
    requires Inv(s) && s.phase.Written?
    ensures Inv(After(s, Commit))
  {}

  lemma LeaveKeeps(s: State, step: Step)
    requires Inv(s) && Enabled(s, step) && (step.Claim? || step.Convert? || step.Delete?)
    ensures Inv(After(s, step))
  {}

  lemma BanKeeps(s: State, u: Uin)
    requires Inv(s) && Enabled(s, Ban(u))
    ensures Inv(After(s, Ban(u)))
  {}

  lemma LiftKeeps(s: State, u: Uin)
    requires Inv(s) && Enabled(s, Lift(u))
    ensures Inv(After(s, Lift(u)))
  {}

  lemma StepKeeps(s: State, step: Step)
    requires Inv(s) && Enabled(s, step)
    ensures Inv(After(s, step))
  {
    match step
    case PurgeNext =>
      var todo := s.phase.todo;
      assert todo == [todo[0]] + todo[1..];
    case Select(order) =>
      forall u | u in s.table && IsOpenGuest(s.table, u) ensures u in Elements(order) {
        assert u in OpenGuests(s.table);
      }
    case Update => UpdateKeeps(s);
    case Commit => CommitKeeps(s);
    case Restart(seats) =>
      forall u | u in s.table && s.table[u].status == Added ensures u in seats {
        assert u in Seats(s.table);
      }
    case Write =>
    case Crash(_) =>
    case Ban(u) => BanKeeps(s, u);
    case Lift(u) => LiftKeeps(s, u);
    case _ => LeaveKeeps(s, step);
  }

  lemma {:induction false} RunKeeps(s: State, steps: seq<Step>)
    requires Begun(s)
    ensures Inv(Run(s, steps))
  {
    if steps != [] {
      var front, step := steps[..|steps| - 1], steps[|steps| - 1];
      RunKeeps(s, front);
      if Enabled(Run(s, front), step) { StepKeeps(Run(s, front), step); }
    }
  }

  /** A hold that completes leaves no unclaimed seat, and as unsuspended guests exactly
      those that an operator has unbanned since it chose its targets, whatever was
      claimed, converted, deleted or banned while it ran. */
  lemma {:induction false} HoldLeavesIff(s: State, steps: seq<Step>, u: Uin)
    requires Begun(s) && Run(s, steps).phase.Done?
    ensures var t := Run(s, steps);
            !IsSeat(t.table, u) && (IsOpenGuest(t.table, u) <==> IsGuest(t.table, u) && u in t.lifted)
  {
    RunKeeps(s, steps);
  }

  predicate Unlifted(steps: seq<Step>)
  {
    forall i | 0 <= i < |steps| :: !steps[i].Lift?
  }

  lemma {:induction false} NothingLifted(s: State, steps: seq<Step>)
    requires s.lifted == {} && Unlifted(steps)
    ensures Run(s, steps).lifted == {}
  {
    if steps != [] {
      NothingLifted(s, steps[..|steps| - 1]);
      assert !steps[|steps| - 1].Lift?;
    }
  }

  /** Without such an operator, no guest is left unsuspended. */
  lemma {:induction false} HoldLeavesNone(s: State, steps: seq<Step>, u: Uin)
    requires Begun(s) && s.lifted == {} && Unlifted(steps) && Run(s, steps).phase.Done?
    ensures !IsSeat(Run(s, steps).table, u) && !IsOpenGuest(Run(s, steps).table, u)
  {
    NothingLifted(s, steps);
    HoldLeavesIff(s, steps, u);
  }

  // ----- what every step keeps of the list

  /** Every committed suspension has a line of its own on the list. */
  predicate OnList(s: State)
  {
    s.held <= Listed(Lines(s.list))
  }

  /** What is to be committed is to be listed, and then is. */
  predicate ListInv(s: State)
  {
    && OnList(s)
    && (s.phase.Updated? ==> s.phase.locked <= Elements(s.phase.targets))
    && (s.phase.Written? ==> s.phase.locked <= Listed(Lines(s.list)))
  }

  lemma StepLists(s: State, step: Step)
    requires ListInv(s) && Enabled(s, step) && (step.Write? ==> Closed(s.list))
    ensures ListInv(After(s, step))
  {
    match step
    case Write => AppendKeepsAll(s.list, s.phase.targets);
    case Crash(n) => if s.phase.Updated? { LinesGrow(s.list, Rendered(s.phase.targets)[..n]); }
    case _ =>
  }

  lemma {:induction false} RunLists(s: State, steps: seq<Step>)
    requires Start(s) && CleanWrites(s, steps)
    ensures ListInv(Run(s, steps))
  {
    if steps != [] {
      var n := |steps| - 1;
      var front, step := steps[..n], steps[n];
      forall i | 0 <= i < n ensures front[..i] == steps[..i] {}
      RunLists(s, front);
      if Enabled(Run(s, front), step) { StepLists(Run(s, front), step); }
    }
  }

  /** At every point of every run, crashes and reruns included, each suspension that a
      hold has committed is on the list, as long as no write starts behind an
      unfinished line. */
  lemma {:induction false} CommittedAreListed(s: State, steps: seq<Step>)
    requires Start(s) && CleanWrites(s, steps)
    ensures Run(s, steps).held <= Listed(Run(s, steps).list)
  {
    RunLists(s, steps);
    LinesListed(Run(s, steps).list);
  }

  /** One hold, without a rerun. */
  predicate Single(steps: seq<Step>)
  {
    forall i | 0 <= i < |steps| :: !steps[i].Restart?
  }

  /** While a hold has not written, the list is the one it found. */
  predicate Untouched(s: State, list: string)
  {
    s.phase.Purging? || s.phase.Selected? || s.phase.Updated? ==> s.list == list
  }

  lemma {:induction false} SingleWrites(s: State, steps: seq<Step>)
    requires s.phase.Purging? && Single(steps)
    ensures Untouched(Run(s, steps), s.list)
  {
    if steps != [] {
      SingleWrites(s, steps[..|steps| - 1]);
      assert !steps[|steps| - 1].Restart?;
    }
  }

  lemma {:induction false} SingleIsClean(s: State, steps: seq<Step>)
    requires s.phase.Purging? && Single(steps) && Closed(s.list)
    ensures CleanWrites(s, steps)
  {
    forall i | 0 <= i < |steps| && steps[i] == Write && Enabled(Run(s, steps[..i]), Write)
      ensures Closed(Run(s, steps[..i]).list)
    {
      SingleWrites(s, steps[..i]);
    }
  }

  /** Four steps commit the suspension of the only guest. */
  lemma {:induction false} HoldOne(s: State, u: Uin)
    requires s.table == map[u := Row(Proven, false)] && s.phase == Purging([]) && s.held == {}
    ensures var t := Run(s, [Select([u]), Update, Write, Commit]);
            t == s.(table := map[u := Row(Proven, true)], list := s.list + Rendered([u]), phase := Done,
                    held := {u}, lifted := {})
  {
    var steps := [Select([u]), Update, Write, Commit];
    assert steps[..4] == steps && steps[..3][..2] == steps[..2] && steps[..2][..1] == steps[..1] && steps[..1][..0] == [];
    assert OpenGuests(s.table) == {u};
    assert Run(s, steps[..1]) == s.(phase := Selected([u]), lifted := {});
    assert OpenGuests(s.table) * Elements([u]) == {u};
    assert Run(s, steps[..2]) == s.(phase := Updated([u], {u}), lifted := {});
    assert Run(s, steps[..3]) == s.(phase := Written([u], {u}), lifted := {}, list := s.list + Rendered([u]));
    assert Flagged(s.table, {u}, true) == map[u := Row(Proven, true)];
  }

  /** A hold run on a list commits no suspension that the list lacks, on any table and
      in any run, if and only if the list does not end inside a number. */
  lemma {:induction false} HoldListsIff(text: string, tail: string)
    requires Closed(text) && AllDigits(tail) && (tail != [] ==> Value(tail) > 0)
    ensures tail == [] <==>
            forall s, steps | Start(s) && s.list == text + tail && Single(steps) ::
              Run(s, steps).held <= Listed(Run(s, steps).list)
  {
    if tail == [] {
      assert text + tail == text;
      forall s, steps | Start(s) && s.list == text + tail && Single(steps)
        ensures Run(s, steps).held <= Listed(Run(s, steps).list)
      {
        SingleIsClean(s, steps);
        CommittedAreListed(s, steps);
      }
    } else {
      var u := TornTailLosesTarget(text, tail);
      var s := State(map[u := Row(Proven, false)], text + tail, Purging([]), {}, {}, {});
      var steps := [Select([u]), Update, Write, Commit];
      HoldOne(s, u);
      assert Start(s) && Single(steps);
      assert !(Run(s, steps).held <= Listed(Run(s, steps).list));
    }
  }

  // ----- release

  /** A suspended row is one an operator banned or a hold has suspended. */
  predicate Flags(s: State)
  {
    forall u | u in s.table :: s.table[u].suspended <==> u in s.banned || u in s.held
  }

  lemma {:induction false} FlagsKept(s: State, steps: seq<Step>)
    requires Flags(s)
    ensures Flags(Run(s, steps))
  {
    if steps != [] {
      FlagsKept(s, steps[..|steps| - 1]);
    }
  }

  /** The rows `release` selects: listed, still guests, suspended. */
  function Picked(t: Table, listed: set<Uin>): set<Uin>
  {
    set u | u in t && u in listed && IsGuest(t, u) && t[u].suspended
  }

  /** The selection is made on one state of the table and applied to a later one. */
  function ReleasedTable(selected: State, updated: State): Table
  {
    Flagged(updated.table, Picked(selected.table, Listed(selected.list)), false)
  }

  /** Every surviving guest is suspended exactly when an operator banned it. */
  predicate Restored(t: Table, banned: set<Uin>)
  {
    forall u | u in t && IsGuest(t, u) :: t[u].suspended <==> u in banned
  }

  /** A release undoes a hold. Whatever happened before it, on whatever list, and
      whatever happens between its selection and its update, it restores every
      surviving guest if and only if it picked none that an operator has banned and
      every other one that a hold has suspended. */
  lemma {:induction false} ReleaseRestoresIff(start: State, steps: seq<Step>, between: seq<Step>)
    requires Flags(start)
    ensures var s := Run(start, steps);
            var t, picked := Run(s, between), Picked(s.table, Listed(s.list));
            Restored(ReleasedTable(s, t), t.banned) <==>
            forall u | u in t.table && IsGuest(t.table, u) ::
              (u in t.banned ==> u !in picked) && (u in t.held && u !in t.banned ==> u in picked)
  {
    var s := Run(start, steps);
    var t := Run(s, between);
    FlagsKept(start, steps);
    FlagsKept(s, between);
    RestoredIff(t, Picked(s.table, Listed(s.list)));
  }

  /** A release adds and removes no row, and leaves alone every row that was not a guest
      when it selected, was not suspended then, or is not on the list. */
  lemma {:induction false} ReleaseLeavesRest(start: State, steps: seq<Step>, between: seq<Step>, u: Uin)
    ensures var s := Run(start, steps);
            var t, released := Run(s, between), ReleasedTable(s, Run(s, between));
            && (u in released <==> u in t.table)
            && (u in t.table ==>
                  if u in s.table && s.table[u].status != Native && s.table[u].suspended && u in Listed(s.list)
                  then released[u] == Row(t.table[u].status, false)
                  else released[u] == t.table[u])
  {}

  lemma RestoredIff(t: State, picked: set<Uin>)
    requires Flags(t)
    ensures Restored(Flagged(t.table, picked, false), t.banned) <==>
            forall u | u in t.table && IsGuest(t.table, u) ::
              (u in t.banned ==> u !in picked) && (u in t.held && u !in t.banned ==> u in picked)
  {
    var after := Flagged(t.table, picked, false);
    assert forall u | u in after :: IsGuest(after, u) <==> IsGuest(t.table, u);
    forall u | u in t.table && IsGuest(t.table, u)
      ensures (after[u].suspended <==> u in t.banned) <==>
              (u in t.banned ==> u !in picked) && (u in t.held && u !in t.banned ==> u in picked)
    {}
  }

  /** With nothing in between, the condition is on the list, the bans and the holds
      alone: no banned guest is listed, and every other held one is. */
  lemma {:induction false} AtomicReleaseRestoresIff(start: State, steps: seq<Step>)
    requires Flags(start)
    ensures var s := Run(start, steps);
            Restored(ReleasedTable(s, s), s.banned) <==>
            forall u | u in s.table && IsGuest(s.table, u) ::
              (u in s.banned ==> u !in Listed(s.list)) && (u in s.held && u !in s.banned ==> u in Listed(s.list))
  {
    var s := Run(start, steps);
    FlagsKept(start, steps);
    PickedIsListed(s);
    RestoredIff(s, Picked(s.table, Listed(s.list)));
  }

  lemma PickedIsListed(s: State)
    requires Flags(s)
    ensures forall u | u in s.table && IsGuest(s.table, u) && (u in s.banned || u in s.held) ::
              u in Picked(s.table, Listed(s.list)) <==> u in Listed(s.list)
  {}

  /** When no write started behind an unfinished line, the first half decides. */
  lemma {:induction false} CleanReleaseRestoresIff(start: State, steps: seq<Step>)
    requires Start(start) && Flags(start) && CleanWrites(start, steps)
    ensures var s := Run(start, steps);
            Restored(ReleasedTable(s, s), s.banned) <==>
            forall u | u in s.table && IsGuest(s.table, u) && u in s.banned :: u !in Listed(s.list)
  {
    AtomicReleaseRestoresIff(start, steps);
    CommittedAreListed(start, steps);
  }

  /** The other half fails on every list that ends inside a number: some guest, alone
      on the island and banned by nobody, is held and never released. */
  lemma {:induction false} TornListStrandsGuest(text: string, tail: string) returns (u: Uin)
    requires Closed(text) && tail != [] && AllDigits(tail) && Value(tail) > 0
    ensures var start := State(map[u := Row(Proven, false)], text + tail, Purging([]), {}, {}, {});
            var s := Run(start, [Select([u]), Update, Write, Commit]);
            && Start(start) && Flags(start) && s.phase.Done? && s.banned == {}
            && ReleasedTable(s, s) == map[u := Row(Proven, true)]
  {
    u := TornTailLosesTarget(text, tail);
    var start := State(map[u := Row(Proven, false)], text + tail, Purging([]), {}, {}, {});
    HoldOne(start, u);
    var held := map[u := Row(Proven, true)];
    assert Picked(held, Listed(text + tail + Rendered([u]))) == {};
    assert Flagged(held, {}, false) == held;
  }

  /** A guest that an operator bans between the selection and the update is listed
      although the hold did not suspend it, and the release lifts the operator's ban. */
  lemma {:induction false} ReleaseLiftsBan()
    ensures var start := State(map[7 := Row(Proven, false)], [], Purging([]), {}, {}, {});
            var s := Run(start, [Select([7]), Ban(7), Update, Write, Commit]);
            && Start(start) && Flags(start) && s.phase.Done?
            && 7 in s.banned && 7 !in s.held && 7 in Listed(s.list)
            && ReleasedTable(s, s) == map[7 := Row(Proven, false)]
  {
    var start := State(map[7 := Row(Proven, false)], [], Purging([]), {}, {}, {});
    BannedRun(start);
    LiftsBan(map[7 := Row(Proven, true)]);
  }

  lemma {:induction false} LiftsBan(banned: Table)
    requires banned == map[7 := Row(Proven, true)]
    ensures 7 in Listed(Rendered([7]))
    ensures Flagged(banned, Picked(banned, Listed(Rendered([7]))), false) == map[7 := Row(Proven, false)]
  {
    ListRoundTrip([7]);
    assert 7 in Elements([7]);
    assert Picked(banned, Listed(Rendered([7]))) == {7};
  }

  lemma {:induction false} BannedRun(start: State)
    requires start == State(map[7 := Row(Proven, false)], [], Purging([]), {}, {}, {})
    ensures Run(start, [Select([7]), Ban(7), Update, Write, Commit]) ==
            State(map[7 := Row(Proven, true)], Rendered([7]), Done, {}, {7}, {})
  {
    BanAfterSelect(start);
    var front, banned := [Select([7]), Ban(7), Update], map[7 := Row(Proven, true)];
    assert front + [Write] + [Commit] == [Select([7]), Ban(7), Update, Write, Commit];
    RunSnoc(start, front, Write);
    assert [] + Rendered([7]) == Rendered([7]);
    assert Run(start, front + [Write]) == State(banned, Rendered([7]), Written([7], {}), {}, {7}, {});
    RunSnoc(start, front + [Write], Commit);
    assert Flagged(banned, {}, true) == banned;
  }

  lemma {:induction false} RunSnoc(s: State, steps: seq<Step>, step: Step)
    ensures var t := Run(s, steps);
            Run(s, steps + [step]) == if Enabled(t, step) then After(t, step) else t
  {
    assert (steps + [step])[..|steps|] == steps;
  }

  lemma {:induction false} BanAfterSelect(start: State)
    requires start == State(map[7 := Row(Proven, false)], [], Purging([]), {}, {}, {})
    ensures Run(start, [Select([7]), Ban(7), Update]) ==
            start.(table := map[7 := Row(Proven, true)], phase := Updated([7], {}), banned := {7})
  {
    var banned := map[7 := Row(Proven, true)];
    assert OpenGuests(start.table) == {7} && OpenGuests(banned) == {};
    assert [Select([7])] + [Ban(7)] + [Update] == [Select([7]), Ban(7), Update];
    assert [] + [Select([7])] == [Select([7])];
    RunSnoc(start, [], Select([7]));
    RunSnoc(start, [Select([7])], Ban(7));
    RunSnoc(start, [Select([7])] + [Ban(7)], Update);
    assert start.table[7 := Row(Proven, true)] == banned;
    assert OpenGuests(banned) * Elements([7]) == {};
  }

  // ----- the tool, alone

  method Ordered(us: set<Uin>) returns (q: seq<Uin>)
    ensures Elements(q) == us && |q| == |us|
  {
    q := [];
    var todo := us;
    while todo != {}
      invariant Elements(q) + todo == us && |q| + |todo| == |us|
      decreases todo
    {
      var u := Take(todo);
      ElementsSnoc(q, u);
      q := q + [u];
      todo := todo - {u};
    }
  }

  datatype Refusal = AdmissionOpen | NoListPath

  datatype Report = DryRun(seats: nat, guests: nat) | Applied(purged: nat, suspended: nat) | Refused(why: Refusal)

  lemma Prefix(q: seq<Uin>, i: nat)
    requires i < |q|
    ensures Elements(q[..i + 1]) == Elements(q[..i]) + {q[i]}
  {
    assert q[..i + 1] == q[..i] + [q[i]];
    ElementsSnoc(q[..i], q[i]);
  }

  lemma PurgeOne(t: Table, done: set<Uin>, u: Uin)
    ensures var now := t - (Seats(t) * done);
            (if IsSeat(now, u) then now - {u} else now) == t - (Seats(t) * (done + {u}))
  {
    var now := t - (Seats(t) * done);
    if IsSeat(now, u) {
      assert Seats(t) * (done + {u}) == Seats(t) * done + {u};
    } else if u in now {
      assert u !in Seats(t);
      assert Seats(t) * (done + {u}) == Seats(t) * done;
    } else {
      assert now.Keys == t.Keys - Seats(t) * (done + {u});
    }
  }

  lemma OneRowLess(t: Table, u: Uin)
    requires u in t
    ensures |t - {u}| == |t| - 1
  {
    assert t.Keys == (t - {u}).Keys + {u};
  }

  class Island {
    var table: Table
    var list: string

    constructor (table: Table, list: string)
      ensures this.table == table && this.list == list
    {
      this.table, this.list := table, list;
    }

    /** One transaction per seat: re-read, and purge what is still a seat. */
    method PurgeSeats(seats: seq<Uin>) returns (purged: nat)
      modifies this`table
      ensures table == old(table) - (Seats(old(table)) * Elements(seats))
      ensures purged == |old(table)| - |table|
    {
      purged := 0;
      ghost var done: set<Uin> := {};
      for i := 0 to |seats|
        invariant done == Elements(seats[..i])
        invariant table == old(table) - (Seats(old(table)) * done)
        invariant purged == |old(table)| - |table|
      {
        Prefix(seats, i);
        PurgeOne(old(table), done, seats[i]);
        if IsSeat(table, seats[i]) {
          OneRowLess(table, seats[i]);
          table := table - {seats[i]};
          purged := purged + 1;
        }
        done := done + {seats[i]};
      }
      assert seats[..|seats|] == seats;
    }

    method Hold(apply: bool, admissionOpen: bool, hasListPath: bool) returns (report: Report)
      modifies this
      ensures report.DryRun? <==> !apply
      ensures report.Refused? <==> apply && (admissionOpen || !hasListPath)
      ensures report.DryRun? ==> report == DryRun(|Seats(table)|, |OpenGuests(table)|)
      ensures !report.Applied? ==> table == old(table) && list == old(list)
      ensures report.Applied? ==>
                var rest := old(table) - Seats(old(table));
                report == Applied(|old(table)| - |rest|, |OpenGuests(rest)|) &&
                table == Flagged(rest, OpenGuests(rest), true) &&
                (Closed(old(list)) ==> Listed(list) == Listed(old(list)) + OpenGuests(rest))
      ensures report.Applied? ==>
                forall u | u in old(table) ::
                  var row := old(table)[u];
                  && (u in table <==> row.status != Added)
                  && (u in table ==> table[u] == Row(row.status, row.suspended || row.status == Proven))
    {
      var seats := Ordered(Seats(table));
      var guests := OpenGuests(table);
      if !apply { return DryRun(|seats|, |guests|); }
      if admissionOpen { return Refused(AdmissionOpen); }
      if !hasListPath { return Refused(NoListPath); }
      var purged := PurgeSeats(seats);
      assert Seats(old(table)) * Elements(seats) == Seats(old(table));
      var targets := Ordered(OpenGuests(table));
      if Closed(list) { AppendKeepsAll(list, targets); }
      list := list + Rendered(targets);
      table := Flagged(table, Elements(targets), true);
      report := Applied(purged, |targets|);
    }

    method Release() returns (released: set<Uin>)
      modifies this`table
      ensures released == Picked(old(table), Listed(list))
      ensures table == Flagged(old(table), released, false)
      ensures table.Keys == old(table).Keys
      ensures forall u | u in table ::
                && table[u].status == old(table)[u].status
                && (u in released <==> old(table)[u].suspended && old(table)[u].status != Native && u in Listed(list))
                && (table[u].suspended <==> old(table)[u].suspended && u !in released)
    {
      var listed := ReadList(list);
      released := {};
      if listed != {} { released := Picked(table, listed); }
      if released != {} {
        table := Flagged(table, released, false);
      } else {
        assert table == Flagged(table, released, false);
      }
    }
  }
}
