/**
 * Adding a start assignment to a schedule (schedule/Schedule.java).
 *
 * assignStart runs the schedule's logic on the start assignment and on each of its present
 * assignments, and adds the assignment to both tables only when the validator holds no
 * conflict. forceAssignStart first removes every start that the logic reports as a global
 * conflict, then assigns on the revised schedule.
 */
module ScheduleUpdates {
  import opened Wrappers
  import opened Treap
  import opened BstMap
  import opened Graph
  import opened Assignments
  import opened Validation
  import opened ScheduleTables
  import opened ScheduleLogic
  import opened LogicFacts

  /** What assignStart's validator holds: the start check, then each present assignment's. */
  function AssignEffect(logic: Logic, s: Schedule, a: StartAssignment): (d: Conflicts)
    requires Checkable(s, a)
    ensures d.GlobalsNonEmpty()
    ensures d.LocallyValid() <==>
              StartEffect(logic, s, a).LocallyValid() && PresentsEffect(logic, s, a, a.section.periodLength).LocallyValid()
    ensures d.IsValid() <==>
              StartEffect(logic, s, a).IsValid() && PresentsEffect(logic, s, a, a.section.periodLength).IsValid()
  {
    var start := StartEffect(logic, s, a);
    var presents := PresentsEffect(logic, s, a, a.section.periodLength);
    AppendFacts(start, presents);
    start.Append(presents)
  }

  /**
   * The schedule assignStart returns: the assignment entered in both tables when the
   * validator is valid, the same schedule otherwise.
   */
  function AssignedState(logic: Logic, s: Schedule, a: StartAssignment, heapKey: int): (t: Schedule)
    requires Checkable(s, a)
    ensures t.Valid() && t.program == s.program && t.table.Pairs().Keys == s.table.Pairs().Keys
    ensures !AssignEffect(logic, s, a).IsValid() ==> t == s
    ensures AssignEffect(logic, s, a).IsValid() ==>
              && t.ContainsStart(a)
              && t.assignments.Pairs() == s.assignments.Pairs()[SectionKey(a.section) := a]
              && forall room :: s.HasRoom(room) && RoomKey(room) != RoomKey(a.room) ==> t.Slots(room) == s.Slots(room)
  {
    if AssignEffect(logic, s, a).IsValid() then s.Added(a, heapKey) else s
  }

  /** assignStart(assign): validate with a fresh validator, then add when valid. */
  method AssignStart(logic: Logic, s: Schedule, a: StartAssignment, heapKey: int) returns (v: ScheduleValidator, t: Schedule)
    requires Checkable(s, a)
    ensures fresh(v) && v.Valid()
    ensures v.Snapshot() == AssignEffect(logic, s, a)
    ensures t == AssignedState(logic, s, a, heapKey)
  {
    v := new ScheduleValidator();
    ValidateStart(logic, v, s, a);
    ValidatePresents(logic, v, s, a);
    NoneAppend(StartEffect(logic, s, a));
    if v.IsValid() {
      t := s.Added(a, heapKey);
    } else {
      t := s;
    }
  }

  // ---------------------------------------------------------------------------------------
  // No double booking

  /** Every start already in a's room runs at least one period and belongs to a's program. */
  ghost predicate ProperRoom(s: Schedule, a: StartAssignment)
    requires Checkable(s, a)
  {
    forall k :: k in s.Slots(a.room) ==>
      s.Slots(a.room)[k].section.periodLength >= 1 && s.Slots(a.room)[k].period.Program() == a.period.Program()
  }

  /** A valid assignment passes the logic at each of its present assignments. */
  lemma {:induction false} ValidAssignPassesPresent(logic: Logic, s: Schedule, a: StartAssignment, i: int)
    requires Checkable(s, a) && AssignEffect(logic, s, a).IsValid()
    requires 0 <= i < a.section.periodLength
    ensures PresentEffect(logic, s, PresentAssignment(a, i)).IsValid()
  {
    PresentsValidIff(logic, s, a, a.section.periodLength);
    assert PassesPresent(logic, s, a, i);
  }

  /** A chain holding RoomConflictLogic passes a only when each period it needs is free. */
  lemma {:induction false} RoomFreeAt(ls: seq<Logic>, s: Schedule, a: StartAssignment, i: int)
    requires Checkable(s, a) && RoomConflict in ls && AssignEffect(Chained(ls), s, a).IsValid()
    requires 0 <= i < a.section.periodLength
    ensures s.OccurringAt(Period(PresentAssignment(a, i)), a.room).None?
  {
    var p := PresentAssignment(a, i);
    ValidAssignPassesPresent(Chained(ls), s, a, i);
    var j :| 0 <= j < |ls| && ls[j] == RoomConflict;
    ChainMemberPasses(ls, s, p, j);
    RoomConflictEffectIff(s, p);
  }

  /** ... so no start in the room covers any of those periods. */
  lemma {:induction false} NotCovered(ls: seq<Logic>, s: Schedule, a: StartAssignment, i: int, k: Key)
    requires Checkable(s, a) && RoomConflict in ls && AssignEffect(Chained(ls), s, a).IsValid()
    requires NoOverlap(s.Slots(a.room)) && k in s.Slots(a.room)
    ensures 0 <= i < a.section.periodLength ==> !Covers(s.Slots(a.room)[k], Period(PresentAssignment(a, i)))
  {
    if 0 <= i < a.section.periodLength {
      RoomFreeAt(ls, s, a, i);
      OccurringAtIff(s, Period(PresentAssignment(a, i)), a.room);
    }
  }

  /** An accepted start and a start already in its block of the room lie apart. */
  lemma {:induction false} StartsApart(ls: seq<Logic>, s: Schedule, a: StartAssignment, k: Key)
    requires Checkable(s, a) && RoomConflict in ls && AssignEffect(Chained(ls), s, a).IsValid()
    requires NoOverlap(s.Slots(a.room)) && ProperRoom(s, a)
    requires k in s.Slots(a.room) && k.major == a.period.block.id && a.section.periodLength >= 1
    ensures || k.minor + s.Slots(a.room)[k].section.periodLength <= a.period.index
            || a.period.index + a.section.periodLength <= k.minor
  {
    var slot := s.Slots(a.room)[k];
    assert k == PeriodKey(slot.period);
    assert slot.section.periodLength >= 1 && slot.period.Program() == a.period.Program();
    assert SameBlock(slot.period.block, a.period.block);
    var i := if k.minor < a.period.index then 0 else k.minor - a.period.index;
    NotCovered(ls, s, a, i, k);
  }

  /**
   * With RoomConflictLogic in the chain, assignStart never double-books the room: if no two
   * starts of a room overlap before, none overlap after, whether or not a was accepted.
   */
  lemma {:induction false} AssignKeepsRoomFree(ls: seq<Logic>, s: Schedule, a: StartAssignment, heapKey: int)
    requires Checkable(s, a) && RoomConflict in ls
    requires a.section.periodLength >= 1 && ProperRoom(s, a)
    requires NoOverlap(s.Slots(a.room))
    ensures NoOverlap(AssignedState(Chained(ls), s, a, heapKey).Slots(a.room))
  {
    if AssignEffect(Chained(ls), s, a).IsValid() {
      var ka := PeriodKey(a.period);
      var ts := AssignedState(Chained(ls), s, a, heapKey).Slots(a.room);
      assert ts == s.Slots(a.room)[ka := Slot(a.period, a.section)];
      forall k1, k2 | k1 in ts && k2 in ts && Less(k1, k2) && k1.major == k2.major
        ensures k1.minor + ts[k1].section.periodLength <= k2.minor
      {
        if k1 == ka {
          StartsApart(ls, s, a, k2);
        } else if k2 == ka {
          StartsApart(ls, s, a, k1);
        }
      }
    }
  }

  /** No room of the schedule is double-booked. */
  ghost predicate RoomsFree(s: Schedule)
    requires s.Valid()
  {
    forall room :: s.HasRoom(room) ==> NoOverlap(s.Slots(room))
  }

  /** The same for the whole schedule: only a's room changes, and it stays free. */
  lemma {:induction false} AssignKeepsRoomsFree(ls: seq<Logic>, s: Schedule, a: StartAssignment, heapKey: int)
    requires Checkable(s, a) && RoomConflict in ls
    requires a.section.periodLength >= 1 && ProperRoom(s, a)
    requires RoomsFree(s)
    ensures RoomsFree(AssignedState(Chained(ls), s, a, heapKey))
  {
    var t := AssignedState(Chained(ls), s, a, heapKey);
    AssignKeepsRoomFree(ls, s, a, heapKey);
    forall room | t.HasRoom(room)
      ensures NoOverlap(t.Slots(room))
    {
      if RoomKey(room) == RoomKey(a.room) {
        assert t.Slots(room) == t.Slots(a.room);
      } else {
        assert s.HasRoom(room);
      }
    }
  }

  // ---------------------------------------------------------------------------------------
  // forceAssignStart

  /** The start assignments of a list of present assignments, in order. */
  function Starts(ps: seq<PresentAssignment>): (r: seq<StartAssignment>)
    ensures |r| == |ps|
    ensures forall j :: 0 <= j < |ps| ==> r[j] == ps[j].start
  {
    seq(|ps|, j requires 0 <= j < |ps| => ps[j].start)
  }

  /** The starts to remove for the global present conflicts, conflict by conflict. */
  function PresentTargets(gs: seq<GlobalConflict<PresentAssignment>>): (r: seq<StartAssignment>)
    ensures forall t :: t in r <==>
              exists i, j :: 0 <= i < |gs| && 0 <= j < |gs[i].conflicting| && gs[i].conflicting[j].start == t
  {
    if gs == [] then []
    else
      var front := gs[..|gs| - 1];
      var rest := PresentTargets(front);
      var conflicting := gs[|gs| - 1].conflicting;
      var last := Starts(conflicting);
      assert forall i :: 0 <= i < |front| ==> front[i] == gs[i];
      assert forall t :: t in last ==> exists j :: 0 <= j < |conflicting| && conflicting[j].start == t;
      rest + last
  }

  /** The starts to remove for the global start conflicts, conflict by conflict. */
  function StartTargets(gs: seq<GlobalConflict<StartAssignment>>): (r: seq<StartAssignment>)
    ensures forall t :: t in r <==>
              exists i, j :: 0 <= i < |gs| && 0 <= j < |gs[i].conflicting| && gs[i].conflicting[j] == t
  {
    if gs == [] then []
    else
      var front := gs[..|gs| - 1];
      var rest := StartTargets(front);
      assert forall i :: 0 <= i < |front| ==> front[i] == gs[i];
      rest + gs[|gs| - 1].conflicting
  }

  /** Every start forceAssignStart removes, in the order it removes them. */
  function RemovalTargets(c: Conflicts): seq<StartAssignment> {
    PresentTargets(c.globalPresent) + StartTargets(c.globalStart)
  }

  /**
   * Each conflicting assignment's room has a map in the schedule (otherwise removeStartingAt
   * dereferences a missing room map).
   */
  ghost predicate TargetsKnown(s: Schedule, c: Conflicts)
    requires s.Valid()
  {
    && (forall i, j :: 0 <= i < |c.globalPresent| && 0 <= j < |c.globalPresent[i].conflicting| ==>
          s.HasRoom(c.globalPresent[i].conflicting[j].start.room))
    && (forall i, j :: 0 <= i < |c.globalStart| && 0 <= j < |c.globalStart[i].conflicting| ==>
          s.HasRoom(c.globalStart[i].conflicting[j].room))
  }

  /** Every target's room has a map in the schedule. */
  ghost predicate RoomsKnown(s: Schedule, targets: seq<StartAssignment>)
    requires s.Valid()
  {
    forall t :: t in targets ==> s.HasRoom(t.room)
  }

  lemma {:induction false} TargetsKnownRooms(s: Schedule, c: Conflicts)
    requires s.Valid() && TargetsKnown(s, c)
    ensures RoomsKnown(s, RemovalTargets(c))
  {
  }

  /** removeStartingAt(target's period, target's room) on s, as far as the room is known. */
  ghost function RemoveTarget(s: Schedule, t: StartAssignment, heapKey: int): Schedule {
    if s.Valid() && s.HasRoom(t.room) then s.RemoveStartingAt(t.period, t.room, heapKey).newState else s
  }

  /**
   * The schedule after forceAssignStart's removals as written: every removal starts again
   * from the original schedule, so only the last target is removed.
   */
  ghost function LastRemoval(s: Schedule, targets: seq<StartAssignment>, heapKey: int): Schedule {
    if targets == [] then s else RemoveTarget(s, targets[|targets| - 1], heapKey)
  }

  /** The removals as intended: each one applied to the schedule the previous one left. */
  ghost function RemoveEach(s: Schedule, targets: seq<StartAssignment>, heapKey: int): Schedule
    decreases |targets|
  {
    if targets == [] then s
    else RemoveTarget(RemoveEach(s, targets[..|targets| - 1], heapKey), targets[|targets| - 1], heapKey)
  }

  /** A removal keeps the schedule well formed, its program and its rooms. */
  lemma {:induction false} RemoveTargetValid(s: Schedule, t: StartAssignment, heapKey: int)
    requires s.Valid()
    ensures RemoveTarget(s, t, heapKey).Valid()
    ensures RemoveTarget(s, t, heapKey).program == s.program
    ensures RemoveTarget(s, t, heapKey).table.Pairs().Keys == s.table.Pairs().Keys
  {
  }

  lemma {:induction false} LastRemovalValid(s: Schedule, targets: seq<StartAssignment>, heapKey: int)
    requires s.Valid()
    ensures LastRemoval(s, targets, heapKey).Valid()
    ensures LastRemoval(s, targets, heapKey).program == s.program
    ensures LastRemoval(s, targets, heapKey).table.Pairs().Keys == s.table.Pairs().Keys
  {
    if targets != [] {
      RemoveTargetValid(s, targets[|targets| - 1], heapKey);
    }
  }

  lemma {:induction false} RemoveEachValid(s: Schedule, targets: seq<StartAssignment>, heapKey: int)
    requires s.Valid()
    ensures RemoveEach(s, targets, heapKey).Valid()
    ensures RemoveEach(s, targets, heapKey).program == s.program
    ensures RemoveEach(s, targets, heapKey).table.Pairs().Keys == s.table.Pairs().Keys
    decreases |targets|
  {
    if targets != [] {
      RemoveEachValid(s, targets[..|targets| - 1], heapKey);
      RemoveTargetValid(RemoveEach(s, targets[..|targets| - 1], heapKey), targets[|targets| - 1], heapKey);
    }
  }

  /** Appending one target to the as-written removals keeps only that target's removal. */
  lemma {:induction false} LastRemovalSnoc(s: Schedule, done: seq<StartAssignment>, x: StartAssignment, heapKey: int)
    requires s.Valid() && s.HasRoom(x.room)
    ensures LastRemoval(s, done + [x], heapKey) == s.RemoveStartingAt(x.period, x.room, heapKey).newState
  {
  }

  /** Appending one target to the intended removals applies one more removal. */
  lemma {:induction false} RemoveEachSnoc(s: Schedule, done: seq<StartAssignment>, x: StartAssignment, heapKey: int)
    requires s.Valid() && s.HasRoom(x.room)
    ensures RemoveEach(s, done, heapKey).Valid() && RemoveEach(s, done, heapKey).HasRoom(x.room)
    ensures RemoveEach(s, done + [x], heapKey) ==
              RemoveEach(s, done, heapKey).RemoveStartingAt(x.period, x.room, heapKey).newState
  {
    RemoveEachValid(s, done, heapKey);
    assert (done + [x])[..|done|] == done;
  }

  /** Rooms with the same key share one map. */
  lemma {:induction false} SameRoomKey(s: Schedule, r1: Room, r2: Room)
    requires s.Valid() && s.HasRoom(r1) && RoomKey(r1) == RoomKey(r2)
    ensures s.HasRoom(r2) && s.Slots(r1) == s.Slots(r2)
  {
  }

  /** One removal, seen from every room. */
  lemma {:induction false} RemoveStep(prev: Schedule, t: StartAssignment, heapKey: int)
    requires prev.Valid() && prev.HasRoom(t.room)
    ensures forall room :: prev.HasRoom(room) ==>
              prev.RemoveStartingAt(t.period, t.room, heapKey).newState.Slots(room) ==
                if RoomKey(room) == RoomKey(t.room) then prev.Slots(room) - {PeriodKey(t.period)} else prev.Slots(room)
  {
    var r := prev.RemoveStartingAt(t.period, t.room, heapKey).newState;
    forall room | prev.HasRoom(room) && RoomKey(room) == RoomKey(t.room)
      ensures r.Slots(room) == prev.Slots(room) - {PeriodKey(t.period)}
    {
      SameRoomKey(prev, t.room, room);
      SameRoomKey(r, t.room, room);
    }
  }

  /** The last of the intended removals, seen from every room of the original schedule. */
  lemma {:induction false} RemoveEachStep(s: Schedule, targets: seq<StartAssignment>, heapKey: int)
    requires s.Valid() && targets != [] && s.HasRoom(targets[|targets| - 1].room)
    ensures RemoveEach(s, targets[..|targets| - 1], heapKey).Valid()
    ensures RemoveEach(s, targets, heapKey).Valid()
    ensures RemoveEach(s, targets[..|targets| - 1], heapKey).table.Pairs().Keys == s.table.Pairs().Keys
    ensures RemoveEach(s, targets, heapKey).table.Pairs().Keys == s.table.Pairs().Keys
    ensures var prev := RemoveEach(s, targets[..|targets| - 1], heapKey);
            var last := targets[|targets| - 1];
            forall room :: s.HasRoom(room) ==>
              RemoveEach(s, targets, heapKey).Slots(room) ==
                if RoomKey(room) == RoomKey(last.room) then prev.Slots(room) - {PeriodKey(last.period)} else prev.Slots(room)
  {
    var front := targets[..|targets| - 1];
    var last := targets[|targets| - 1];
    RemoveEachValid(s, front, heapKey);
    RemoveEachValid(s, targets, heapKey);
    RemoveStep(RemoveEach(s, front, heapKey), last, heapKey);
  }

  /** The same step, for one room. */
  lemma {:induction false} RemoveEachStepAt(s: Schedule, targets: seq<StartAssignment>, heapKey: int, room: Room)
    requires s.Valid() && targets != [] && s.HasRoom(targets[|targets| - 1].room) && s.HasRoom(room)
    ensures RemoveEach(s, targets[..|targets| - 1], heapKey).Valid()
    ensures RemoveEach(s, targets, heapKey).Valid()
    ensures RemoveEach(s, targets[..|targets| - 1], heapKey).HasRoom(room)
    ensures RemoveEach(s, targets, heapKey).HasRoom(room)
    ensures var prev := RemoveEach(s, targets[..|targets| - 1], heapKey);
            var last := targets[|targets| - 1];
            RemoveEach(s, targets, heapKey).Slots(room) ==
              if RoomKey(room) == RoomKey(last.room) then prev.Slots(room) - {PeriodKey(last.period)} else prev.Slots(room)
  {
    RemoveEachStep(s, targets, heapKey);
  }

  /** A start the last removal does not target survives it. */
  lemma {:induction false} KeptThroughStep(s: Schedule, targets: seq<StartAssignment>, heapKey: int, room: Room, k: Key)
    requires s.Valid() && targets != [] && s.HasRoom(targets[|targets| - 1].room) && s.HasRoom(room)
    requires RemoveEach(s, targets[..|targets| - 1], heapKey).Valid()
    requires RemoveEach(s, targets[..|targets| - 1], heapKey).HasRoom(room)
    requires k in RemoveEach(s, targets[..|targets| - 1], heapKey).Slots(room)
    requires RoomKey(targets[|targets| - 1].room) != RoomKey(room) || PeriodKey(targets[|targets| - 1].period) != k
    ensures RemoveEach(s, targets, heapKey).Valid() && RemoveEach(s, targets, heapKey).HasRoom(room)
    ensures k in RemoveEach(s, targets, heapKey).Slots(room)
  {
    RemoveEachStepAt(s, targets, heapKey, room);
  }

  /** The intended removals leave no target's start in its room. */
  lemma {:induction false} RemoveEachClears(s: Schedule, targets: seq<StartAssignment>, heapKey: int)
    requires s.Valid() && RoomsKnown(s, targets)
    ensures RemoveEach(s, targets, heapKey).Valid()
    ensures RemoveEach(s, targets, heapKey).table.Pairs().Keys == s.table.Pairs().Keys
    ensures forall t :: t in targets ==> PeriodKey(t.period) !in RemoveEach(s, targets, heapKey).Slots(t.room)
  {
    RemoveEachValid(s, targets, heapKey);
    if targets != [] {
      var front := targets[..|targets| - 1];
      var last := targets[|targets| - 1];
      assert forall t :: t in front ==> t in targets;
      assert last in targets;
      RemoveEachValid(s, front, heapKey);
      RemoveEachClears(s, front, heapKey);
      var prev := RemoveEach(s, front, heapKey);
      var r := RemoveEach(s, targets, heapKey);
      forall t | t in targets
        ensures PeriodKey(t.period) !in r.Slots(t.room)
      {
        RemoveEachStepAt(s, targets, heapKey, t.room);
        if t != last {
          assert t in front;
        }
      }
    }
  }

  /** The intended removals only delete: every start left was there before, unchanged. */
  lemma {:induction false} RemoveEachShrinks(s: Schedule, targets: seq<StartAssignment>, heapKey: int)
    requires s.Valid() && RoomsKnown(s, targets)
    ensures RemoveEach(s, targets, heapKey).Valid()
    ensures RemoveEach(s, targets, heapKey).table.Pairs().Keys == s.table.Pairs().Keys
    ensures forall room, k :: s.HasRoom(room) && k in RemoveEach(s, targets, heapKey).Slots(room) ==>
              k in s.Slots(room) && RemoveEach(s, targets, heapKey).Slots(room)[k] == s.Slots(room)[k]
  {
    RemoveEachValid(s, targets, heapKey);
    if targets != [] {
      var front := targets[..|targets| - 1];
      assert forall t :: t in front ==> t in targets;
      assert targets[|targets| - 1] in targets;
      RemoveEachValid(s, front, heapKey);
      RemoveEachShrinks(s, front, heapKey);
      var prev := RemoveEach(s, front, heapKey);
      var r := RemoveEach(s, targets, heapKey);
      forall room, k | s.HasRoom(room) && k in r.Slots(room)
        ensures k in s.Slots(room) && r.Slots(room)[k] == s.Slots(room)[k]
      {
        RemoveEachStepAt(s, targets, heapKey, room);
      }
    }
  }

  /** ... and they delete nothing but the targets. */
  lemma {:induction false} RemoveEachKeeps(s: Schedule, targets: seq<StartAssignment>, heapKey: int)
    requires s.Valid() && RoomsKnown(s, targets)
    ensures RemoveEach(s, targets, heapKey).Valid()
    ensures RemoveEach(s, targets, heapKey).table.Pairs().Keys == s.table.Pairs().Keys
    ensures forall room, k ::
              && s.HasRoom(room) && k in s.Slots(room)
              && (forall t :: t in targets ==> RoomKey(t.room) != RoomKey(room) || PeriodKey(t.period) != k)
              ==> k in RemoveEach(s, targets, heapKey).Slots(room)
  {
    RemoveEachValid(s, targets, heapKey);
    if targets != [] {
      var front := targets[..|targets| - 1];
      var last := targets[|targets| - 1];
      assert forall t :: t in front ==> t in targets;
      assert last in targets;
      RemoveEachValid(s, front, heapKey);
      RemoveEachKeeps(s, front, heapKey);
      var prev := RemoveEach(s, front, heapKey);
      var r := RemoveEach(s, targets, heapKey);
      forall room, k | && s.HasRoom(room) && k in s.Slots(room)
                       && (forall t :: t in targets ==> RoomKey(t.room) != RoomKey(room) || PeriodKey(t.period) != k)
        ensures k in r.Slots(room)
      {
        assert k in prev.Slots(room);
        assert RoomKey(last.room) != RoomKey(room) || PeriodKey(last.period) != k;
        KeptThroughStep(s, targets, heapKey, room, k);
      }
    }
  }

  /**
   * The removals as written undo only the last target: a start of any earlier target that
   * lies elsewhere than the last one is still in the schedule.
   */
  lemma {:induction false} LastRemovalKeepsEarlier(s: Schedule, targets: seq<StartAssignment>, heapKey: int)
    requires s.Valid() && RoomsKnown(s, targets) && targets != []
    ensures LastRemoval(s, targets, heapKey).Valid()
    ensures LastRemoval(s, targets, heapKey).table.Pairs().Keys == s.table.Pairs().Keys
    ensures var last := targets[|targets| - 1];
            forall t :: t in targets && PeriodKey(t.period) in s.Slots(t.room)
                        && (RoomKey(t.room) != RoomKey(last.room) || PeriodKey(t.period) != PeriodKey(last.period)) ==>
              PeriodKey(t.period) in LastRemoval(s, targets, heapKey).Slots(t.room)
  {
    LastRemovalValid(s, targets, heapKey);
    var last := targets[|targets| - 1];
    assert last in targets;
    RemoveStep(s, last, heapKey);
  }

  /** One removal as written: removeStartingAt on this schedule. */
  method RemoveOneAsWritten(s: Schedule, ghost done: seq<StartAssignment>, x: StartAssignment, heapKey: int)
    returns (r: Schedule)
    requires s.Valid() && s.HasRoom(x.room)
    ensures r == LastRemoval(s, done + [x], heapKey)
  {
    LastRemovalSnoc(s, done, x, heapKey);
    r := s.RemoveStartingAt(x.period, x.room, heapKey).newState;
  }

  /** One removal as intended: removeStartingAt on the schedule so far. */
  method RemoveOne(ghost s: Schedule, ghost done: seq<StartAssignment>, revised: Schedule, x: StartAssignment, heapKey: int)
    returns (r: Schedule)
    requires s.Valid() && s.HasRoom(x.room) && revised == RemoveEach(s, done, heapKey)
    ensures r == RemoveEach(s, done + [x], heapKey)
  {
    RemoveEachSnoc(s, done, x, heapKey);
    r := revised.RemoveStartingAt(x.period, x.room, heapKey).newState;
  }

  /** The as-written removals of the present conflicts' starts, one present assignment at a time. */
  method RemovePresentStartsAsWritten(s: Schedule, ghost done: seq<StartAssignment>, revised: Schedule,
                                      conflicting: seq<PresentAssignment>, heapKey: int)
    returns (r: Schedule)
    requires s.Valid() && forall j :: 0 <= j < |conflicting| ==> s.HasRoom(conflicting[j].start.room)
    requires revised == LastRemoval(s, done, heapKey)
    ensures r == LastRemoval(s, done + Starts(conflicting), heapKey)
  {
    r := revised;
    ghost var sofar := done;
    for j := 0 to |conflicting|
      invariant sofar == done + Starts(conflicting[..j])
      invariant r == LastRemoval(s, sofar, heapKey)
    {
      var toRemove := conflicting[j].start;
      r := RemoveOneAsWritten(s, sofar, toRemove, heapKey);
      assert Starts(conflicting[..j + 1]) == Starts(conflicting[..j]) + [toRemove];
      sofar := sofar + [toRemove];
    }
    assert conflicting[..|conflicting|] == conflicting;
  }

  /** The as-written removals of the global start conflicts' starts. */
  method RemoveStartsAsWritten(s: Schedule, ghost done: seq<StartAssignment>, revised: Schedule,
                               conflicting: seq<StartAssignment>, heapKey: int)
    returns (r: Schedule)
    requires s.Valid() && forall j :: 0 <= j < |conflicting| ==> s.HasRoom(conflicting[j].room)
    requires revised == LastRemoval(s, done, heapKey)
    ensures r == LastRemoval(s, done + conflicting, heapKey)
  {
    r := revised;
    ghost var sofar := done;
    for j := 0 to |conflicting|
      invariant sofar == done + conflicting[..j]
      invariant r == LastRemoval(s, sofar, heapKey)
    {
      r := RemoveOneAsWritten(s, sofar, conflicting[j], heapKey);
      assert conflicting[..j + 1] == conflicting[..j] + [conflicting[j]];
      sofar := sofar + [conflicting[j]];
    }
    assert conflicting[..|conflicting|] == conflicting;
  }

  /** The intended removals of the present conflicts' starts, each on the previous result. */
  method RemovePresentStarts(ghost s: Schedule, ghost done: seq<StartAssignment>, revised: Schedule,
                             conflicting: seq<PresentAssignment>, heapKey: int)
    returns (r: Schedule)
    requires s.Valid() && forall j :: 0 <= j < |conflicting| ==> s.HasRoom(conflicting[j].start.room)
    requires revised == RemoveEach(s, done, heapKey)
    ensures r == RemoveEach(s, done + Starts(conflicting), heapKey)
  {
    r := revised;
    ghost var sofar := done;
    for j := 0 to |conflicting|
      invariant sofar == done + Starts(conflicting[..j])
      invariant r == RemoveEach(s, sofar, heapKey)
    {
      var toRemove := conflicting[j].start;
      r := RemoveOne(s, sofar, r, toRemove, heapKey);
      assert Starts(conflicting[..j + 1]) == Starts(conflicting[..j]) + [toRemove];
      sofar := sofar + [toRemove];
    }
    assert conflicting[..|conflicting|] == conflicting;
  }

  /** The intended removals of the global start conflicts' starts. */
  method RemoveStarts(ghost s: Schedule, ghost done: seq<StartAssignment>, revised: Schedule,
                      conflicting: seq<StartAssignment>, heapKey: int)
    returns (r: Schedule)
    requires s.Valid() && forall j :: 0 <= j < |conflicting| ==> s.HasRoom(conflicting[j].room)
    requires revised == RemoveEach(s, done, heapKey)
    ensures r == RemoveEach(s, done + conflicting, heapKey)
  {
    r := revised;
    ghost var sofar := done;
    for j := 0 to |conflicting|
      invariant sofar == done + conflicting[..j]
      invariant r == RemoveEach(s, sofar, heapKey)
    {
      r := RemoveOne(s, sofar, r, conflicting[j], heapKey);
      assert conflicting[..j + 1] == conflicting[..j] + [conflicting[j]];
      sofar := sofar + [conflicting[j]];
    }
    assert conflicting[..|conflicting|] == conflicting;
  }

  /** The target lists grow conflict by conflict. */
  lemma {:induction false} PresentTargetsStep(gs: seq<GlobalConflict<PresentAssignment>>, i: int)
    requires 0 <= i < |gs|
    ensures PresentTargets(gs[..i + 1]) == PresentTargets(gs[..i]) + Starts(gs[i].conflicting)
  {
    assert gs[..i + 1][..i] == gs[..i];
  }

  lemma {:induction false} StartTargetsStep(gs: seq<GlobalConflict<StartAssignment>>, i: int)
    requires 0 <= i < |gs|
    ensures StartTargets(gs[..i + 1]) == StartTargets(gs[..i]) + gs[i].conflicting
  {
    assert gs[..i + 1][..i] == gs[..i];
  }

  /** The first loop of forceAssignStart as written: each present conflict's starts removed from this schedule. */
  method RemovePresentConflictsAsWritten(s: Schedule, gs: seq<GlobalConflict<PresentAssignment>>, heapKey: int)
    returns (revised: Schedule)
    requires s.Valid()
    requires forall i, j :: 0 <= i < |gs| && 0 <= j < |gs[i].conflicting| ==> s.HasRoom(gs[i].conflicting[j].start.room)
    ensures revised == LastRemoval(s, PresentTargets(gs), heapKey)
  {
    revised := s;
    for i := 0 to |gs|
      invariant revised == LastRemoval(s, PresentTargets(gs[..i]), heapKey)
    {
      PresentTargetsStep(gs, i);
      revised := RemovePresentStartsAsWritten(s, PresentTargets(gs[..i]), revised, gs[i].conflicting, heapKey);
    }
    assert gs[..|gs|] == gs;
  }

  /** The second loop of forceAssignStart as written: each start conflict's starts removed from this schedule. */
  method RemoveStartConflictsAsWritten(s: Schedule, ghost done: seq<StartAssignment>, prior: Schedule,
                                      gs: seq<GlobalConflict<StartAssignment>>, heapKey: int)
    returns (revised: Schedule)
    requires s.Valid()
    requires forall i, j :: 0 <= i < |gs| && 0 <= j < |gs[i].conflicting| ==> s.HasRoom(gs[i].conflicting[j].room)
    requires prior == LastRemoval(s, done, heapKey)
    ensures revised == LastRemoval(s, done + StartTargets(gs), heapKey)
  {
    hide LastRemoval;
    revised := prior;
    ghost var sofar := done;
    assert gs[..0] == [];
    assert done + StartTargets(gs[..0]) == done;
    for i := 0 to |gs|
      invariant sofar == done + StartTargets(gs[..i])
      invariant revised == LastRemoval(s, sofar, heapKey)
    {
      StartTargetsStep(gs, i);
      revised := RemoveStartsAsWritten(s, sofar, revised, gs[i].conflicting, heapKey);
      sofar := sofar + gs[i].conflicting;
    }
    assert gs[..|gs|] == gs;
  }

  /** Both loops of forceAssignStart as written; only the last removal survives. */
  method RemoveConflictingAsWritten(s: Schedule, c: Conflicts, heapKey: int) returns (revised: Schedule)
    requires s.Valid() && TargetsKnown(s, c)
    ensures revised == LastRemoval(s, RemovalTargets(c), heapKey)
  {
    revised := RemovePresentConflictsAsWritten(s, c.globalPresent, heapKey);
    revised := RemoveStartConflictsAsWritten(s, PresentTargets(c.globalPresent), revised, c.globalStart, heapKey);
  }

  /** The first loop of forceAssignStart, each removal applied to the previous result. */
  method RemovePresentConflicts(s: Schedule, gs: seq<GlobalConflict<PresentAssignment>>, heapKey: int)
    returns (revised: Schedule)
    requires s.Valid()
    requires forall i, j :: 0 <= i < |gs| && 0 <= j < |gs[i].conflicting| ==> s.HasRoom(gs[i].conflicting[j].start.room)
    ensures revised == RemoveEach(s, PresentTargets(gs), heapKey)
  {
    revised := s;
    for i := 0 to |gs|
      invariant revised == RemoveEach(s, PresentTargets(gs[..i]), heapKey)
    {
      PresentTargetsStep(gs, i);
      revised := RemovePresentStarts(s, PresentTargets(gs[..i]), revised, gs[i].conflicting, heapKey);
    }
    assert gs[..|gs|] == gs;
  }

  /** The second loop of forceAssignStart, continuing from the first. */
  method RemoveStartConflicts(s: Schedule, ghost done: seq<StartAssignment>, prior: Schedule,
                                      gs: seq<GlobalConflict<StartAssignment>>, heapKey: int)
    returns (revised: Schedule)
    requires s.Valid()
    requires forall i, j :: 0 <= i < |gs| && 0 <= j < |gs[i].conflicting| ==> s.HasRoom(gs[i].conflicting[j].room)
    requires prior == RemoveEach(s, done, heapKey)
    ensures revised == RemoveEach(s, done + StartTargets(gs), heapKey)
  {
    revised := prior;
    ghost var sofar := done;
    assert gs[..0] == [];
    assert done + StartTargets(gs[..0]) == done;
    for i := 0 to |gs|
      invariant sofar == done + StartTargets(gs[..i])
      invariant revised == RemoveEach(s, sofar, heapKey)
    {
      StartTargetsStep(gs, i);
      revised := RemoveStarts(s, sofar, revised, gs[i].conflicting, heapKey);
      sofar := sofar + gs[i].conflicting;
    }
    assert gs[..|gs|] == gs;
  }

  /** The two loops of forceAssignStart, each removal applied to the previous result. */
  method RemoveConflicting(s: Schedule, c: Conflicts, heapKey: int) returns (revised: Schedule)
    requires s.Valid() && TargetsKnown(s, c)
    ensures revised == RemoveEach(s, RemovalTargets(c), heapKey)
  {
    revised := RemovePresentConflicts(s, c.globalPresent, heapKey);
    revised := RemoveStartConflicts(s, PresentTargets(c.globalPresent), revised, c.globalStart, heapKey);
  }

  /**
   * forceAssignStart(assign) as written: a locally invalid assignment is refused; otherwise
   * the conflicting starts are removed, each removal applied to this schedule, and the
   * assignment is assigned on the result.
   */
  method ForceAssignStartAsWritten(logic: Logic, s: Schedule, a: StartAssignment, heapKey: int)
    returns (v: ScheduleValidator, t: Schedule)
    requires Checkable(s, a) && TargetsKnown(s, AssignEffect(logic, s, a))
    ensures fresh(v) && v.Valid()
    ensures !AssignEffect(logic, s, a).LocallyValid() ==> v.Snapshot() == AssignEffect(logic, s, a) && t == s
    ensures AssignEffect(logic, s, a).LocallyValid() ==>
              var revised := LastRemoval(s, RemovalTargets(AssignEffect(logic, s, a)), heapKey);
              && revised.Valid() && revised.HasRoom(a.room)
              && v.Snapshot() == AssignEffect(logic, revised, a)
              && t == AssignedState(logic, revised, a, heapKey)
  {
    var first := new ScheduleValidator();
    ValidateStart(logic, first, s, a);
    ValidatePresents(logic, first, s, a);
    NoneAppend(StartEffect(logic, s, a));
    assert first.Snapshot() == AssignEffect(logic, s, a);
    if !first.IsLocallyValid() {
      return first, s;
    }
    var revised := RemoveConflictingAsWritten(s, first.Snapshot(), heapKey);
    LastRemovalValid(s, RemovalTargets(first.Snapshot()), heapKey);
    assert revised.HasRoom(a.room);
    v, t := AssignStart(logic, revised, a, heapKey);
  }

  /**
   * forceAssignStart(assign) with each removal applied to the schedule the previous removal
   * left, so that every conflicting start is gone before the assignment is tried.
   */
  method ForceAssignStart(logic: Logic, s: Schedule, a: StartAssignment, heapKey: int)
    returns (v: ScheduleValidator, t: Schedule)
    requires Checkable(s, a) && TargetsKnown(s, AssignEffect(logic, s, a))
    ensures fresh(v) && v.Valid()
    ensures !AssignEffect(logic, s, a).LocallyValid() ==> v.Snapshot() == AssignEffect(logic, s, a) && t == s
    ensures AssignEffect(logic, s, a).LocallyValid() ==>
              var revised := RemoveEach(s, RemovalTargets(AssignEffect(logic, s, a)), heapKey);
              && revised.Valid() && revised.HasRoom(a.room)
              && v.Snapshot() == AssignEffect(logic, revised, a)
              && t == AssignedState(logic, revised, a, heapKey)
  {
    var first := new ScheduleValidator();
    ValidateStart(logic, first, s, a);
    ValidatePresents(logic, first, s, a);
    NoneAppend(StartEffect(logic, s, a));
    assert first.Snapshot() == AssignEffect(logic, s, a);
    if !first.IsLocallyValid() {
      return first, s;
    }
    var revised := RemoveConflicting(s, first.Snapshot(), heapKey);
    RemoveEachValid(s, RemovalTargets(first.Snapshot()), heapKey);
    assert revised.HasRoom(a.room);
    v, t := AssignStart(logic, revised, a, heapKey);
  }

  // ---------------------------------------------------------------------------------------
  // Agreement of the two tables

  /** An unlocked start accepted by a chain holding DuplicateSectionLogic has a new section. */
  lemma {:induction false} AcceptedIsNew(ls: seq<Logic>, s: Schedule, a: StartAssignment)
    requires Checkable(s, a) && DuplicateSection in ls && !a.isLocked
    requires AssignEffect(Chained(ls), s, a).IsValid()
    ensures SectionKey(a.section) !in s.assignments.Pairs()
  {
    var logic := Chained(ls);
    assert StartEffect(logic, s, a).IsValid();
    assert StartEffect(logic, s, a) == ChainStart(logic, |ls|, s, a);
    ChainStartValidIff(logic, |ls|, s, a);
    var j :| 0 <= j < |ls| && ls[j] == DuplicateSection;
    assert StartEffect(DuplicateSection, s, a).IsValid();
    DuplicateStartIsOwnCheck(s, a);
    assert DuplicateEffect(s, a).globalStart == [];
    DuplicateEffectIff(s, a);
  }

  /** A start accepted by a chain holding RoomConflictLogic finds its own period free. */
  lemma {:induction false} AcceptedSlotFree(ls: seq<Logic>, s: Schedule, a: StartAssignment)
    requires Checkable(s, a) && RoomConflict in ls && AssignEffect(Chained(ls), s, a).IsValid()
    requires a.section.periodLength >= 1 && ProperRoom(s, a) && NoOverlap(s.Slots(a.room))
    ensures PeriodKey(a.period) !in s.Slots(a.room)
  {
    RoomFreeAt(ls, s, a, 0);
    assert Period(PresentAssignment(a, 0)) == a.period;
    var k := PeriodKey(a.period);
    if k in s.Slots(a.room) {
      assert k == PeriodKey(s.Slots(a.room)[k].period);
      assert Covers(s.Slots(a.room)[k], a.period);
      OccurringAtFindsCover(s, a.period, a.room, k);
    }
  }

  /**
   * With DuplicateSectionLogic and RoomConflictLogic in the chain, assignStart of an unlocked
   * start keeps the two tables in agreement: the section was not scheduled and its slot was
   * free, so the new entries point at each other and at nothing else.
   */
  lemma {:induction false} AssignKeepsTablesAgree(ls: seq<Logic>, s: Schedule, a: StartAssignment, heapKey: int)
    requires Checkable(s, a) && DuplicateSection in ls && RoomConflict in ls && !a.isLocked
    requires a.section.periodLength >= 1 && ProperRoom(s, a) && NoOverlap(s.Slots(a.room))
    requires s.TablesAgree()
    ensures AssignedState(Chained(ls), s, a, heapKey).TablesAgree()
  {
    if AssignEffect(Chained(ls), s, a).IsValid() {
      AcceptedIsNew(ls, s, a);
      AcceptedSlotFree(ls, s, a);
      AddedKeepsTablesAgree(s, a, heapKey);
    }
  }

  /** The as-written removals keep the tables in agreement: only one removal is applied. */
  lemma {:induction false} LastRemovalKeepsTablesAgree(s: Schedule, targets: seq<StartAssignment>, heapKey: int)
    requires s.Valid() && s.TablesAgree()
    ensures LastRemoval(s, targets, heapKey).Valid() && LastRemoval(s, targets, heapKey).TablesAgree()
  {
    LastRemovalValid(s, targets, heapKey);
    if targets != [] && s.HasRoom(targets[|targets| - 1].room) {
      RemoveKeepsTablesAgree(s, targets[|targets| - 1].period, targets[|targets| - 1].room, heapKey);
    }
  }

  /** The intended removals keep the tables in agreement, one removal at a time. */
  lemma {:induction false} RemoveEachKeepsTablesAgree(s: Schedule, targets: seq<StartAssignment>, heapKey: int)
    requires s.Valid() && s.TablesAgree()
    ensures RemoveEach(s, targets, heapKey).Valid() && RemoveEach(s, targets, heapKey).TablesAgree()
    decreases |targets|
  {
    RemoveEachValid(s, targets, heapKey);
    if targets != [] {
      var front := targets[..|targets| - 1];
      var last := targets[|targets| - 1];
      RemoveEachKeepsTablesAgree(s, front, heapKey);
      var prev := RemoveEach(s, front, heapKey);
      if prev.HasRoom(last.room) {
        RemoveKeepsTablesAgree(prev, last.period, last.room, heapKey);
      }
    }
  }
}
