/**
 * Concrete inputs on which the schedule code as written departs from what it evidently
 * means to do, each next to the corrected behaviour the rest of the model uses.
 */
module ScheduleFindings {
  import opened Wrappers
  import opened Treap
  import opened BstMap
  import opened Graph
  import opened Assignments
  import opened ScheduleTables
  import opened ScheduleLogic
  import opened LogicFacts
  import opened ScheduleUpdates

  /** A time block of two periods, one room, and three sections of one program. */
  const Block: TimeBlock := TimeBlock(0, 1, [PeriodSerial(10, false, 6, 12), PeriodSerial(11, false, 6, 12)])
  const P0: ClassPeriod := ClassPeriod(Block, 0)
  const P1: ClassPeriod := ClassPeriod(Block, 1)
  const R: Room := Room(0, 7)
  const Short1: Section := Section(0, 1, 100, 1)
  const Short2: Section := Section(0, 2, 200, 1)
  const Long: Section := Section(0, 3, 300, 2)
  const Prog: Program := Program(0, [R], map[], map[], map[], map[], map[], map[], map[], map[], map[])

  /** Factory.create() for the one-room program: the room with an empty period map. */
  function OneRoom(): (s: Schedule)
    ensures s.Valid() && s.program == Prog && s.HasRoom(R)
    ensures s.Slots(R) == map[] && s.assignments.Pairs() == map[]
  {
    var empty: BstMap<Slot> := Create();
    var table := Create<BstMap<Slot>>().Insert(Some(RoomKey(R)), Some(empty), 0).value;
    Schedule(Prog, table, Create())
  }

  /** Short1 starting at P0 and Short2 at P1, both in R. */
  function TwoStarts(): (s: Schedule)
    ensures s.Valid() && s.HasRoom(R)
    ensures s.Slots(R) == map[PeriodKey(P0) := Slot(P0, Short1), PeriodKey(P1) := Slot(P1, Short2)]
  {
    var a1 := StartAssignment(P0, R, Short1, false);
    var a2 := StartAssignment(P1, R, Short2, false);
    OneRoom().Added(a1, 0).Added(a2, 0)
  }

  /**
   * Two targets in one room at different periods, the first of them booked: removing each
   * from the original schedule and keeping only the last result (the loop as written) leaves
   * the first booked, while removing each from the previous result clears both.
   */
  lemma TwoTargetsAsWritten(s: Schedule, a1: StartAssignment, a2: StartAssignment, heapKey: int)
    requires s.Valid() && s.HasRoom(a1.room) && a2.room == a1.room
    requires PeriodKey(a1.period) in s.Slots(a1.room) && PeriodKey(a1.period) != PeriodKey(a2.period)
    ensures LastRemoval(s, [a1, a2], heapKey).Valid() && LastRemoval(s, [a1, a2], heapKey).HasRoom(a1.room)
    ensures PeriodKey(a1.period) in LastRemoval(s, [a1, a2], heapKey).Slots(a1.room)
    ensures RemoveEach(s, [a1, a2], heapKey).Valid() && RemoveEach(s, [a1, a2], heapKey).HasRoom(a1.room)
    ensures PeriodKey(a1.period) !in RemoveEach(s, [a1, a2], heapKey).Slots(a1.room)
    ensures PeriodKey(a2.period) !in RemoveEach(s, [a1, a2], heapKey).Slots(a1.room)
  {
    var targets := [a1, a2];
    assert RoomsKnown(s, targets);
    assert a1 in targets && a2 in targets;
    LastRemovalKeepsEarlier(s, targets, heapKey);
    RemoveEachClears(s, targets, heapKey);
  }

  /**
   * Force-assigning Long (two periods) at P0 in R conflicts with both starts of TwoStarts.
   * The loop as written still holds Short1 at P0 afterwards, so the room stays double-booked
   * once Long is entered; the corrected loop frees both periods.
   */
  lemma ForceAssignKeepsEarlierConflict()
    ensures var targets := [StartAssignment(P0, R, Short1, false), StartAssignment(P1, R, Short2, false)];
            var asWritten := LastRemoval(TwoStarts(), targets, 0);
            var corrected := RemoveEach(TwoStarts(), targets, 0);
            && asWritten.Valid() && asWritten.HasRoom(R) && PeriodKey(P0) in asWritten.Slots(R)
            && corrected.Valid() && corrected.HasRoom(R)
            && PeriodKey(P0) !in corrected.Slots(R) && PeriodKey(P1) !in corrected.Slots(R)
  {
    TwoTargetsAsWritten(TwoStarts(), StartAssignment(P0, R, Short1, false), StartAssignment(P1, R, Short2, false), 0);
  }

  /** Long starting at P0 in R. */
  function LongStart(): (s: Schedule)
    ensures s.Valid() && s.HasRoom(R)
    ensures s.Slots(R) == map[PeriodKey(P0) := Slot(P0, Long)]
  {
    OneRoom().Added(StartAssignment(P0, R, Long, false), 0)
  }

  /**
   * A room whose only start covers a later period of its block: in the occurringAt(period)
   * view, containsKey as written misses the room, while get finds the covering start.
   */
  lemma ContainsKeyMissesCover(s: Schedule, room: Room, a: StartAssignment, period: ClassPeriod)
    requires s.Valid() && s.HasRoom(room)
    requires s.Slots(room) == map[PeriodKey(a.period) := Slot(a.period, a.section)]
    requires Covers(Slot(a.period, a.section), period) && PeriodKey(period) != PeriodKey(a.period)
    ensures !s.OccurringAtContainsKey(period, room)
    ensures s.OccurringAt(period, room).Some? && s.OccurringAtHasRoom(period, room)
  {
    assert NoOverlap(s.Slots(room));
    OccurringAtFindsCover(s, period, room, PeriodKey(a.period));
  }

  /**
   * In the occurringAt(P1) view of LongStart, get(R) returns Long's second period while
   * containsKey(R) as written says R is not a key; the corrected containsKey agrees with get.
   */
  lemma OccurringAtViewDisagrees()
    ensures !LongStart().OccurringAtContainsKey(P1, R)
    ensures LongStart().OccurringAt(P1, R).Some? && LongStart().OccurringAtHasRoom(P1, R)
  {
    ContainsKeyMissesCover(LongStart(), R, StartAssignment(P0, R, Long, false), P1);
  }

  /** Short1 starting at P0 in R, entered in both tables. */
  function OneStart(): (s: Schedule)
    ensures s.Valid() && s.HasRoom(R) && s.TablesAgree()
    ensures s.Slots(R) == map[PeriodKey(P0) := Slot(P0, Short1)]
    ensures s.assignments.Pairs() == map[SectionKey(Short1) := StartAssignment(P0, R, Short1, false)]
  {
    var a := StartAssignment(P0, R, Short1, false);
    var s := OneRoom();
    assert s.TablesAgree();
    assert s.Slots(R) == map[];
    AddedKeepsTablesAgree(s, a, 0);
    s.Added(a, 0)
  }

  /** In a room holding only Short1 at P0, nothing occupies P1: Short1 runs for P0 only. */
  lemma P1Free(s: Schedule)
    requires s.Valid() && s.HasRoom(R) && s.Slots(R) == map[PeriodKey(P0) := Slot(P0, Short1)]
    ensures s.OccurringAt(P1, R).None?
  {
    assert NoOverlap(s.Slots(R));
    OccurringAtIff(s, P1, R);
    assert !Covers(Slot(P0, Short1), P1);
  }

  /** A locked start of Short1 at P1 in such a room passes the duplicate and room checks. */
  lemma LockedDuplicateAccepted(s: Schedule)
    requires s.Valid() && s.HasRoom(R) && s.Slots(R) == map[PeriodKey(P0) := Slot(P0, Short1)]
    ensures var a := StartAssignment(P1, R, Short1, true);
            && Checkable(s, a)
            && AssignEffect(Chained([DuplicateSection, RoomConflict]), s, a).IsValid()
  {
    var logic := Chained([DuplicateSection, RoomConflict]);
    var a := StartAssignment(P1, R, Short1, true);
    assert a.Valid();
    LockedStartAddsNothing([DuplicateSection, RoomConflict], s, a);
    var p := PresentAssignment(a, 0);
    assert Period(p) == P1;
    P1Free(s);
    PassesRoomConflict(s, a, 0);
    ChainPresentValidIff(logic, 2, s, p);
    PresentsValidIff(logic, s, a, 1);
  }

  /**
   * Tables that hold Short1 at P0 in R while the assignment table names another period for
   * Short1 do not agree.
   */
  lemma MisfiledSlot(t: Schedule, a: StartAssignment)
    requires t.Valid() && t.HasRoom(R) && PeriodKey(P0) in t.Slots(R)
    requires t.Slots(R)[PeriodKey(P0)] == Slot(P0, Short1)
    requires SectionKey(Short1) in t.assignments.Pairs()
    requires t.assignments.Pairs()[SectionKey(Short1)] == a && a.period != P0
    ensures !t.TablesAgree()
  {
    SlotsFiled(t, R, PeriodKey(P0));
  }

  /**
   * Entering another start of Short1 in R while Short1 is also booked at P0 there leaves the
   * slot at P0 filed under an assignment that names the other period.
   */
  lemma SecondStartSplitsTables(s: Schedule, a: StartAssignment)
    requires s.Valid() && s.HasRoom(R) && PeriodKey(P0) in s.Slots(R)
    requires s.Slots(R)[PeriodKey(P0)] == Slot(P0, Short1)
    requires a.Valid() && a.room == R && a.section == Short1 && PeriodKey(a.period) != PeriodKey(P0)
    ensures !s.Added(a, 0).TablesAgree()
  {
    MisfiledSlot(s.Added(a, 0), a);
  }

  /**
   * A locked start skips the start checks of the chain, so a locked second start of Short1 at
   * P1 is accepted even though DuplicateSectionLogic is chained: the assignment table then
   * names P1 for Short1 while the starting time table still holds Short1 at P0.
   */
  lemma LockedDuplicateSplitsTables()
    ensures var ls := [DuplicateSection, RoomConflict];
            var a := StartAssignment(P1, R, Short1, true);
            && OneStart().TablesAgree()
            && Checkable(OneStart(), a)
            && AssignEffect(Chained(ls), OneStart(), a).IsValid()
            && !AssignedState(Chained(ls), OneStart(), a, 0).TablesAgree()
  {
    LockedDuplicateAccepted(OneStart());
    SecondStartSplitsTables(OneStart(), StartAssignment(P1, R, Short1, true));
  }
}
