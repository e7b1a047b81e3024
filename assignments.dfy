/**
 * Start and present assignments (schedule/StartAssignment.java, PresentAssignment.java).
 *
 * A start assignment says that a section begins in a room at a period; it occupies the
 * section's period length of consecutive periods of that time block. A present assignment
 * is one of those occupied periods, named by its position in the start assignment.
 */
module Assignments {
  import opened Wrappers
  import opened Errors
  import opened Graph

  datatype StartAssignment = StartAssignment(period: ClassPeriod, room: Room, section: Section, isLocked: bool) {
    /** The checks of the constructor held (and the period belongs to its block). */
    predicate Valid() {
      && period.Valid()
      && period.Program() == room.program
      && period.Program() == section.program
      && period.index + section.periodLength <= |period.block.serials|
    }

    function Block(): TimeBlock {
      period.block
    }
  }

  /**
   * StartAssignment.create(period, room, section, isLocked): IllegalArgumentException unless
   * the three share one program and the section's periods fit in the period's time block.
   */
  function CreateStart(period: ClassPeriod, room: Room, section: Section, isLocked: bool): (r: Result<StartAssignment, JavaError>)
    requires period.Valid()
    ensures r.Success? <==>
              && period.Program() == room.program
              && period.Program() == section.program
              && period.index + section.periodLength <= |period.block.serials|
    ensures r.Failure? ==> r.error == IllegalArgument
    ensures r.Success? ==>
              && r.value.Valid()
              && r.value.period == period && r.value.room == room
              && r.value.section == section && r.value.isLocked == isLocked
  {
    if period.Program() == room.program && period.Program() == section.program
       && period.index + section.periodLength <= |period.block.serials|
    then Success(StartAssignment(period, room, section, isLocked))
    else Failure(IllegalArgument)
  }

  /** getPresentPeriods(): the tail of the start period as long as the section. */
  function PresentPeriods(a: StartAssignment): (ps: seq<ClassPeriod>)
    requires a.Valid()
    ensures TailPeriods(a.period, a.section.periodLength) == Success(ps)
    ensures |ps| == a.section.periodLength
    ensures forall i :: 0 <= i < |ps| ==>
              ps[i].Valid() && ps[i].block == a.period.block && ps[i].index == a.period.index + i
  {
    TailPeriods(a.period, a.section.periodLength).value
  }

  datatype PresentAssignment = PresentAssignment(start: StartAssignment, index: int) {
    /** The constructor's index check held, for a valid start assignment. */
    predicate Valid() {
      start.Valid() && 0 <= index < start.section.periodLength
    }

    function Room(): Room {
      start.room
    }

    function Section(): Section {
      start.section
    }

    function Block(): TimeBlock {
      start.period.block
    }

    function Program(): int {
      start.period.Program()
    }
  }

  /**
   * new PresentAssignment(start, index): IllegalArgumentException unless
   * 0 <= index < period length.
   */
  function CreatePresent(start: StartAssignment, index: int): (r: Result<PresentAssignment, JavaError>)
    ensures r.Success? <==> 0 <= index < start.section.periodLength
    ensures r.Failure? ==> r.error == IllegalArgument
    ensures r.Success? ==> r.value.start == start && r.value.index == index
  {
    if 0 <= index < start.section.periodLength then Success(PresentAssignment(start, index))
    else Failure(IllegalArgument)
  }

  /** getPresentAssignments(): one present assignment per occupied period, element i with index i. */
  function PresentAssignments(a: StartAssignment): (ps: seq<PresentAssignment>)
    ensures |ps| == a.section.periodLength
    ensures forall i :: 0 <= i < |ps| ==> CreatePresent(a, i) == Success(ps[i])
  {
    seq(a.section.periodLength, i => PresentAssignment(a, i))
  }

  /** getPresentAssignment(index): the list's element check throws IndexOutOfBoundsException. */
  function GetPresentAssignment(a: StartAssignment, index: int): (r: Result<PresentAssignment, JavaError>)
    ensures r.Success? <==> 0 <= index < a.section.periodLength
    ensures r.Failure? ==> r.error == IndexOutOfBounds
    ensures r.Success? ==> r.value == PresentAssignments(a)[index] && r.value.index == index
  {
    if 0 <= index < a.section.periodLength then Success(PresentAssignments(a)[index])
    else Failure(IndexOutOfBounds)
  }

  /** PresentAssignment.getPeriod(): element `index` of the start's present periods. */
  function Period(p: PresentAssignment): (q: ClassPeriod)
    requires p.Valid()
    ensures q == PresentPeriods(p.start)[p.index]
    ensures q.Valid() && q.block == p.start.period.block && q.index == p.start.period.index + p.index
  {
    PresentPeriods(p.start)[p.index]
  }

  /**
   * getLastPeriod(): the last of the tail periods; with no periods the list lookup at -1
   * throws IndexOutOfBoundsException.
   */
  function LastPeriod(a: StartAssignment): (r: Result<ClassPeriod, JavaError>)
    requires a.Valid()
    ensures r.Failure? <==> a.section.periodLength == 0
    ensures r.Failure? ==> r.error == IndexOutOfBounds
    ensures r.Success? ==>
              && r.value == PresentPeriods(a)[a.section.periodLength - 1]
              && r.value == Period(PresentAssignments(a)[a.section.periodLength - 1])
              && r.value.index == a.period.index + a.section.periodLength - 1
  {
    var periods := PresentPeriods(a);
    if |periods| == 0 then Failure(IndexOutOfBounds)
    else Success(periods[|periods| - 1])
  }

  /** StartAssignment.equals: same period, room and section; the lock flag is not compared. */
  predicate StartEquals(a: StartAssignment, b: StartAssignment) {
    a.period == b.period && a.room == b.room && a.section == b.section
  }

  /** PresentAssignment.equals: equal start assignments and equal indices. */
  predicate PresentEquals(p: PresentAssignment, q: PresentAssignment) {
    StartEquals(p.start, q.start) && p.index == q.index
  }

  /** Start assignments are equal exactly when they differ at most in the lock flag. */
  lemma StartEqualsIgnoresLock(a: StartAssignment, b: StartAssignment)
    ensures StartEquals(a, b) <==> a.(isLocked := b.isLocked) == b
    ensures StartEquals(a, a.(isLocked := !a.isLocked))
  {
  }

  /** Equal present assignments occupy the same room at the same period. */
  lemma PresentEqualsSameSlot(p: PresentAssignment, q: PresentAssignment)
    requires p.Valid() && q.Valid() && PresentEquals(p, q)
    ensures p.Room() == q.Room() && Period(p) == Period(q) && p.Section() == q.Section()
  {
  }

  /**
   * The present assignments of a valid start assignment are valid, take room, section, program
   * and time block from it, and their periods are exactly its present periods, in order.
   */
  lemma PresentAssignmentsAgree(a: StartAssignment, i: int)
    requires a.Valid() && 0 <= i < a.section.periodLength
    ensures PresentAssignments(a)[i].Valid()
    ensures PresentAssignments(a)[i].Room() == a.room
    ensures PresentAssignments(a)[i].Section() == a.section
    ensures PresentAssignments(a)[i].Program() == a.period.Program()
    ensures PresentAssignments(a)[i].Block() == a.Block()
    ensures Period(PresentAssignments(a)[i]) == PresentPeriods(a)[i]
  {
    assert CreatePresent(a, i) == Success(PresentAssignments(a)[i]);
  }
}
