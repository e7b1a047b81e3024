/**
 * The schedule logics (logic/ScheduleLogic.java and its subclasses).
 *
 * A logic inspects a candidate start assignment, and then each of its present assignments,
 * against a schedule and appends conflicts to a validator. Each logic class is a constructor
 * of `Logic`; the virtual dispatch of the two validate overloads is the pair of functions
 * StartEffect / PresentEffect, which give the conflicts a call appends, and the methods
 * ValidateStart / ValidatePresent perform the calls on a ScheduleValidator and are proved to
 * append exactly those conflicts.
 *
 * ScheduleLogic.validate(start) runs the logic's own validate(present) on every present
 * assignment; DuplicateSection, Prerequisite and RoomProperty call that first (super) and then
 * add their own check; RoomConflict and TeacherConflict override only validate(present);
 * Lunch overrides validate(start) without calling super; Chained runs its sub-logics in order.
 */
module ScheduleLogic {
  import opened Wrappers
  import opened Errors
  import opened Treap
  import opened BstMap
  import opened Graph
  import opened Assignments
  import opened Validation
  import opened ScheduleTables

  datatype Logic =
    | Base
    | DuplicateSection
    | RoomConflict
    | TeacherConflict
    | Prerequisite
    | Lunch
    | RoomPropertyRule
    | Chained(logics: seq<Logic>)

  const DuplicateMessage: string := "sections must not already be scheduled in the schedule"
  const RoomMessage: string := "Classes may not use the same room at the same time"
  const TeacherMessage: string := "Teachers must not be assigned to teach more than one class at a time"
  const PrerequisiteMessage: string := "Section may not start before its prerequisites"
  const LunchMessage: string := "Teacher must have at least one lunch period in block"
  const RequiredMessage: string := "courses must be assigned to rooms with all the required properties"
  const BindingMessage: string := "courses must require binding properties of rooms"

  /** What a start assignment must satisfy for the logics to inspect it. */
  ghost predicate Checkable(s: Schedule, a: StartAssignment) {
    s.Valid() && a.Valid() && s.HasRoom(a.room)
  }

  /** The same for a present assignment. */
  ghost predicate CheckablePresent(s: Schedule, p: PresentAssignment) {
    s.Valid() && p.Valid() && s.HasRoom(p.Room())
  }

  /** Optional.asSet(), as the list handed to validateGlobal. */
  function AsList<T>(o: Option<T>): (r: seq<T>)
    ensures o.None? <==> r == []
    ensures o.Some? ==> r == [o.value]
  {
    if o.Some? then [o.value] else []
  }

  // ---------------------------------------------------------------------------------------
  // DuplicateSectionLogic

  /** The own check of DuplicateSectionLogic: the section must not be scheduled already. */
  function DuplicateEffect(s: Schedule, a: StartAssignment): (d: Conflicts)
    requires StoredOk(s.assignments)
    ensures d.localStart == [] && d.localPresent == [] && d.globalPresent == []
    ensures |d.globalStart| <= 1
    ensures d.GlobalsNonEmpty()
  {
    GlobalStartDelta(false, a, AsList(s.assignments.Get(Some(SectionKey(a.section)))), DuplicateMessage)
  }

  /**
   * DuplicateSectionLogic adds a global conflict exactly when the section is already
   * scheduled, and that conflict lists exactly the existing assignment.
   */
  lemma {:induction false} DuplicateEffectIff(s: Schedule, a: StartAssignment)
    requires StoredOk(s.assignments)
    ensures DuplicateEffect(s, a).globalStart != [] <==> SectionKey(a.section) in s.assignments.Pairs()
    ensures DuplicateEffect(s, a).globalStart != [] ==>
              DuplicateEffect(s, a).globalStart
                == [GlobalConflict(a, [s.assignments.Pairs()[SectionKey(a.section)]], DuplicateMessage)]
  {
  }

  // ---------------------------------------------------------------------------------------
  // RoomConflictLogic

  /** The own check of RoomConflictLogic: nothing else may occupy the room at the period. */
  function RoomConflictEffect(s: Schedule, p: PresentAssignment): (d: Conflicts)
    requires CheckablePresent(s, p)
    ensures d.localStart == [] && d.localPresent == [] && d.globalStart == []
    ensures |d.globalPresent| <= 1
    ensures d.GlobalsNonEmpty()
  {
    GlobalPresentDelta(false, p, AsList(s.OccurringAt(Period(p), p.Room())), RoomMessage)
  }

  /**
   * RoomConflictLogic adds a global conflict exactly when something already occupies the
   * room at the period, and the conflict lists exactly that present assignment.
   */
  lemma {:induction false} RoomConflictEffectIff(s: Schedule, p: PresentAssignment)
    requires CheckablePresent(s, p)
    ensures RoomConflictEffect(s, p).globalPresent != [] <==> s.OccurringAt(Period(p), p.Room()).Some?
    ensures RoomConflictEffect(s, p).globalPresent != [] ==>
              RoomConflictEffect(s, p).globalPresent
                == [GlobalConflict(p, [s.OccurringAt(Period(p), p.Room()).value], RoomMessage)]
  {
  }

  // ---------------------------------------------------------------------------------------
  // TeacherConflictLogic

  /** The sections taught by any of the teachers: the union of their section lists. */
  function TaughtBy(program: Program, teachers: seq<int>): (r: set<Section>)
    ensures forall sec :: sec in r <==> exists t :: t in teachers && sec in program.SectionsForTeacher(t)
  {
    if teachers == [] then {}
    else
      var front := teachers[..|teachers| - 1];
      var last := teachers[|teachers| - 1];
      assert forall t :: t in teachers <==> t in front || t == last;
      TaughtBy(program, front) + set sec | sec in program.SectionsForTeacher(last)
  }

  /** coursesTaughtByTeachers(program, teachers): a loop that adds each teacher's sections. */
  method CoursesTaughtByTeachers(program: Program, teachers: seq<int>) returns (r: set<Section>)
    ensures r == TaughtBy(program, teachers)
  {
    r := {};
    for i := 0 to |teachers|
      invariant r == TaughtBy(program, teachers[..i])
    {
      assert teachers[..i + 1][..i] == teachers[..i];
      r := r + set sec | sec in program.SectionsForTeacher(teachers[i]);
    }
    assert teachers[..|teachers|] == teachers;
  }

  /** Iterables.filter of present assignments by their section. */
  function FilterBySection(ps: seq<PresentAssignment>, sections: set<Section>): (r: seq<PresentAssignment>)
    ensures forall q :: q in r <==> q in ps && q.Section() in sections
    ensures |r| <= |ps|
  {
    if ps == [] then []
    else
      var front := FilterBySection(ps[..|ps| - 1], sections);
      var last := ps[|ps| - 1];
      assert forall q :: q in ps <==> q in ps[..|ps| - 1] || q == last;
      if last.Section() in sections then front + [last] else front
  }

  /**
   * q clashes with p on a teacher: q occurs at p's period in some room of the program and its
   * section is taught by one of the teachers of p's section.
   */
  ghost predicate TeacherClash(s: Schedule, p: PresentAssignment, q: PresentAssignment)
    requires CheckablePresent(s, p)
  {
    && (exists r :: r in s.program.rooms && s.OccurringAt(Period(p), r) == Some(q))
    && q.Section() in TaughtBy(s.program, s.program.TeachersFor(p.Section()))
  }

  /**
   * The own check of TeacherConflictLogic: one global conflict listing exactly the teacher
   * clashes, or nothing when there is none.
   */
  function TeacherConflictEffect(s: Schedule, p: PresentAssignment): (d: Conflicts)
    requires CheckablePresent(s, p)
    ensures d.localStart == [] && d.localPresent == [] && d.globalStart == []
    ensures |d.globalPresent| <= 1
    ensures d.GlobalsNonEmpty()
  {
    var taught := TaughtBy(s.program, s.program.TeachersFor(p.Section()));
    var conflicts := FilterBySection(s.OccurringAtValues(Period(p), s.program.rooms), taught);
    GlobalPresentDelta(false, p, conflicts, TeacherMessage)
  }

  /**
   * TeacherConflictLogic adds one global conflict listing exactly the teacher clashes, or
   * nothing when there is none.
   */
  lemma {:induction false} TeacherConflictEffectIff(s: Schedule, p: PresentAssignment)
    requires CheckablePresent(s, p)
    ensures TeacherConflictEffect(s, p).globalPresent != [] <==> exists q :: TeacherClash(s, p, q)
    ensures TeacherConflictEffect(s, p).globalPresent != [] ==>
              var g := TeacherConflictEffect(s, p).globalPresent[0];
              && g.candidate == p && g.failedCondition == TeacherMessage
              && forall q :: q in g.conflicting <==> TeacherClash(s, p, q)
  {
    var taught := TaughtBy(s.program, s.program.TeachersFor(p.Section()));
    var conflicts := FilterBySection(s.OccurringAtValues(Period(p), s.program.rooms), taught);
    TeacherConflictsAreClashes(s, p);
    assert conflicts != [] ==> TeacherClash(s, p, conflicts[0]);
  }

  /** The filtered occurringAt values are exactly the teacher clashes. */
  lemma {:induction false} TeacherConflictsAreClashes(s: Schedule, p: PresentAssignment)
    requires CheckablePresent(s, p)
    ensures forall q :: q in FilterBySection(s.OccurringAtValues(Period(p), s.program.rooms),
                                             TaughtBy(s.program, s.program.TeachersFor(p.Section())))
                        <==> TeacherClash(s, p, q)
  {
    var values := s.OccurringAtValues(Period(p), s.program.rooms);
    forall q | TeacherClash(s, p, q)
      ensures q in values
    {
      var r :| r in s.program.rooms && s.OccurringAt(Period(p), r) == Some(q);
      assert s.OccurringAt(Period(p), r).value in values;
    }
  }

  // ---------------------------------------------------------------------------------------
  // PrerequisiteLogic

  /**
   * A section of a prerequisite course is scheduled and its last period comes strictly before
   * the given period. A scheduled section with no periods has no last period (the list lookup
   * at -1 throws); it is taken as not ending before.
   */
  function EndsBefore(s: Schedule, sec: Section, p: ClassPeriod): (b: bool)
    requires StoredOk(s.assignments)
    ensures b <==>
              && SectionKey(sec) in s.assignments.Pairs()
              && LastPeriod(s.assignments.Pairs()[SectionKey(sec)]).Success?
              && CompareTo(LastPeriod(s.assignments.Pairs()[SectionKey(sec)]).value, p) < 0
  {
    match s.assignments.Get(Some(SectionKey(sec)))
    case None => false
    case Some(assign) =>
      var last := LastPeriod(assign);
      last.Success? && CompareTo(last.value, p) < 0
  }

  /** A prerequisite course is met: one of its sections ends before the start period. */
  function PrerequisiteMet(s: Schedule, a: StartAssignment, course: int): bool
    requires StoredOk(s.assignments)
  {
    exists sec :: sec in s.program.SectionsOfCourse(course) && EndsBefore(s, sec, a.period)
  }

  /** One validateLocal per prerequisite course, in order. */
  function PrerequisitesEffect(s: Schedule, a: StartAssignment, courses: seq<int>): (d: Conflicts)
    requires StoredOk(s.assignments)
    ensures d.localPresent == [] && d.globalPresent == [] && d.globalStart == []
    ensures |d.localStart| <= |courses|
    ensures d.GlobalsNonEmpty()
  {
    if courses == [] then NoConflicts()
    else
      PrerequisitesEffect(s, a, courses[..|courses| - 1])
        .Append(LocalStartDelta(PrerequisiteMet(s, a, courses[|courses| - 1]), a, PrerequisiteMessage))
  }

  /**
   * One local conflict per unmet prerequisite course: every conflict added is the
   * prerequisite conflict of the candidate, and none is added exactly when every
   * prerequisite course is met.
   */
  lemma {:induction false} PrerequisitesEffectIff(s: Schedule, a: StartAssignment, courses: seq<int>)
    requires StoredOk(s.assignments)
    ensures forall c :: c in PrerequisitesEffect(s, a, courses).localStart ==> c == LocalConflict(a, PrerequisiteMessage)
    ensures PrerequisitesEffect(s, a, courses).localStart == [] <==> forall c :: c in courses ==> PrerequisiteMet(s, a, c)
    decreases |courses|
  {
    if courses != [] {
      var front := courses[..|courses| - 1];
      var last := courses[|courses| - 1];
      assert forall c :: c in courses <==> c in front || c == last;
      PrerequisitesEffectIff(s, a, front);
    }
  }

  /** The own check of PrerequisiteLogic. */
  function PrerequisiteEffect(s: Schedule, a: StartAssignment): (d: Conflicts)
    requires StoredOk(s.assignments)
    ensures |d.localStart| <= |s.program.Prerequisites(a.section)|
    ensures d.localPresent == [] && d.globalPresent == [] && d.globalStart == []
    ensures s.program.Prerequisites(a.section) == [] ==> d == NoConflicts()
  {
    PrerequisitesEffect(s, a, s.program.Prerequisites(a.section))
  }

  // ---------------------------------------------------------------------------------------
  // LunchLogic

  /** The lunch periods among the given periods, in order. */
  function LunchesOf(ps: seq<ClassPeriod>): (r: seq<ClassPeriod>)
    requires forall p :: p in ps ==> p.Valid()
    ensures forall p :: p in r <==> p in ps && p.IsLunch()
    ensures |r| <= |ps|
  {
    if ps == [] then []
    else
      var front := ps[..|ps| - 1];
      var last := ps[|ps| - 1];
      assert forall p :: p in ps <==> p in front || p == last;
      LunchesOf(front) + (if last.IsLunch() then [last] else [])
  }

  /** The lunch periods a teacher still has and the assignments that took one away. */
  datatype LunchScanState = LunchScanState(left: set<ClassPeriod>, conflicts: seq<StartAssignment>)

  /** The section is scheduled in the block and covers one of the given lunch periods. */
  ghost predicate TakesLunch(s: Schedule, block: TimeBlock, sec: Section, lunches: set<ClassPeriod>)
    requires StoredOk(s.assignments)
  {
    && SectionKey(sec) in s.assignments.Pairs()
    && SameBlock(s.assignments.Pairs()[SectionKey(sec)].Block(), block)
    && exists p :: p in lunches && p in PresentPeriods(s.assignments.Pairs()[SectionKey(sec)])
  }

  /**
   * The scan over one teacher's sections: each scheduled same-block section that removes a
   * lunch period still left is a conflict. No conflict arises exactly when none of the
   * sections takes one of the lunch periods, and then every lunch period is left.
   */
  function LunchScan(s: Schedule, block: TimeBlock, sections: seq<Section>, lunches: set<ClassPeriod>)
    : (r: LunchScanState)
    requires StoredOk(s.assignments)
    ensures r.left <= lunches
    ensures |r.conflicts| <= |sections|
    ensures forall c :: c in r.conflicts ==> c.Valid() && SameBlock(c.Block(), block)
  {
    if sections == [] then LunchScanState(lunches, [])
    else
      var front := sections[..|sections| - 1];
      var last := sections[|sections| - 1];
      assert forall sec :: sec in sections <==> sec in front || sec == last;
      var prev := LunchScan(s, block, front, lunches);
      match s.assignments.Get(Some(SectionKey(last)))
      case None => prev
      case Some(assign) =>
        if SameBlock(assign.Block(), block) then
          var left := prev.left - set p | p in PresentPeriods(assign);
          if left != prev.left then LunchScanState(left, prev.conflicts + [assign]) else prev
        else prev
  }

  /**
   * A teacher's scan finds no conflict exactly when none of the sections takes one of the
   * lunch periods, and then every lunch period is left.
   */
  lemma {:induction false} LunchScanIff(s: Schedule, block: TimeBlock, sections: seq<Section>, lunches: set<ClassPeriod>)
    requires StoredOk(s.assignments)
    ensures LunchScan(s, block, sections, lunches).conflicts == [] <==>
              forall sec :: sec in sections ==> !TakesLunch(s, block, sec, lunches)
    ensures LunchScan(s, block, sections, lunches).conflicts == [] ==>
              LunchScan(s, block, sections, lunches).left == lunches
    decreases |sections|
  {
    if sections != [] {
      var front := sections[..|sections| - 1];
      var last := sections[|sections| - 1];
      assert forall sec :: sec in sections <==> sec in front || sec == last;
      LunchScanIff(s, block, front, lunches);
      var prev := LunchScan(s, block, front, lunches);
      var r := LunchScan(s, block, sections, lunches);
      var got := s.assignments.Get(Some(SectionKey(last)));
      if got.Some? && SameBlock(got.value.Block(), block) {
        var assign := got.value;
        var left := prev.left - set p | p in PresentPeriods(assign);
        if left != prev.left {
          assert r.conflicts == prev.conflicts + [assign];
          if prev.conflicts == [] {
            var p :| p in prev.left && p !in left;
            assert TakesLunch(s, block, last, lunches);
          }
        } else {
          assert r == prev;
          if prev.conflicts == [] {
            assert forall p :: p in prev.left && p in PresentPeriods(assign) ==> p !in left;
            assert !TakesLunch(s, block, last, lunches);
          }
        }
      } else {
        assert r == prev;
        assert !TakesLunch(s, block, last, lunches);
      }
    }
  }

  /** One validateGlobal per teacher, in order, each with that teacher's scan. */
  function TeacherLunches(s: Schedule, a: StartAssignment, remaining: set<ClassPeriod>, teachers: seq<int>)
    : (d: Conflicts)
    requires StoredOk(s.assignments)
    ensures d.localStart == [] && d.localPresent == [] && d.globalPresent == []
    ensures |d.globalStart| <= |teachers|
    ensures d.GlobalsNonEmpty()
  {
    if teachers == [] then NoConflicts()
    else
      var scan := LunchScan(s, a.Block(), s.program.SectionsForTeacher(teachers[|teachers| - 1]), remaining);
      var prev := TeacherLunches(s, a, remaining, teachers[..|teachers| - 1]);
      var d := GlobalStartDelta(false, a, scan.conflicts, LunchMessage);
      AppendFacts(prev, d);
      prev.Append(d)
  }

  /**
   * Every lunch conflict is about the candidate, with the lunch condition, and lists only
   * assignments in the candidate's time block; there is none exactly when no section of any
   * teacher takes one of the remaining lunch periods.
   */
  lemma {:induction false} TeacherLunchesFacts(s: Schedule, a: StartAssignment, remaining: set<ClassPeriod>, teachers: seq<int>)
    requires StoredOk(s.assignments)
    ensures forall g :: g in TeacherLunches(s, a, remaining, teachers).globalStart ==>
              g.candidate == a && g.failedCondition == LunchMessage
              && forall c :: c in g.conflicting ==> SameBlock(c.Block(), a.Block())
    ensures TeacherLunches(s, a, remaining, teachers).globalStart == [] <==>
              forall t, sec :: t in teachers && sec in s.program.SectionsForTeacher(t) ==>
                !TakesLunch(s, a.Block(), sec, remaining)
  {
    TeacherLunchesShape(s, a, remaining, teachers);
    TeacherLunchesNone(s, a, remaining, teachers);
  }

  /** Every lunch conflict is about the candidate and lists only assignments in its block. */
  lemma {:induction false} TeacherLunchesShape(s: Schedule, a: StartAssignment, remaining: set<ClassPeriod>, teachers: seq<int>)
    requires StoredOk(s.assignments)
    ensures forall g :: g in TeacherLunches(s, a, remaining, teachers).globalStart ==>
              g.candidate == a && g.failedCondition == LunchMessage
              && forall c :: c in g.conflicting ==> SameBlock(c.Block(), a.Block())
    decreases |teachers|
  {
    if teachers != [] {
      var front := teachers[..|teachers| - 1];
      TeacherLunchesShape(s, a, remaining, front);
      var scan := LunchScan(s, a.Block(), s.program.SectionsForTeacher(teachers[|teachers| - 1]), remaining);
      var d := GlobalStartDelta(false, a, scan.conflicts, LunchMessage);
      assert TeacherLunches(s, a, remaining, teachers).globalStart
          == TeacherLunches(s, a, remaining, front).globalStart + d.globalStart;
    }
  }

  /** There is no lunch conflict exactly when no teacher's section takes a remaining lunch period. */
  lemma {:induction false} TeacherLunchesNone(s: Schedule, a: StartAssignment, remaining: set<ClassPeriod>, teachers: seq<int>)
    requires StoredOk(s.assignments)
    ensures TeacherLunches(s, a, remaining, teachers).globalStart == [] <==>
              forall t, sec :: t in teachers && sec in s.program.SectionsForTeacher(t) ==>
                !TakesLunch(s, a.Block(), sec, remaining)
    decreases |teachers|
  {
    if teachers != [] {
      var front := teachers[..|teachers| - 1];
      var last := teachers[|teachers| - 1];
      assert forall t :: t in teachers <==> t in front || t == last;
      TeacherLunchesNone(s, a, remaining, front);
      LunchScanIff(s, a.Block(), s.program.SectionsForTeacher(last), remaining);
      var scan := LunchScan(s, a.Block(), s.program.SectionsForTeacher(last), remaining);
      var d := GlobalStartDelta(false, a, scan.conflicts, LunchMessage);
      assert TeacherLunches(s, a, remaining, teachers).globalStart
          == TeacherLunches(s, a, remaining, front).globalStart + d.globalStart;
    }
  }

  /**
   * The whole LunchLogic check. When the assignment covers none of its block's lunch periods
   * nothing is checked; otherwise the lunch periods it covers are removed and each teacher of
   * its course is scanned with the remaining ones.
   */
  function LunchEffect(s: Schedule, a: StartAssignment): (d: Conflicts)
    requires StoredOk(s.assignments) && a.Valid()
    ensures d.localStart == [] && d.localPresent == [] && d.globalPresent == []
    ensures |d.globalStart| <= |s.program.TeachersFor(a.section)|
    ensures d.GlobalsNonEmpty()
  {
    var lunches := LunchesOf(Periods(a.Block()));
    var present := PresentPeriods(a);
    if exists p :: p in lunches && p in present then
      TeacherLunches(s, a, (set p | p in lunches && p !in present), s.program.TeachersFor(a.section))
    else NoConflicts()
  }

  /**
   * LunchLogic checks nothing unless the assignment covers a lunch period; otherwise it scans
   * the teachers with the lunch periods of the block the assignment leaves.
   */
  lemma {:induction false} LunchEffectCases(s: Schedule, a: StartAssignment)
    requires StoredOk(s.assignments) && a.Valid()
    ensures (forall p :: p in PresentPeriods(a) ==> !p.IsLunch()) ==> LunchEffect(s, a) == NoConflicts()
    ensures (exists p :: p in PresentPeriods(a) && p.IsLunch()) ==>
              LunchEffect(s, a) == TeacherLunches(s, a, LunchesLeft(a), s.program.TeachersFor(a.section))
  {
    var lunches := LunchesOf(Periods(a.Block()));
    var present := PresentPeriods(a);
    if exists p :: p in present && p.IsLunch() {
      var p :| p in present && p.IsLunch();
      assert p in lunches;
    }
  }

  /** The lunch periods of the assignment's block that it does not cover. */
  ghost function LunchesLeft(a: StartAssignment): (r: set<ClassPeriod>)
    requires a.Valid()
    ensures forall p :: p in r <==> p.block == a.Block() && p.Valid() && p.IsLunch() && p !in PresentPeriods(a)
  {
    set p | p in LunchesOf(Periods(a.Block())) && p !in PresentPeriods(a)
  }

  // ---------------------------------------------------------------------------------------
  // RoomPropertyLogic

  /** The binding properties among a set of room properties. */
  function Binding(props: set<RoomProperty>): (r: set<RoomProperty>)
    ensures forall p :: p in r <==> p in props && p.isBinding
  {
    set p | p in props && p.isBinding
  }

  /**
   * The own check of RoomPropertyLogic: a local conflict when the room lacks a required
   * property, another when the room has a binding property the course does not require.
   */
  function RoomPropertyEffect(s: Schedule, a: StartAssignment): (d: Conflicts)
    ensures d.localPresent == [] && d.globalPresent == [] && d.globalStart == []
    ensures |d.localStart| <= 2
  {
    var props := s.program.RoomProperties(a.room);
    var reqs := s.program.RoomRequirements(a.section);
    LocalStartDelta(reqs <= props, a, RequiredMessage).Append(LocalStartDelta(Binding(props) <= reqs, a, BindingMessage))
  }

  /**
   * The two room-property checks are independent: a conflict for a missing required property,
   * another for an unrequested binding property, none exactly when both hold.
   */
  lemma {:induction false} RoomPropertyEffectIff(s: Schedule, a: StartAssignment)
    ensures LocalConflict(a, RequiredMessage) in RoomPropertyEffect(s, a).localStart <==>
              !(s.program.RoomRequirements(a.section) <= s.program.RoomProperties(a.room))
    ensures LocalConflict(a, BindingMessage) in RoomPropertyEffect(s, a).localStart <==>
              exists p :: p in s.program.RoomProperties(a.room) && p.isBinding && p !in s.program.RoomRequirements(a.section)
    ensures RoomPropertyEffect(s, a).localStart == [] <==>
              && s.program.RoomRequirements(a.section) <= s.program.RoomProperties(a.room)
              && Binding(s.program.RoomProperties(a.room)) <= s.program.RoomRequirements(a.section)
  {
  }

  // ---------------------------------------------------------------------------------------
  // Dispatch

  /** What logic.validate(validator, schedule, present) appends. */
  function PresentEffect(logic: Logic, s: Schedule, p: PresentAssignment): (d: Conflicts)
    requires CheckablePresent(s, p)
    ensures d.GlobalsNonEmpty()
    ensures d.localStart == [] && d.globalStart == []
    decreases logic, 1, 0
  {
    match logic
    case RoomConflict => RoomConflictEffect(s, p)
    case TeacherConflict => TeacherConflictEffect(s, p)
    case Chained(logics) => ChainPresent(logic, |logics|, s, p)
    case _ => NoConflicts()
  }

  /** The first n sub-logics of a chain, in order, on a present assignment. */
  function ChainPresent(logic: Logic, n: nat, s: Schedule, p: PresentAssignment): (d: Conflicts)
    requires logic.Chained? && n <= |logic.logics|
    requires CheckablePresent(s, p)
    ensures d.GlobalsNonEmpty()
    ensures d.localStart == [] && d.globalStart == []
    decreases logic, 0, n
  {
    if n == 0 then NoConflicts()
    else
      var prev := ChainPresent(logic, n - 1, s, p);
      var d := PresentEffect(logic.logics[n - 1], s, p);
      AppendFacts(prev, d);
      prev.Append(d)
  }

  /** The logic's validate(present) on the first n present assignments of a, in order. */
  function PresentsEffect(logic: Logic, s: Schedule, a: StartAssignment, n: nat): (d: Conflicts)
    requires Checkable(s, a) && n <= a.section.periodLength
    ensures d.GlobalsNonEmpty()
    ensures d.localStart == [] && d.globalStart == []
    decreases logic, 2, n
  {
    if n == 0 then NoConflicts()
    else
      var prev := PresentsEffect(logic, s, a, n - 1);
      var d := PresentEffect(logic, s, PresentAssignment(a, n - 1));
      AppendFacts(prev, d);
      prev.Append(d)
  }

  /** What logic.validate(validator, schedule, start) appends. */
  function StartEffect(logic: Logic, s: Schedule, a: StartAssignment): (d: Conflicts)
    requires Checkable(s, a)
    ensures d.GlobalsNonEmpty()
    decreases logic, 3, 0
  {
    var inherited := PresentsEffect(logic, s, a, a.section.periodLength);
    match logic
    case Base => inherited
    case DuplicateSection => AppendFacts(inherited, DuplicateEffect(s, a)); inherited.Append(DuplicateEffect(s, a))
    case RoomConflict => inherited
    case TeacherConflict => inherited
    case Prerequisite => AppendFacts(inherited, PrerequisiteEffect(s, a)); inherited.Append(PrerequisiteEffect(s, a))
    case Lunch => LunchEffect(s, a)
    case RoomPropertyRule => AppendFacts(inherited, RoomPropertyEffect(s, a)); inherited.Append(RoomPropertyEffect(s, a))
    case Chained(logics) => if a.isLocked then NoConflicts() else ChainStart(logic, |logics|, s, a)
  }

  /** The first n sub-logics of a chain, in order, on a start assignment. */
  function ChainStart(logic: Logic, n: nat, s: Schedule, a: StartAssignment): (d: Conflicts)
    requires logic.Chained? && n <= |logic.logics|
    requires Checkable(s, a)
    ensures d.GlobalsNonEmpty()
    decreases logic, 2, n
  {
    if n == 0 then NoConflicts()
    else
      var prev := ChainStart(logic, n - 1, s, a);
      var d := StartEffect(logic.logics[n - 1], s, a);
      AppendFacts(prev, d);
      prev.Append(d)
  }

  // ---------------------------------------------------------------------------------------
  // The validate methods

  /** logic.validate(validator, schedule, present). */
  method ValidatePresent(logic: Logic, v: ScheduleValidator, s: Schedule, p: PresentAssignment)
    requires CheckablePresent(s, p) && v.Valid()
    modifies v
    ensures v.Valid()
    ensures v.Snapshot() == old(v.Snapshot()).Append(PresentEffect(logic, s, p))
    decreases logic, 1
  {
    match logic
    case RoomConflict =>
      v.ValidateGlobalPresent(false, p, AsList(s.OccurringAt(Period(p), p.Room())), RoomMessage);
    case TeacherConflict =>
      var taught := CoursesTaughtByTeachers(s.program, s.program.TeachersFor(p.Section()));
      var conflicts := FilterBySection(s.OccurringAtValues(Period(p), s.program.rooms), taught);
      v.ValidateGlobalPresent(false, p, conflicts, TeacherMessage);
    case Chained(logics) =>
      ValidateChainPresent(logic, v, s, p);
    case _ =>
      AppendFacts(v.Snapshot(), NoConflicts());
  }

  /** ChainedScheduleLogic.validate(present): each sub-logic in order. */
  method ValidateChainPresent(logic: Logic, v: ScheduleValidator, s: Schedule, p: PresentAssignment)
    requires logic.Chained? && CheckablePresent(s, p) && v.Valid()
    modifies v
    ensures v.Valid()
    ensures v.Snapshot() == old(v.Snapshot()).Append(ChainPresent(logic, |logic.logics|, s, p))
    decreases logic, 0
  {
    var logics := logic.logics;
    for i := 0 to |logics|
      invariant v.Valid()
      invariant v.Snapshot() == old(v.Snapshot()).Append(ChainPresent(logic, i, s, p))
    {
      ValidatePresent(logics[i], v, s, p);
      AppendAssoc(old(v.Snapshot()), ChainPresent(logic, i, s, p), PresentEffect(logics[i], s, p));
    }
  }

  /** ScheduleLogic.validate(start) as inherited: validate(present) on each present assignment. */
  method ValidatePresents(logic: Logic, v: ScheduleValidator, s: Schedule, a: StartAssignment)
    requires Checkable(s, a) && v.Valid()
    modifies v
    ensures v.Valid()
    ensures v.Snapshot() == old(v.Snapshot()).Append(PresentsEffect(logic, s, a, a.section.periodLength))
    decreases logic, 2
  {
    var presents := PresentAssignments(a);
    ghost var before := v.Snapshot();
    AppendFacts(before, NoConflicts());
    for i := 0 to |presents|
      invariant v.Valid()
      invariant v.Snapshot() == before.Append(PresentsEffect(logic, s, a, i))
    {
      PresentsUnfold(logic, s, a, i);
      ValidatePresent(logic, v, s, presents[i]);
      AppendAssoc(before, PresentsEffect(logic, s, a, i), PresentEffect(logic, s, presents[i]));
    }
  }

  /** The present assignments are checked in order: one more appends its own effect. */
  lemma PresentsUnfold(logic: Logic, s: Schedule, a: StartAssignment, i: nat)
    requires Checkable(s, a) && i < a.section.periodLength
    ensures CheckablePresent(s, PresentAssignments(a)[i])
    ensures PresentsEffect(logic, s, a, i + 1)
         == PresentsEffect(logic, s, a, i).Append(PresentEffect(logic, s, PresentAssignments(a)[i]))
  {
    assert PresentAssignments(a)[i] == PresentAssignment(a, i);
  }

  /**
   * The inner loop of PrerequisiteLogic: search the course's sections for one that is
   * scheduled and ends before the start, skipping unscheduled ones and stopping at the first hit.
   */
  method SearchPrerequisite(s: Schedule, a: StartAssignment, course: int) returns (valid: bool)
    requires StoredOk(s.assignments)
    ensures valid == PrerequisiteMet(s, a, course)
  {
    var sections := s.program.SectionsOfCourse(course);
    valid := false;
    var k := 0;
    while k < |sections|
      invariant 0 <= k <= |sections|
      invariant !valid
      invariant forall sec :: sec in sections[..k] ==> !EndsBefore(s, sec, a.period)
    {
      var ends := EndsBeforeCheck(s, sections[k], a.period);
      if ends {
        assert sections[k] in sections;
        valid := true;
        break;
      }
      assert sections[..k + 1] == sections[..k] + [sections[k]];
      k := k + 1;
    }
    if !valid {
      assert sections[..k] == sections;
    }
  }

  /**
   * The body of the search for one section: it counts when it is scheduled and the period of
   * its last present assignment comes before p.
   */
  method EndsBeforeCheck(s: Schedule, sec: Section, p: ClassPeriod) returns (b: bool)
    requires StoredOk(s.assignments)
    ensures b == EndsBefore(s, sec, p)
  {
    b := false;
    var sAssign := s.assignments.Get(Some(SectionKey(sec)));
    if sAssign.Some? {
      var sPAssigns := PresentAssignments(sAssign.value);
      // get(size - 1) on an empty list throws; such a section is not counted
      if |sPAssigns| > 0 {
        var lastAssign := sPAssigns[|sPAssigns| - 1];
        assert Period(lastAssign) == LastPeriod(sAssign.value).value;
        b := CompareTo(Period(lastAssign), p) < 0;
      }
    }
  }

  /** PrerequisiteLogic's loop: for each prerequisite course, search its sections. */
  method ValidatePrerequisites(v: ScheduleValidator, s: Schedule, a: StartAssignment)
    requires Checkable(s, a) && v.Valid()
    modifies v
    ensures v.Valid()
    ensures v.Snapshot() == old(v.Snapshot()).Append(PrerequisiteEffect(s, a))
  {
    var prereqs := s.program.Prerequisites(a.section);
    ghost var before := v.Snapshot();
    AppendFacts(before, NoConflicts());
    for i := 0 to |prereqs|
      invariant v.Valid()
      invariant v.Snapshot() == before.Append(PrerequisitesEffect(s, a, prereqs[..i]))
    {
      var valid := SearchPrerequisite(s, a, prereqs[i]);
      PrerequisitesStep(s, a, prereqs, i);
      v.ValidateLocalStart(valid, a, PrerequisiteMessage);
      AppendAssoc(before, PrerequisitesEffect(s, a, prereqs[..i]), LocalStartDelta(valid, a, PrerequisiteMessage));
    }
    assert prereqs[..|prereqs|] == prereqs;
  }

  /** One more prerequisite course searched appends its own conflict, if any. */
  lemma {:induction false} PrerequisitesStep(s: Schedule, a: StartAssignment, courses: seq<int>, i: int)
    requires StoredOk(s.assignments) && 0 <= i < |courses|
    ensures PrerequisitesEffect(s, a, courses[..i + 1])
         == PrerequisitesEffect(s, a, courses[..i]).Append(LocalStartDelta(PrerequisiteMet(s, a, courses[i]), a, PrerequisiteMessage))
  {
    assert courses[..i + 1][..i] == courses[..i];
  }

  /** The first loop of LunchLogic: the lunch periods of the block, in order. */
  method CollectLunches(block: TimeBlock) returns (lunches: seq<ClassPeriod>)
    ensures lunches == LunchesOf(Periods(block))
  {
    var periods := Periods(block);
    lunches := [];
    for i := 0 to |periods|
      invariant lunches == LunchesOf(periods[..i])
    {
      assert periods[..i + 1][..i] == periods[..i];
      if periods[i].IsLunch() {
        lunches := lunches + [periods[i]];
      }
    }
    assert periods[..|periods|] == periods;
  }

  /**
   * The inner loop of LunchLogic for one teacher: remove from a copy of the remaining lunch
   * periods those each same-block scheduled section covers, listing the sections that removed one.
   */
  method ScanTeacher(s: Schedule, block: TimeBlock, sections: seq<Section>, remaining: set<ClassPeriod>)
    returns (conflicts: seq<StartAssignment>)
    requires StoredOk(s.assignments)
    ensures conflicts == LunchScan(s, block, sections, remaining).conflicts
  {
    var myLunches := remaining;
    conflicts := [];
    for k := 0 to |sections|
      invariant LunchScanState(myLunches, conflicts) == LunchScan(s, block, sections[..k], remaining)
    {
      assert sections[..k + 1][..k] == sections[..k];
      var assign := s.assignments.Get(Some(SectionKey(sections[k])));
      if assign.Some? && SameBlock(assign.value.Block(), block) {
        var left := myLunches - set p | p in PresentPeriods(assign.value);
        if left != myLunches {
          myLunches := left;
          conflicts := conflicts + [assign.value];
        }
      }
    }
    assert sections[..|sections|] == sections;
  }

  /** LunchLogic.validate(start). */
  method ValidateLunch(v: ScheduleValidator, s: Schedule, a: StartAssignment)
    requires Checkable(s, a) && v.Valid()
    modifies v
    ensures v.Valid()
    ensures v.Snapshot() == old(v.Snapshot()).Append(LunchEffect(s, a))
  {
    var block := a.Block();
    var lunches := CollectLunches(block);
    var present := PresentPeriods(a);
    // lunches.removeAll(present) reports whether a lunch period was covered
    if !exists p :: p in lunches && p in present {
      assert LunchEffect(s, a) == NoConflicts();
      AppendFacts(v.Snapshot(), NoConflicts());
      return;
    }
    var remaining := set p | p in lunches && p !in present;
    assert LunchEffect(s, a) == TeacherLunches(s, a, remaining, s.program.TeachersFor(a.section));
    ValidateTeacherLunches(v, s, a, remaining);
  }

  lemma {:induction false} TeacherLunchesStep(s: Schedule, a: StartAssignment, remaining: set<ClassPeriod>, teachers: seq<int>, j: int)
    requires StoredOk(s.assignments) && 0 <= j < |teachers|
    ensures TeacherLunches(s, a, remaining, teachers[..j + 1])
         == TeacherLunches(s, a, remaining, teachers[..j]).Append(
              GlobalStartDelta(false, a, LunchScan(s, a.Block(), s.program.SectionsForTeacher(teachers[j]), remaining).conflicts, LunchMessage))
  {
    assert teachers[..j + 1][..j] == teachers[..j];
  }

  /** The teacher loop of LunchLogic: one validateGlobal per teacher of the course. */
  method ValidateTeacherLunches(v: ScheduleValidator, s: Schedule, a: StartAssignment, remaining: set<ClassPeriod>)
    requires StoredOk(s.assignments) && v.Valid()
    modifies v
    ensures v.Valid()
    ensures v.Snapshot() == old(v.Snapshot()).Append(TeacherLunches(s, a, remaining, s.program.TeachersFor(a.section)))
  {
    var teachers := s.program.TeachersFor(a.section);
    AppendFacts(v.Snapshot(), NoConflicts());
    for j := 0 to |teachers|
      invariant v.Valid()
      invariant v.Snapshot() == old(v.Snapshot()).Append(TeacherLunches(s, a, remaining, teachers[..j]))
    {
      var conflicts := ScanTeacher(s, a.Block(), s.program.SectionsForTeacher(teachers[j]), remaining);
      TeacherLunchesStep(s, a, remaining, teachers, j);
      v.ValidateGlobalStart(false, a, conflicts, LunchMessage);
      AppendAssoc(old(v.Snapshot()), TeacherLunches(s, a, remaining, teachers[..j]),
                  GlobalStartDelta(false, a, conflicts, LunchMessage));
    }
    assert teachers[..|teachers|] == teachers;
  }

  /** RoomPropertyLogic's two local checks. */
  method ValidateRoomProperties(v: ScheduleValidator, s: Schedule, a: StartAssignment)
    requires v.Valid()
    modifies v
    ensures v.Valid()
    ensures v.Snapshot() == old(v.Snapshot()).Append(RoomPropertyEffect(s, a))
  {
    var props := s.program.RoomProperties(a.room);
    var reqs := s.program.RoomRequirements(a.section);
    v.ValidateLocalStart(reqs <= props, a, RequiredMessage);
    var binding := Binding(props);
    v.ValidateLocalStart(binding <= reqs, a, BindingMessage);
    AppendAssoc(old(v.Snapshot()), LocalStartDelta(reqs <= props, a, RequiredMessage),
                LocalStartDelta(binding <= reqs, a, BindingMessage));
  }

  /** logic.validate(validator, schedule, start). */
  method ValidateStart(logic: Logic, v: ScheduleValidator, s: Schedule, a: StartAssignment)
    requires Checkable(s, a) && v.Valid()
    modifies v
    ensures v.Valid()
    ensures v.Snapshot() == old(v.Snapshot()).Append(StartEffect(logic, s, a))
    decreases logic, 3
  {
    var presents := PresentAssignments(a);
    match logic
    case Base =>
      ValidatePresents(logic, v, s, a);
    case DuplicateSection =>
      ValidatePresents(logic, v, s, a);
      var mid := v.Snapshot();
      v.ValidateGlobalStart(false, a, AsList(s.assignments.Get(Some(SectionKey(a.section)))), DuplicateMessage);
      AppendAssoc(old(v.Snapshot()), PresentsEffect(logic, s, a, a.section.periodLength), DuplicateEffect(s, a));
    case RoomConflict =>
      ValidatePresents(logic, v, s, a);
    case TeacherConflict =>
      ValidatePresents(logic, v, s, a);
    case Prerequisite =>
      ValidatePresents(logic, v, s, a);
      ValidatePrerequisites(v, s, a);
      AppendAssoc(old(v.Snapshot()), PresentsEffect(logic, s, a, a.section.periodLength), PrerequisiteEffect(s, a));
    case Lunch =>
      ValidateLunch(v, s, a);
    case RoomPropertyRule =>
      ValidatePresents(logic, v, s, a);
      ValidateRoomProperties(v, s, a);
      AppendAssoc(old(v.Snapshot()), PresentsEffect(logic, s, a, a.section.periodLength), RoomPropertyEffect(s, a));
    case Chained(logics) =>
      AppendFacts(v.Snapshot(), NoConflicts());
      if a.isLocked {
        return;
      }
      for i := 0 to |logics|
        invariant v.Valid()
        invariant v.Snapshot() == old(v.Snapshot()).Append(ChainStart(logic, i, s, a))
      {
        ValidateStart(logics[i], v, s, a);
        AppendAssoc(old(v.Snapshot()), ChainStart(logic, i, s, a), StartEffect(logics[i], s, a));
      }
  }
}

/**
 * Properties of the logics: how a chain combines its sub-logics, and what each logic
 * started on a start assignment amounts to.
 */
module LogicFacts {
  import opened Wrappers
  import opened Treap
  import opened BstMap
  import opened Graph
  import opened Assignments
  import opened Validation
  import opened ScheduleTables
  import opened ScheduleLogic

  /** A locked start assignment adds nothing to the validator at the start stage of a chain. */
  lemma {:induction false} LockedStartAddsNothing(logics: seq<Logic>, s: Schedule, a: StartAssignment)
    requires Checkable(s, a) && a.isLocked
    ensures StartEffect(Chained(logics), s, a) == NoConflicts()
  {
  }

  /** A chain's effect is valid exactly when each of its first n sub-logics' effects is. */
  lemma {:induction false} ChainStartValidIff(logic: Logic, n: nat, s: Schedule, a: StartAssignment)
    requires logic.Chained? && n <= |logic.logics| && Checkable(s, a)
    ensures ChainStart(logic, n, s, a).IsValid() <==>
              forall i :: 0 <= i < n ==> StartEffect(logic.logics[i], s, a).IsValid()
  {
    if n > 0 {
      ChainStartValidIff(logic, n - 1, s, a);
      AppendFacts(ChainStart(logic, n - 1, s, a), StartEffect(logic.logics[n - 1], s, a));
    }
  }

  /** The same for the present stage. */
  lemma {:induction false} ChainPresentValidIff(logic: Logic, n: nat, s: Schedule, p: PresentAssignment)
    requires logic.Chained? && n <= |logic.logics| && CheckablePresent(s, p)
    ensures ChainPresent(logic, n, s, p).IsValid() <==>
              forall i :: 0 <= i < n ==> PresentEffect(logic.logics[i], s, p).IsValid()
  {
    if n > 0 {
      ChainPresentValidIff(logic, n - 1, s, p);
      AppendFacts(ChainPresent(logic, n - 1, s, p), PresentEffect(logic.logics[n - 1], s, p));
    }
  }

  /** A present assignment that passes a chain passes each of its sub-logics. */
  lemma {:induction false} ChainMemberPasses(ls: seq<Logic>, s: Schedule, p: PresentAssignment, j: int)
    requires CheckablePresent(s, p) && PresentEffect(Chained(ls), s, p).IsValid() && 0 <= j < |ls|
    ensures PresentEffect(ls[j], s, p).IsValid()
  {
    ChainPresentValidIff(Chained(ls), |ls|, s, p);
  }

  /**
   * An unlocked start assignment passes a chain exactly when it passes every sub-logic;
   * an empty chain never adds a conflict.
   */
  lemma {:induction false} ChainValidIff(logics: seq<Logic>, s: Schedule, a: StartAssignment, p: PresentAssignment)
    requires Checkable(s, a) && !a.isLocked && CheckablePresent(s, p)
    ensures StartEffect(Chained(logics), s, a).IsValid() <==>
              forall i :: 0 <= i < |logics| ==> StartEffect(logics[i], s, a).IsValid()
    ensures PresentEffect(Chained(logics), s, p).IsValid() <==>
              forall i :: 0 <= i < |logics| ==> PresentEffect(logics[i], s, p).IsValid()
    ensures logics == [] ==>
              StartEffect(Chained(logics), s, a) == NoConflicts() && PresentEffect(Chained(logics), s, p) == NoConflicts()
  {
    ChainStartValidIff(Chained(logics), |logics|, s, a);
    ChainPresentValidIff(Chained(logics), |logics|, s, p);
  }

  /** The logic passes the i-th present assignment of a. */
  ghost predicate PassesPresent(logic: Logic, s: Schedule, a: StartAssignment, i: int)
    requires Checkable(s, a) && 0 <= i < a.section.periodLength
  {
    PresentEffect(logic, s, PresentAssignment(a, i)).IsValid()
  }

  /** The logic passes each of the first n present assignments of a, counted from the last. */
  ghost predicate PassesFirst(logic: Logic, s: Schedule, a: StartAssignment, n: nat)
    requires Checkable(s, a) && n <= a.section.periodLength
  {
    n == 0 || (PassesFirst(logic, s, a, n - 1) && PassesPresent(logic, s, a, n - 1))
  }

  /** Passing the first n one by one is passing every one of them. */
  lemma {:induction false} PassesFirstAll(logic: Logic, s: Schedule, a: StartAssignment, n: nat)
    requires Checkable(s, a) && n <= a.section.periodLength
    ensures PassesFirst(logic, s, a, n) <==> forall i :: 0 <= i < n ==> PassesPresent(logic, s, a, i)
  {
    if n > 0 {
      PassesFirstAll(logic, s, a, n - 1);
    }
  }

  /** The presents stage over the first n is valid exactly when the logic passes each of them. */
  lemma {:induction false} PresentsPassesFirst(logic: Logic, s: Schedule, a: StartAssignment, n: nat)
    requires Checkable(s, a) && n <= a.section.periodLength
    ensures PresentsEffect(logic, s, a, n).IsValid() <==> PassesFirst(logic, s, a, n)
  {
    hide RoomConflictEffect;
    hide TeacherConflictEffect;
    if n > 0 {
      PresentsPassesFirst(logic, s, a, n - 1);
      var prev := PresentsEffect(logic, s, a, n - 1);
      var d := PresentEffect(logic, s, PresentAssignment(a, n - 1));
      assert PresentsEffect(logic, s, a, n) == prev.Append(d);
      AppendFacts(prev, d);
    }
  }

  /** The presents stage is valid exactly when the logic passes every present assignment. */
  lemma PresentsValidIff(logic: Logic, s: Schedule, a: StartAssignment, n: nat)
    requires Checkable(s, a) && n <= a.section.periodLength
    ensures PresentsEffect(logic, s, a, n).IsValid() <==> forall i :: 0 <= i < n ==> PassesPresent(logic, s, a, i)
  {
    PresentsPassesFirst(logic, s, a, n);
    PassesFirstAll(logic, s, a, n);
  }

  /** A logic without a present check adds nothing over the present assignments. */
  lemma {:induction false} NoPresentCheck(logic: Logic, s: Schedule, a: StartAssignment, n: nat)
    requires Checkable(s, a) && n <= a.section.periodLength
    requires logic in [Base, DuplicateSection, Prerequisite, Lunch, RoomPropertyRule]
    ensures PresentsEffect(logic, s, a, n) == NoConflicts()
  {
    if n > 0 {
      NoPresentCheck(logic, s, a, n - 1);
      assert PresentEffect(logic, s, PresentAssignment(a, n - 1)) == NoConflicts();
      AppendFacts(NoConflicts(), NoConflicts());
    }
  }

  /**
   * DuplicateSectionLogic, PrerequisiteLogic and RoomPropertyLogic run the inherited present
   * loop first, which adds nothing, so each amounts to its own check; the base logic adds
   * nothing at all.
   */
  lemma {:induction false} DuplicateStartIsOwnCheck(s: Schedule, a: StartAssignment)
    requires Checkable(s, a)
    ensures StartEffect(DuplicateSection, s, a) == DuplicateEffect(s, a)
  {
    NoPresentCheck(DuplicateSection, s, a, a.section.periodLength);
    assert NoConflicts().Append(DuplicateEffect(s, a)) == DuplicateEffect(s, a);
  }

  lemma {:induction false} PrerequisiteStartIsOwnCheck(s: Schedule, a: StartAssignment)
    requires Checkable(s, a)
    ensures StartEffect(Prerequisite, s, a) == PrerequisiteEffect(s, a)
  {
    NoPresentCheck(Prerequisite, s, a, a.section.periodLength);
    assert NoConflicts().Append(PrerequisiteEffect(s, a)) == PrerequisiteEffect(s, a);
  }

  lemma {:induction false} RoomPropertyStartIsOwnCheck(s: Schedule, a: StartAssignment)
    requires Checkable(s, a)
    ensures StartEffect(RoomPropertyRule, s, a) == RoomPropertyEffect(s, a)
  {
    NoPresentCheck(RoomPropertyRule, s, a, a.section.periodLength);
    assert NoConflicts().Append(RoomPropertyEffect(s, a)) == RoomPropertyEffect(s, a);
  }

  lemma {:induction false} BaseStartAddsNothing(s: Schedule, a: StartAssignment)
    requires Checkable(s, a)
    ensures StartEffect(Base, s, a) == NoConflicts()
  {
    NoPresentCheck(Base, s, a, a.section.periodLength);
  }

  /**
   * RoomConflictLogic on a start assignment: valid exactly when none of the periods it would
   * occupy is already occupied in its room.
   */
  lemma {:induction false} RoomConflictStartIff(s: Schedule, a: StartAssignment)
    requires Checkable(s, a)
    ensures StartEffect(RoomConflict, s, a).IsValid() <==>
              forall i :: 0 <= i < a.section.periodLength ==>
                s.OccurringAt(Period(PresentAssignment(a, i)), a.room).None?
  {
    assert StartEffect(RoomConflict, s, a) == PresentsEffect(RoomConflict, s, a, a.section.periodLength);
    PresentsValidIff(RoomConflict, s, a, a.section.periodLength);
    forall i | 0 <= i < a.section.periodLength
      ensures PassesPresent(RoomConflict, s, a, i) <==> s.OccurringAt(Period(PresentAssignment(a, i)), a.room).None?
    {
      PassesRoomConflict(s, a, i);
    }
  }

  lemma {:induction false} PassesRoomConflict(s: Schedule, a: StartAssignment, i: int)
    requires Checkable(s, a) && 0 <= i < a.section.periodLength
    ensures PassesPresent(RoomConflict, s, a, i) <==> s.OccurringAt(Period(PresentAssignment(a, i)), a.room).None?
  {
    RoomConflictEffectIff(s, PresentAssignment(a, i));
  }
}
