/**
 * The program graph a schedule refers to (the graph package): time blocks and their
 * periods, rooms, sections, teachers and room properties, and the lookups the schedule
 * logic asks the program for.
 *
 * Program objects are compared by program and id (ProgramObject.equals); the program is
 * represented by an int tag, so "the same program" is equality of tags.
 */
module Graph {
  import opened Wrappers
  import opened Errors
  import opened Treap

  /** The serialised fields of one period that the core reads. */
  datatype PeriodSerial = PeriodSerial(periodId: int, isLunch: bool, minGrade: int, maxGrade: int)

  /** A time block: the program it belongs to, its id and its periods in order. */
  datatype TimeBlock = TimeBlock(program: int, id: int, serials: seq<PeriodSerial>)

  /**
   * A class period is the period at position `index` of its time block; the TimeBlock
   * constructor creates exactly the periods ClassPeriod(block, 0), ClassPeriod(block, 1), ...
   */
  datatype ClassPeriod = ClassPeriod(block: TimeBlock, index: int) {
    /** The period was created by its block: its index is a position of the block. */
    predicate Valid() {
      0 <= index < |block.serials|
    }

    function Serial(): PeriodSerial
      requires Valid()
    {
      block.serials[index]
    }

    function Id(): int
      requires Valid()
    {
      Serial().periodId
    }

    function IsLunch(): bool
      requires Valid()
    {
      Serial().isLunch
    }

    function Program(): int {
      block.program
    }
  }

  /** TimeBlock.getPeriods(): the block's periods, in order. */
  function Periods(b: TimeBlock): (ps: seq<ClassPeriod>)
    ensures |ps| == |b.serials|
    ensures forall i :: 0 <= i < |ps| ==> ps[i].block == b && ps[i].index == i && ps[i].Valid()
    ensures forall p :: p in ps <==> p.block == b && p.Valid()
  {
    var ps := seq(|b.serials|, i => ClassPeriod(b, i));
    assert forall p: ClassPeriod :: p.block == b && p.Valid() ==> ps[p.index] == p;
    ps
  }

  /** Equality of time blocks as program objects: same program, same id. */
  predicate SameBlock(a: TimeBlock, b: TimeBlock) {
    a.program == b.program && a.id == b.id
  }

  /**
   * getTailPeriods(count): the sub-list [index, index + count) of the block's periods;
   * the sub-list bounds check throws IndexOutOfBoundsException.
   */
  function TailPeriods(p: ClassPeriod, count: int): (r: Result<seq<ClassPeriod>, JavaError>)
    ensures r.Failure? <==> p.index < 0 || count < 0 || p.index + count > |p.block.serials|
    ensures r.Failure? ==> r.error == IndexOutOfBounds
    ensures r.Success? ==>
              && |r.value| == count
              && forall i :: 0 <= i < count ==>
                   r.value[i].block == p.block && r.value[i].index == p.index + i && r.value[i].Valid()
  {
    var ps := Periods(p.block);
    if p.index < 0 || count < 0 || p.index + count > |ps| then Failure(IndexOutOfBounds)
    else Success(ps[p.index .. p.index + count])
  }

  /** The BstMap key of a period: (block id, index). */
  function PeriodKey(p: ClassPeriod): Key {
    Key(p.block.id, p.index)
  }

  /** Ints.compare: -1, 0 or 1. */
  function CompareInts(a: int, b: int): int {
    if a < b then -1 else if a > b then 1 else 0
  }

  /** compareTo: a comparison chain on the block id, then the index. */
  function CompareTo(p: ClassPeriod, q: ClassPeriod): (r: int)
    ensures r == -1 || r == 0 || r == 1
    ensures r < 0 <==> Less(PeriodKey(p), PeriodKey(q))
    ensures r == 0 <==> PeriodKey(p) == PeriodKey(q)
    ensures r > 0 <==> Less(PeriodKey(q), PeriodKey(p))
  {
    var c := CompareInts(p.block.id, q.block.id);
    if c != 0 then c else CompareInts(p.index, q.index)
  }

  /** compareTo is antisymmetric and transitive: it is a total order on (block id, index). */
  lemma CompareToIsOrder(p: ClassPeriod, q: ClassPeriod, s: ClassPeriod)
    ensures CompareTo(p, q) == -CompareTo(q, p)
    ensures CompareTo(p, q) < 0 && CompareTo(q, s) < 0 ==> CompareTo(p, s) < 0
  {
    if CompareTo(p, q) < 0 && CompareTo(q, s) < 0 {
      LessTrans(PeriodKey(p), PeriodKey(q), PeriodKey(s));
    }
  }

  /** A tail of periods is strictly increasing under compareTo and starts at the period itself. */
  lemma {:induction false} TailPeriodsAscend(p: ClassPeriod, count: int, i: int, j: int)
    requires TailPeriods(p, count).Success?
    requires 0 <= i < j < count
    ensures CompareTo(TailPeriods(p, count).value[i], TailPeriods(p, count).value[j]) == -1
    ensures TailPeriods(p, count).value[0] == p
  {
  }

  /** A tail of count periods is a prefix of the tail of count + 1 periods when that exists. */
  lemma TailPeriodsPrefix(p: ClassPeriod, count: nat)
    requires TailPeriods(p, count + 1).Success?
    ensures TailPeriods(p, count).Success?
    ensures TailPeriods(p, count + 1).value == TailPeriods(p, count).value + [ClassPeriod(p.block, p.index + count)]
  {
    var longer := TailPeriods(p, count + 1).value;
    var shorter := TailPeriods(p, count).value;
    assert longer[count] == ClassPeriod(p.block, p.index + count);
    assert longer[..count] == shorter;
    assert longer == longer[..count] + [longer[count]];
  }

  /** Ranges.closed(lo, hi); it refuses lo > hi with IllegalArgumentException. */
  datatype IntRange = Closed(lo: int, hi: int) {
    predicate Contains(x: int) {
      lo <= x <= hi
    }
  }

  /** getGradeRange(): the closed range [minGrade, maxGrade]. */
  function GradeRange(p: ClassPeriod): (r: Result<IntRange, JavaError>)
    requires p.Valid()
    ensures r.Success? <==> p.Serial().minGrade <= p.Serial().maxGrade
    ensures r.Failure? ==> r.error == IllegalArgument
    ensures r.Success? ==> forall g :: r.value.Contains(g) <==> p.Serial().minGrade <= g <= p.Serial().maxGrade
  {
    var s := p.Serial();
    if s.minGrade <= s.maxGrade then Success(Closed(s.minGrade, s.maxGrade))
    else Failure(IllegalArgument)
  }

  /** A room; rooms are ordered by id. */
  datatype Room = Room(program: int, id: int)

  function RoomKey(r: Room): Key {
    Key(r.id, 0)
  }

  /** A section of a course: its id, the course it belongs to and its length in periods. */
  datatype Section = Section(program: int, id: int, course: int, periodLength: nat)

  function SectionKey(s: Section): Key {
    Key(s.id, 0)
  }

  /** A room property; a binding property may only be used by courses that require it. */
  datatype RoomProperty = RoomProperty(id: int, isBinding: bool)

  /**
   * The program: its rooms in iteration order and the relations the logic reads. Lookups
   * of a missing entity give the empty relation.
   */
  datatype Program = Program(
    id: int,
    rooms: seq<Room>,
    teachersOfSection: map<int, seq<int>>,
    sectionsOfTeacher: map<int, seq<Section>>,
    prerequisitesOf: map<int, seq<int>>,
    sectionsOfCourse: map<int, seq<Section>>,
    propertiesOfRoom: map<int, set<RoomProperty>>,
    requirementsOf: map<int, set<RoomProperty>>,
    periodsById: map<int, ClassPeriod>,
    roomsById: map<int, Room>,
    sectionsById: map<int, Section>)
  {
    /** teachersFor(section) / getCourse().getTeachers(): teacher ids. */
    function TeachersFor(s: Section): seq<int> {
      if s.id in teachersOfSection then teachersOfSection[s.id] else []
    }

    /** getSectionsForTeacher(t). */
    function SectionsForTeacher(t: int): seq<Section> {
      if t in sectionsOfTeacher then sectionsOfTeacher[t] else []
    }

    /** getPrerequisites(section): course ids. */
    function Prerequisites(s: Section): seq<int> {
      if s.id in prerequisitesOf then prerequisitesOf[s.id] else []
    }

    /** getSectionsOfCourse(course). */
    function SectionsOfCourse(c: int): seq<Section> {
      if c in sectionsOfCourse then sectionsOfCourse[c] else []
    }

    /** roomProperties(room). */
    function RoomProperties(r: Room): set<RoomProperty> {
      if r.id in propertiesOfRoom then propertiesOfRoom[r.id] else {}
    }

    /** roomRequirements(section). */
    function RoomRequirements(s: Section): set<RoomProperty> {
      if s.id in requirementsOf then requirementsOf[s.id] else {}
    }

    /** getPeriod(id): IllegalArgumentException when no period has that id. */
    function GetPeriod(id: int): (r: Result<ClassPeriod, JavaError>)
      ensures r.Success? <==> id in periodsById
      ensures r.Success? ==> r.value == periodsById[id]
      ensures r.Failure? ==> r.error == IllegalArgument
    {
      if id in periodsById then Success(periodsById[id]) else Failure(IllegalArgument)
    }

    /** getRoom(id). */
    function GetRoom(id: int): (r: Result<Room, JavaError>)
      ensures r.Success? <==> id in roomsById
      ensures r.Success? ==> r.value == roomsById[id]
      ensures r.Failure? ==> r.error == IllegalArgument
    {
      if id in roomsById then Success(roomsById[id]) else Failure(IllegalArgument)
    }

    /** getSection(id). */
    function GetSection(id: int): (r: Result<Section, JavaError>)
      ensures r.Success? <==> id in sectionsById
      ensures r.Success? ==> r.value == sectionsById[id]
      ensures r.Failure? ==> r.error == IllegalArgument
    {
      if id in sectionsById then Success(sectionsById[id]) else Failure(IllegalArgument)
    }
  }
}
