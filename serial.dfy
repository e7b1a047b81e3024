/**
 * Conversion between the serial form of a schedule (a list of id triples) and the
 * schedule itself (schedule/Schedules.java), and the size of the schedule's set of start
 * assignments (Schedule.StartAssignmentSet).
 */
module ScheduleSerial {
  import opened Wrappers
  import opened Errors
  import opened Treap
  import opened BstMap
  import opened Graph
  import opened Assignments
  import opened ScheduleTables
  import opened ScheduleLogic
  import opened ScheduleUpdates

  /** SerialStartAssignment: the ids of a start assignment and its lock flag. */
  datatype SerialStart = SerialStart(periodId: int, roomId: int, sectionId: int, locked: bool)

  /**
   * What the program's construction guarantees: its lookups hand out periods that belong to
   * their time blocks, and rooms that the program lists.
   */
  ghost predicate ProgramOk(p: Program) {
    && (forall id :: id in p.periodsById ==> p.periodsById[id].Valid())
    && (forall id :: id in p.roomsById ==> p.roomsById[id] in p.rooms)
  }

  /**
   * StartAssignment.create(getPeriod(..), getRoom(..), getSection(..), locked): every failure
   * is an IllegalArgumentException, which deserialize catches.
   */
  function Resolve(program: Program, e: SerialStart): (r: Result<StartAssignment, JavaError>)
    requires ProgramOk(program)
    ensures r.Success? ==>
              && e.periodId in program.periodsById && e.roomId in program.roomsById
              && e.sectionId in program.sectionsById
              && r.value == StartAssignment(program.periodsById[e.periodId], program.roomsById[e.roomId],
                                            program.sectionsById[e.sectionId], e.locked)
              && r.value.Valid() && r.value.room in program.rooms
    ensures (&& e.periodId in program.periodsById && e.roomId in program.roomsById
             && e.sectionId in program.sectionsById
             && StartAssignment(program.periodsById[e.periodId], program.roomsById[e.roomId],
                                program.sectionsById[e.sectionId], e.locked).Valid()) ==> r.Success?
    ensures r.Failure? ==> r.error == IllegalArgument
  {
    match program.GetPeriod(e.periodId)
    case Failure(err) => Failure(err)
    case Success(period) =>
      match program.GetRoom(e.roomId)
      case Failure(err) => Failure(err)
      case Success(room) =>
        match program.GetSection(e.sectionId)
        case Failure(err) => Failure(err)
        case Success(section) => CreateStart(period, room, section, e.locked)
  }

  /** The state deserialize threads through its loop: the good flag and the current schedule. */
  datatype Replayed = Replayed(good: bool, schedule: Schedule)

  /**
   * Whether one entry passes: it does not resolve, or assignStart accepts it. (A rejected
   * assignment leaves the same schedule, so the source's test that the new state differs
   * adds nothing to validity.)
   */
  ghost predicate StepOk(logic: Logic, s: Schedule, e: SerialStart) {
    s.Valid() && ProgramOk(s.program) ==>
      match Resolve(s.program, e)
      case Failure(_) => true
      case Success(a) => s.HasRoom(a.room) ==> AssignEffect(logic, s, a).IsValid()
  }

  /** The schedule after one entry: unchanged when it does not resolve, else assignStart's. */
  ghost function StepState(logic: Logic, s: Schedule, e: SerialStart, heapKey: int): Schedule {
    if s.Valid() && ProgramOk(s.program) then
      match Resolve(s.program, e)
      case Failure(_) => s
      case Success(a) => if s.HasRoom(a.room) then AssignedState(logic, s, a, heapKey) else s
    else s
  }

  /** The loop over the serial entries in list order, from the given schedule. */
  ghost function Replay(logic: Logic, s0: Schedule, entries: seq<SerialStart>, heapKey: int): Replayed
    decreases |entries|
  {
    if entries == [] then Replayed(true, s0)
    else
      var prev := Replay(logic, s0, entries[..|entries| - 1], heapKey);
      var e := entries[|entries| - 1];
      Replayed(prev.good && StepOk(logic, prev.schedule, e), StepState(logic, prev.schedule, e, heapKey))
  }

  /**
   * One entry keeps the schedule well formed over the same program and rooms, keeps every
   * section it had, and enters the section of an entry it accepts.
   */
  lemma {:induction false} StepFacts(logic: Logic, s: Schedule, e: SerialStart, heapKey: int)
    requires s.Valid() && ProgramOk(s.program)
    ensures StepState(logic, s, e, heapKey).Valid()
    ensures StepState(logic, s, e, heapKey).program == s.program
    ensures StepState(logic, s, e, heapKey).table.Pairs().Keys == s.table.Pairs().Keys
    ensures s.assignments.Pairs().Keys <= StepState(logic, s, e, heapKey).assignments.Pairs().Keys
  {
    var r := Resolve(s.program, e);
    if r.Success? && s.HasRoom(r.value.room) {
      var a := r.value;
      var t := AssignedState(logic, s, a, heapKey);
      assert StepState(logic, s, e, heapKey) == t;
      if AssignEffect(logic, s, a).IsValid() {
        assert t.assignments.Pairs() == s.assignments.Pairs()[SectionKey(a.section) := a];
      }
    } else {
      assert StepState(logic, s, e, heapKey) == s;
    }
  }

  /** An accepted entry has its section entered. */
  lemma StepAdds(logic: Logic, s: Schedule, e: SerialStart, heapKey: int)
    requires s.Valid() && ProgramOk(s.program)
    requires StepOk(logic, s, e) && Resolve(s.program, e).Success?
    ensures SectionKey(Resolve(s.program, e).value.section) in StepState(logic, s, e, heapKey).assignments.Pairs()
  {
  }

  lemma {:induction false} ReplayValid(logic: Logic, s0: Schedule, entries: seq<SerialStart>, heapKey: int)
    requires s0.Valid() && ProgramOk(s0.program)
    ensures Replay(logic, s0, entries, heapKey).schedule.Valid()
    ensures Replay(logic, s0, entries, heapKey).schedule.program == s0.program
    ensures Replay(logic, s0, entries, heapKey).schedule.table.Pairs().Keys == s0.table.Pairs().Keys
    decreases |entries|
  {
    if entries != [] {
      var front := entries[..|entries| - 1];
      ReplayValid(logic, s0, front, heapKey);
      StepFacts(logic, Replay(logic, s0, front, heapKey).schedule, entries[|entries| - 1], heapKey);
    }
  }

  /** Entry i passes on the schedule built from the entries before it. */
  ghost predicate Accepted(logic: Logic, s0: Schedule, entries: seq<SerialStart>, heapKey: int, i: int)
    requires 0 <= i < |entries|
  {
    StepOk(logic, Replay(logic, s0, entries[..i], heapKey).schedule, entries[i])
  }

  /** Whether entry i passes does not depend on the entries after it. */
  lemma AcceptedOfPrefix(logic: Logic, s0: Schedule, entries: seq<SerialStart>, heapKey: int, n: int, i: int)
    requires 0 <= i < n <= |entries|
    ensures Accepted(logic, s0, entries, heapKey, i) == Accepted(logic, s0, entries[..n], heapKey, i)
  {
    assert entries[..n][..i] == entries[..i];
    assert entries[..n][i] == entries[i];
  }

  /** The flag after the entries is the flag before the last one, and that entry passing. */
  lemma ReplayGoodStep(logic: Logic, s0: Schedule, entries: seq<SerialStart>, heapKey: int)
    requires entries != []
    ensures Replay(logic, s0, entries, heapKey).good ==
              (Replay(logic, s0, entries[..|entries| - 1], heapKey).good
               && Accepted(logic, s0, entries, heapKey, |entries| - 1))
  {
  }

  /** A surviving flag means entry i passed ... */
  lemma {:induction false} ReplayGoodAt(logic: Logic, s0: Schedule, entries: seq<SerialStart>, heapKey: int, i: int)
    requires Replay(logic, s0, entries, heapKey).good && 0 <= i < |entries|
    ensures Accepted(logic, s0, entries, heapKey, i)
    decreases |entries|
  {
    var n := |entries| - 1;
    ReplayGoodStep(logic, s0, entries, heapKey);
    if i < n {
      ReplayGoodAt(logic, s0, entries[..n], heapKey, i);
      assert entries[..n][..i] == entries[..i];
      assert entries[..n][i] == entries[i];
    }
  }

  /** ... and a cleared flag means some entry failed. */
  lemma {:induction false} ReplayBadSome(logic: Logic, s0: Schedule, entries: seq<SerialStart>, heapKey: int)
    requires !Replay(logic, s0, entries, heapKey).good
    ensures exists i :: 0 <= i < |entries| && !Accepted(logic, s0, entries, heapKey, i)
    decreases |entries|
  {
    var n := |entries| - 1;
    ReplayGoodStep(logic, s0, entries, heapKey);
    if Replay(logic, s0, entries[..n], heapKey).good {
      assert !Accepted(logic, s0, entries, heapKey, n);
    } else {
      ReplayBadSome(logic, s0, entries[..n], heapKey);
      var i :| 0 <= i < n && !Accepted(logic, s0, entries[..n], heapKey, i);
      AcceptedOfPrefix(logic, s0, entries, heapKey, n, i);
    }
  }

  /** The flag survives the loop exactly when every entry passes. */
  lemma ReplayGoodIff(logic: Logic, s0: Schedule, entries: seq<SerialStart>, heapKey: int)
    ensures Replay(logic, s0, entries, heapKey).good <==>
              forall i :: 0 <= i < |entries| ==> Accepted(logic, s0, entries, heapKey, i)
  {
    if Replay(logic, s0, entries, heapKey).good {
      forall i | 0 <= i < |entries|
        ensures Accepted(logic, s0, entries, heapKey, i)
      {
        ReplayGoodAt(logic, s0, entries, heapKey, i);
      }
    } else {
      ReplayBadSome(logic, s0, entries, heapKey);
    }
  }

  /** The loop only adds to the assignment table. */
  lemma {:induction false} ReplayKeepsSections(logic: Logic, s0: Schedule, entries: seq<SerialStart>, heapKey: int)
    requires s0.Valid() && ProgramOk(s0.program)
    ensures s0.assignments.Pairs().Keys <= Replay(logic, s0, entries, heapKey).schedule.assignments.Pairs().Keys
    decreases |entries|
  {
    if entries != [] {
      var front := entries[..|entries| - 1];
      ReplayValid(logic, s0, front, heapKey);
      ReplayKeepsSections(logic, s0, front, heapKey);
      StepFacts(logic, Replay(logic, s0, front, heapKey).schedule, entries[|entries| - 1], heapKey);
    }
  }

  /**
   * When the flag survives, an entry that resolves has its section in the assignment table
   * of the result: it was accepted, and assignStart only adds to the table.
   */
  lemma {:induction false} ReplayHoldsSection(logic: Logic, s0: Schedule, entries: seq<SerialStart>, heapKey: int, i: int)
    requires s0.Valid() && ProgramOk(s0.program)
    requires Replay(logic, s0, entries, heapKey).good
    requires 0 <= i < |entries| && Resolve(s0.program, entries[i]).Success?
    ensures SectionKey(Resolve(s0.program, entries[i]).value.section)
              in Replay(logic, s0, entries, heapKey).schedule.assignments.Pairs()
    decreases |entries|
  {
    var n := |entries| - 1;
    var front := entries[..n];
    ReplayGoodStep(logic, s0, entries, heapKey);
    if i < n {
      assert entries[i] == front[i];
      ReplayHoldsSection(logic, s0, front, heapKey, i);
      StepKeepsSection(logic, s0, entries, heapKey, SectionKey(Resolve(s0.program, entries[i]).value.section));
    } else {
      LastEntryHeld(logic, s0, entries, heapKey);
    }
  }

  /** A section entered before the last entry is still entered after it. */
  lemma {:induction false} StepKeepsSection(logic: Logic, s0: Schedule, entries: seq<SerialStart>, heapKey: int, key: Key)
    requires s0.Valid() && ProgramOk(s0.program) && entries != []
    requires key in Replay(logic, s0, entries[..|entries| - 1], heapKey).schedule.assignments.Pairs()
    ensures key in Replay(logic, s0, entries, heapKey).schedule.assignments.Pairs()
  {
    var front := entries[..|entries| - 1];
    ReplayValid(logic, s0, front, heapKey);
    var prev := Replay(logic, s0, front, heapKey);
    var e := entries[|entries| - 1];
    assert Replay(logic, s0, entries, heapKey).schedule == StepState(logic, prev.schedule, e, heapKey);
    StepFacts(logic, prev.schedule, e, heapKey);
  }

  /** The last entry, when the flag survives it and it resolves, has its section entered. */
  lemma {:induction false} LastEntryHeld(logic: Logic, s0: Schedule, entries: seq<SerialStart>, heapKey: int)
    requires s0.Valid() && ProgramOk(s0.program) && entries != []
    requires Accepted(logic, s0, entries, heapKey, |entries| - 1)
    requires Resolve(s0.program, entries[|entries| - 1]).Success?
    ensures SectionKey(Resolve(s0.program, entries[|entries| - 1]).value.section)
              in Replay(logic, s0, entries, heapKey).schedule.assignments.Pairs()
  {
    var front := entries[..|entries| - 1];
    ReplayValid(logic, s0, front, heapKey);
    var prev := Replay(logic, s0, front, heapKey);
    var e := entries[|entries| - 1];
    assert Replay(logic, s0, entries, heapKey).schedule == StepState(logic, prev.schedule, e, heapKey);
    assert StepOk(logic, prev.schedule, e);
    StepAdds(logic, prev.schedule, e, heapKey);
  }

  /**
   * One entry of deserialize: resolve its ids and, when they resolve, assignStart; whether
   * the validator was valid, and the schedule after it.
   */
  method DeserializeEntry(logic: Logic, s: Schedule, e: SerialStart, heapKey: int) returns (accepted: bool, t: Schedule)
    requires s.Valid() && ProgramOk(s.program)
    ensures accepted == StepOk(logic, s, e)
    ensures t == StepState(logic, s, e, heapKey)
  {
    var assign := Resolve(s.program, e);
    if assign.Success? {
      assert s.HasRoom(assign.value.room);
      var v;
      v, t := AssignStart(logic, s, assign.value, heapKey);
      accepted := v.IsValid();
    } else {
      accepted, t := true, s;
    }
  }

  /** The replay of one more entry of a list. */
  lemma {:induction false} ReplayNext(logic: Logic, s0: Schedule, entries: seq<SerialStart>, heapKey: int, i: int)
    requires 0 <= i < |entries|
    ensures var prev := Replay(logic, s0, entries[..i], heapKey);
            Replay(logic, s0, entries[..i + 1], heapKey)
              == Replayed(prev.good && StepOk(logic, prev.schedule, entries[i]), StepState(logic, prev.schedule, entries[i], heapKey))
  {
    assert entries[..i + 1][..i] == entries[..i];
  }

  /**
   * deserialize(factory, serial): the factory's empty schedule (returned beside the result),
   * then assignStart for each entry in list order; an AssertionError when any resolved entry
   * was rejected. The random draws of the inserts are the single heapKey.
   */
  method Deserialize(logic: Logic, program: Program, serial: seq<SerialStart>, heapKey: int)
    returns (r: Result<Schedule, JavaError>, ghost empty: Schedule)
    requires ProgramOk(program)
    ensures empty.Valid() && empty.program == program
    ensures empty.table.Pairs().Keys == RoomKeys(program.rooms)
    ensures forall room :: empty.HasRoom(room) ==> empty.Slots(room) == map[]
    ensures empty.assignments.Pairs() == map[]
    ensures var replayed := Replay(logic, empty, serial, heapKey);
            r == if replayed.good then Success(replayed.schedule) else Failure(AssertionFailed)
  {
    var current := CreateSchedule(program, heapKey);
    empty := current;
    var good := true;
    for i := 0 to |serial|
      invariant Replayed(good, current) == Replay(logic, empty, serial[..i], heapKey)
      invariant current.Valid() && current.program == program
    {
      ReplayNext(logic, empty, serial, heapKey, i);
      StepFacts(logic, current, serial[i], heapKey);
      var accepted, next := DeserializeEntry(logic, current, serial[i], heapKey);
      if !accepted {
        good := false;
      }
      current := next;
    }
    assert serial[..|serial|] == serial;
    if !good {
      return Failure(AssertionFailed), empty;
    }
    r := Success(current);
  }

  /** The ids of one start assignment; the lock flag is not written. */
  function ToSerial(a: StartAssignment): (e: SerialStart)
    requires a.Valid()
    ensures !e.locked
  {
    SerialStart(a.period.Id(), a.room.id, a.section.id, false)
  }

  /** The program maps the assignment's ids back to the assignment's own period, room and section. */
  ghost predicate Registered(program: Program, a: StartAssignment)
    requires a.Valid()
  {
    && a.period.Id() in program.periodsById && program.periodsById[a.period.Id()] == a.period
    && a.room.id in program.roomsById && program.roomsById[a.room.id] == a.room
    && a.section.id in program.sectionsById && program.sectionsById[a.section.id] == a.section
  }

  /** Reading back a written assignment gives the assignment again, unlocked. */
  lemma ResolveToSerial(program: Program, a: StartAssignment)
    requires ProgramOk(program) && a.Valid() && Registered(program, a)
    ensures Resolve(program, ToSerial(a)) == Success(a.(isLocked := false))
  {
  }

  /**
   * serialize(schedule): one id triple per start assignment, in the order of the assignment
   * table (by section).
   */
  method Serialize(s: Schedule) returns (serial: seq<SerialStart>)
    requires s.Valid()
    ensures |serial| == |s.assignments.EntryList()| == |s.assignments.Pairs()|
    ensures forall i :: 0 <= i < |serial| ==>
              && s.assignments.EntryList()[i].key in s.assignments.Pairs()
              && s.assignments.Pairs()[s.assignments.EntryList()[i].key].Valid()
              && serial[i] == ToSerial(s.assignments.Pairs()[s.assignments.EntryList()[i].key])
    ensures forall i, j :: 0 <= i < j < |serial| ==>
              Less(s.assignments.EntryList()[i].key, s.assignments.EntryList()[j].key)
  {
    var entries := s.assignments.EntryList();
    EntryListIsSortedPairs(s.assignments);
    serial := [];
    for i := 0 to |entries|
      invariant |serial| == i
      invariant forall j :: 0 <= j < i ==>
                  && entries[j].key in s.assignments.Pairs()
                  && s.assignments.Pairs()[entries[j].key].Valid()
                  && serial[j] == ToSerial(s.assignments.Pairs()[entries[j].key])
    {
      EntryListEntriesArePairs(s.assignments, i);
      serial := serial + [ToSerial(entries[i].value)];
    }
  }

  // ---------------------------------------------------------------------------------------
  // StartAssignmentSet.size

  /** A Java int: the value modulo 2^32, read as two's complement. */
  function Int32(x: int): (r: int)
    ensures -0x8000_0000 <= r < 0x8000_0000
    ensures -0x8000_0000 <= x < 0x8000_0000 ==> r == x
  {
    (x + 0x8000_0000) % 0x1_0000_0000 - 0x8000_0000
  }

  lemma ModAddMultiple(b: int, q: int)
    ensures (q * 0x1_0000_0000 + b) % 0x1_0000_0000 == b % 0x1_0000_0000
  {
    var a := q * 0x1_0000_0000 + b;
    var r := b % 0x1_0000_0000;
    var k := b / 0x1_0000_0000;
    assert a == (q + k) * 0x1_0000_0000 + r;
    var r' := a % 0x1_0000_0000;
    var k' := a / 0x1_0000_0000;
    assert a == k' * 0x1_0000_0000 + r';
    assert (k' - q - k) * 0x1_0000_0000 == r - r';
    assert k' - q - k == 0;
  }

  /** Adding to a wrapped sum wraps the exact sum. */
  lemma Int32Add(x: int, y: int)
    ensures Int32(Int32(x) + y) == Int32(x + y)
  {
    var a := x + 0x8000_0000;
    var q := a / 0x1_0000_0000;
    assert a == q * 0x1_0000_0000 + a % 0x1_0000_0000;
    assert Int32(x) + y + 0x8000_0000 == a % 0x1_0000_0000 + y;
    ModAddMultiple(a % 0x1_0000_0000 + y, q);
    assert x + y + 0x8000_0000 == q * 0x1_0000_0000 + (a % 0x1_0000_0000 + y);
  }

  /** The sum of the rooms' map sizes, each size saturated as BstMap.size() saturates it. */
  ghost function SizeSum(rooms: seq<Entry<BstMap<Slot>>>): int
    decreases |rooms|
  {
    if rooms == [] then 0
    else SizeSum(rooms[..|rooms| - 1]) + SaturatedCast(|rooms[|rooms| - 1].value.Pairs()|)
  }

  /** The number of starts the rooms' maps hold. */
  ghost function StartTotal(rooms: seq<Entry<BstMap<Slot>>>): nat
    decreases |rooms|
  {
    if rooms == [] then 0 else StartTotal(rooms[..|rooms| - 1]) + |rooms[|rooms| - 1].value.Pairs()|
  }

  /** Without saturation the saturated sum is the number of starts. */
  lemma {:induction false} SizeSumIsTotal(rooms: seq<Entry<BstMap<Slot>>>)
    requires StartTotal(rooms) <= 0x7fff_ffff
    ensures SizeSum(rooms) == StartTotal(rooms)
    decreases |rooms|
  {
    if rooms != [] {
      SizeSumIsTotal(rooms[..|rooms| - 1]);
    }
  }

  /** Every map the room table's entry set yields is well formed. */
  lemma RoomEntryValid(s: Schedule, i: int)
    requires s.Valid() && 0 <= i < |s.table.EntryList()|
    ensures s.table.EntryList()[i].value.Valid()
  {
    EntryListEntriesArePairs(s.table, i);
  }

  lemma SizeSumStep(rooms: seq<Entry<BstMap<Slot>>>, i: int)
    requires 0 <= i < |rooms| && rooms[i].value.Valid()
    ensures SizeSum(rooms[..i + 1]) == SizeSum(rooms[..i]) + rooms[i].value.Size()
  {
    assert rooms[..i + 1][..i] == rooms[..i];
    SizeIsSaturatedCount(rooms[i].value);
  }

  /** One pass of the size loop keeps the wrapped running sum. */
  lemma StartCountStep(rooms: seq<Entry<BstMap<Slot>>>, i: int)
    requires 0 <= i < |rooms| && rooms[i].value.Valid()
    ensures Int32(Int32(SizeSum(rooms[..i])) + rooms[i].value.Size()) == Int32(SizeSum(rooms[..i + 1]))
  {
    SizeSumStep(rooms, i);
    Int32Add(SizeSum(rooms[..i]), rooms[i].value.Size());
  }

  /**
   * StartAssignmentSet.size(): the room maps' sizes added up in an int, which wraps past
   * 2^31 - 1.
   */
  method StartCount(s: Schedule) returns (n: int)
    requires s.Valid()
    ensures n == Int32(SizeSum(s.table.EntryList()))
  {
    var rooms := s.table.EntryList();
    n := 0;
    for i := 0 to |rooms|
      invariant n == Int32(SizeSum(rooms[..i]))
    {
      RoomEntryValid(s, i);
      StartCountStep(rooms, i);
      n := Int32(n + rooms[i].value.Size());
    }
    assert rooms[..|rooms|] == rooms;
  }

  /** For a schedule with fewer than 2^31 starts, size() is the number of starts. */
  lemma StartCountIsTotal(s: Schedule)
    requires s.Valid() && StartTotal(s.table.EntryList()) <= 0x7fff_ffff
    ensures Int32(SizeSum(s.table.EntryList())) == StartTotal(s.table.EntryList())
  {
    SizeSumIsTotal(s.table.EntryList());
  }

  // ---------------------------------------------------------------------------------------
  // size() against serialize()

  /** The (room key, period key) pairs of one room's map. */
  ghost function RoomSlots(e: Entry<BstMap<Slot>>): set<(Key, Key)> {
    set pk | pk in e.value.Pairs() :: (e.key, pk)
  }

  /** The (room key, period key) pairs of every room's map, room by room. */
  ghost function SlotKeys(rooms: seq<Entry<BstMap<Slot>>>): set<(Key, Key)>
    decreases |rooms|
  {
    if rooms == [] then {} else SlotKeys(rooms[..|rooms| - 1]) + RoomSlots(rooms[|rooms| - 1])
  }

  /** Every occupied slot of the schedule, as a (room key, period key) pair. */
  ghost function AllSlotKeys(s: Schedule): set<(Key, Key)>
    requires s.Valid()
  {
    set rk, pk | rk in s.table.Pairs() && pk in s.table.Pairs()[rk].Pairs() :: (rk, pk)
  }

  /** The slot an assignment-table key points at (a dummy pair for a missing key). */
  ghost function SlotOf(s: Schedule, sk: Key): (Key, Key) {
    if sk in s.assignments.Pairs() then
      (RoomKey(s.assignments.Pairs()[sk].room), PeriodKey(s.assignments.Pairs()[sk].period))
    else (sk, sk)
  }

  /** Pairing with a fixed first component keeps the size of a set. */
  lemma {:induction false} PairCard(k: Key, keys: set<Key>)
    ensures |set pk | pk in keys :: (k, pk)| == |keys|
    decreases |keys|
  {
    if keys != {} {
      var x :| x in keys;
      var rest := keys - {x};
      PairCard(k, rest);
      assert (set pk | pk in keys :: (k, pk)) == (set pk | pk in rest :: (k, pk)) + {(k, x)};
    }
  }

  /** A pair of SlotKeys comes from some room's map. */
  lemma {:induction false} SlotKeysFrom(rooms: seq<Entry<BstMap<Slot>>>, rk: Key, pk: Key)
    requires (rk, pk) in SlotKeys(rooms)
    ensures exists i :: 0 <= i < |rooms| && rooms[i].key == rk && pk in rooms[i].value.Pairs()
    decreases |rooms|
  {
    var front := rooms[..|rooms| - 1];
    if (rk, pk) in SlotKeys(front) {
      SlotKeysFrom(front, rk, pk);
      var i :| 0 <= i < |front| && front[i].key == rk && pk in front[i].value.Pairs();
      assert rooms[i] == front[i];
    } else {
      assert rooms[|rooms| - 1].key == rk && pk in rooms[|rooms| - 1].value.Pairs();
    }
  }

  /** Every key of room i's map gives a pair of SlotKeys. */
  lemma {:induction false} SlotKeysHas(rooms: seq<Entry<BstMap<Slot>>>, i: nat, pk: Key)
    requires i < |rooms| && pk in rooms[i].value.Pairs()
    ensures (rooms[i].key, pk) in SlotKeys(rooms)
    decreases |rooms|
  {
    var front := rooms[..|rooms| - 1];
    if i < |front| {
      assert front[i] == rooms[i];
      SlotKeysHas(front, i, pk);
    } else {
      assert (rooms[i].key, pk) in RoomSlots(rooms[|rooms| - 1]);
    }
  }

  lemma SlotKeysMember(rooms: seq<Entry<BstMap<Slot>>>, rk: Key, pk: Key)
    ensures (rk, pk) in SlotKeys(rooms) <==>
              exists i :: 0 <= i < |rooms| && rooms[i].key == rk && pk in rooms[i].value.Pairs()
  {
    if (rk, pk) in SlotKeys(rooms) {
      SlotKeysFrom(rooms, rk, pk);
    }
    if exists i :: 0 <= i < |rooms| && rooms[i].key == rk && pk in rooms[i].value.Pairs() {
      var i :| 0 <= i < |rooms| && rooms[i].key == rk && pk in rooms[i].value.Pairs();
      SlotKeysHas(rooms, i, pk);
    }
  }

  /** With the rooms in strictly increasing key order, the slots number as many as the starts. */
  lemma {:induction false} SlotKeysCount(rooms: seq<Entry<BstMap<Slot>>>)
    requires StrictlySorted(rooms)
    ensures |SlotKeys(rooms)| == StartTotal(rooms)
    decreases |rooms|
  {
    if rooms != [] {
      var front := rooms[..|rooms| - 1];
      var last := rooms[|rooms| - 1];
      assert StrictlySorted(front);
      SlotKeysCount(front);
      PairCard(last.key, last.value.Pairs().Keys);
      assert RoomSlots(last) == set pk | pk in last.value.Pairs().Keys :: (last.key, pk);
      assert |RoomSlots(last)| == |last.value.Pairs()|;
      forall q | q in SlotKeys(front)
        ensures q !in RoomSlots(last)
      {
        SlotKeysMember(front, q.0, q.1);
        var i :| 0 <= i < |front| && front[i].key == q.0 && q.1 in front[i].value.Pairs();
        assert Less(rooms[i].key, rooms[|rooms| - 1].key);
      }
      assert SlotKeys(front) * RoomSlots(last) == {};
      assert |last.value.Pairs().Keys| == |last.value.Pairs()|;
      assert SlotKeys(rooms) == SlotKeys(front) + RoomSlots(last);
      assert StartTotal(rooms) == StartTotal(front) + |last.value.Pairs()|;
    }
  }

  /** A key of MapOf(s) comes from an entry of s that carries its value. */
  lemma {:induction false} MapOfFrom<V>(s: seq<Entry<V>>, k: Key)
    requires k in MapOf(s)
    ensures exists i :: 0 <= i < |s| && s[i].key == k && s[i].value == MapOf(s)[k]
    decreases |s|
  {
    var front := s[..|s| - 1];
    if s[|s| - 1].key != k {
      MapOfFrom(front, k);
      var i :| 0 <= i < |front| && front[i].key == k && front[i].value == MapOf(front)[k];
      assert s[i] == front[i];
    }
  }

  /** The room table's entry set yields exactly the occupied slots. */
  lemma {:induction false} EntrySlotsAreSlots(s: Schedule)
    requires s.Valid()
    ensures SlotKeys(s.table.EntryList()) == AllSlotKeys(s)
  {
    var rooms := s.table.EntryList();
    EntryListIsSortedPairs(s.table);
    forall q | q in SlotKeys(rooms)
      ensures q in AllSlotKeys(s)
    {
      SlotKeysMember(rooms, q.0, q.1);
      var i :| 0 <= i < |rooms| && rooms[i].key == q.0 && q.1 in rooms[i].value.Pairs();
      EntryListEntriesArePairs(s.table, i);
    }
    forall q | q in AllSlotKeys(s)
      ensures q in SlotKeys(rooms)
    {
      MapOfFrom(rooms, q.0);
      var i :| 0 <= i < |rooms| && rooms[i].key == q.0 && rooms[i].value == MapOf(rooms)[q.0];
      SlotKeysMember(rooms, q.0, q.1);
    }
  }

  /** Different sections point at different slots. */
  lemma {:induction false} SlotOfInjective(s: Schedule, x: Key, y: Key)
    requires s.Valid() && s.TablesAgree()
    requires x in s.assignments.Pairs() && y in s.assignments.Pairs() && SlotOf(s, x) == SlotOf(s, y)
    ensures x == y
  {
    assert s.Stored(x, s.assignments.Pairs()[x]) && s.Stored(y, s.assignments.Pairs()[y]);
  }

  /** Every section's slot is occupied, and every occupied slot is some section's. */
  lemma {:induction false} SlotOfOnto(s: Schedule)
    requires s.Valid() && s.TablesAgree()
    ensures (set x | x in s.assignments.Pairs().Keys :: SlotOf(s, x)) == AllSlotKeys(s)
  {
    var image := set x | x in s.assignments.Pairs().Keys :: SlotOf(s, x);
    forall q | q in image
      ensures q in AllSlotKeys(s)
    {
      var x :| x in s.assignments.Pairs().Keys && SlotOf(s, x) == q;
      assert s.Stored(x, s.assignments.Pairs()[x]);
    }
    forall q | q in AllSlotKeys(s)
      ensures q in image
    {
      var slot := s.table.Pairs()[q.0].Pairs()[q.1];
      assert s.Filed(q.0, slot);
      assert RoomMapOk(s.table.Pairs()[q.0]);
      assert SlotOf(s, SectionKey(slot.section)) == q;
    }
  }

  /**
   * When the tables agree, the assignment table and the starting time table hold the same
   * number of starts: each section points at its own slot, and each slot back at its section.
   */
  lemma {:induction false} AssignmentsAreSlots(s: Schedule)
    requires s.Valid() && s.TablesAgree()
    ensures |s.assignments.Pairs()| == |AllSlotKeys(s)|
  {
    var keys := s.assignments.Pairs().Keys;
    forall x, y | x in keys && y in keys && SlotOf(s, x) == SlotOf(s, y)
      ensures x == y
    {
      SlotOfInjective(s, x, y);
    }
    SlotOfCard(s, keys);
    SlotOfOnto(s);
  }

  lemma {:induction false} SlotOfCard(s: Schedule, keys: set<Key>)
    requires forall x, y :: x in keys && y in keys && SlotOf(s, x) == SlotOf(s, y) ==> x == y
    ensures |set x | x in keys :: SlotOf(s, x)| == |keys|
    decreases |keys|
  {
    if keys != {} {
      var x :| x in keys;
      var rest := keys - {x};
      SlotOfCard(s, rest);
      assert (set y | y in keys :: SlotOf(s, y)) == (set y | y in rest :: SlotOf(s, y)) + {SlotOf(s, x)};
      assert SlotOf(s, x) !in (set y | y in rest :: SlotOf(s, y));
    }
  }

  /**
   * When the tables agree and hold fewer than 2^31 starts, StartAssignmentSet.size() (the
   * value StartCount returns) is the number of entries serialize writes, one per assignment.
   */
  lemma {:induction false} SizeIsSerialLength(s: Schedule)
    requires s.Valid() && s.TablesAgree() && |s.assignments.Pairs()| < 0x8000_0000
    ensures Int32(SizeSum(s.table.EntryList())) == |s.assignments.Pairs()|
  {
    EntryListIsSortedPairs(s.table);
    SlotKeysCount(s.table.EntryList());
    EntrySlotsAreSlots(s);
    AssignmentsAreSlots(s);
    StartCountIsTotal(s);
  }
}
