/**
 * The immutable schedule's two tables and its queries (schedule/Schedule.java).
 *
 * The starting time table maps each room to a map from periods to the section starting
 * there; the assignment table maps each section to its start assignment. Both are BstMaps,
 * so every update returns a new schedule and leaves the old one intact.
 */
module ScheduleTables {
  import opened Wrappers
  import opened Errors
  import opened Treap
  import opened BstMap
  import opened Graph
  import opened Assignments

  /**
   * An entry of a room's map: the period that is the entry's key and the section starting
   * there. (A BstMap entry of the model keeps only the key's position, so the period object is
   * carried beside the section.)
   */
  datatype Slot = Slot(period: ClassPeriod, section: Section)

  /** A room's map covers the whole key space and files every slot under its own period. */
  ghost predicate RoomMapOk(m: BstMap<Slot>) {
    && m.Valid() && m.range == All()
    && forall pk :: pk in m.Pairs() ==> PeriodKey(m.Pairs()[pk].period) == pk
  }

  /** The slot's section occupies the given period: same time block, inside its run of periods. */
  ghost predicate Covers(slot: Slot, period: ClassPeriod) {
    && SameBlock(slot.period.block, period.block)
    && slot.period.index <= period.index < slot.period.index + slot.section.periodLength
  }

  /** No two starts in one block of a room overlap (the room is never double-booked). */
  ghost predicate NoOverlap(slots: map<Key, Slot>) {
    forall k1, k2 :: k1 in slots && k2 in slots && Less(k1, k2) && k1.major == k2.major ==>
      k1.minor + slots[k1].section.periodLength <= k2.minor
  }

  /** k is the greatest key of slots at or below key. */
  ghost predicate IsFloor(slots: map<Key, Slot>, key: Key, k: Key) {
    && k in slots && LessEq(k, key)
    && forall x :: x in slots && LessEq(x, key) ==> LessEq(x, k)
  }

  /** The assignment table covers the whole key space and holds only valid start assignments. */
  ghost predicate StoredOk(m: BstMap<StartAssignment>) {
    && m.Valid() && m.range == All()
    && forall sk :: sk in m.Pairs() ==> m.Pairs()[sk].Valid()
  }

  /** The room keys of a list of rooms. */
  ghost function RoomKeys(rooms: seq<Room>): set<Key> {
    set r | r in rooms :: RoomKey(r)
  }

  /** ModifiedState: a result together with the schedule after the operation. */
  datatype Modified<R, S> = Modified(result: R, newState: S)

  datatype Schedule = Schedule(program: Program, table: BstMap<BstMap<Slot>>, assignments: BstMap<StartAssignment>) {

    ghost predicate Valid() {
      && table.Valid() && table.range == All()
      && StoredOk(assignments)
      && (forall rk :: rk in table.Pairs() ==> RoomMapOk(table.Pairs()[rk]))
      && (forall r :: r in program.rooms ==> RoomKey(r) in table.Pairs())
    }

    ghost predicate HasRoom(room: Room) {
      RoomKey(room) in table.Pairs()
    }

    /** The assignment a, filed under section key sk, sits in its room's map at its period. */
    ghost predicate Stored(sk: Key, a: StartAssignment)
      requires Valid()
    {
      && SectionKey(a.section) == sk
      && RoomKey(a.room) in table.Pairs()
      && PeriodKey(a.period) in table.Pairs()[RoomKey(a.room)].Pairs()
      && table.Pairs()[RoomKey(a.room)].Pairs()[PeriodKey(a.period)] == Slot(a.period, a.section)
    }

    /** The slot, found in the map of room key rk, maps back to a start at that room and period. */
    ghost predicate Filed(rk: Key, slot: Slot)
      requires Valid()
    {
      && SectionKey(slot.section) in assignments.Pairs()
      && RoomKey(assignments.Pairs()[SectionKey(slot.section)].room) == rk
      && assignments.Pairs()[SectionKey(slot.section)].period == slot.period
      && assignments.Pairs()[SectionKey(slot.section)].section == slot.section
    }

    /**
     * The two tables describe the same starts: every assignment is in the starting time table,
     * and every slot of that table is a section whose assignment names that room and period.
     */
    ghost predicate TablesAgree()
      requires Valid()
    {
      && (forall sk :: sk in assignments.Pairs() ==> Stored(sk, assignments.Pairs()[sk]))
      && (forall rk, pk :: rk in table.Pairs() && pk in table.Pairs()[rk].Pairs() ==>
            Filed(rk, table.Pairs()[rk].Pairs()[pk]))
    }

    /** startingTimeTable.get(room). */
    function RoomMap(room: Room): (m: BstMap<Slot>)
      requires Valid() && HasRoom(room)
      ensures m == table.Pairs()[RoomKey(room)] && RoomMapOk(m)
    {
      table.Get(Some(RoomKey(room))).value
    }

    /** The starts in a room, by period key. */
    ghost function Slots(room: Room): map<Key, Slot>
      requires Valid() && HasRoom(room)
    {
      RoomMap(room).Pairs()
    }

    /**
     * startingAt(period, room): the section starting in the room at exactly that period,
     * as an unlocked start assignment; absent when none starts there.
     */
    function StartingAt(period: ClassPeriod, room: Room): (r: Option<StartAssignment>)
      requires Valid() && HasRoom(room)
      ensures r.Some? <==> PeriodKey(period) in Slots(room)
      ensures r.Some? ==>
                && r.value.period == period && r.value.room == room && !r.value.isLocked
                && r.value.section == Slots(room)[PeriodKey(period)].section
    {
      match RoomMap(room).Get(Some(PeriodKey(period)))
      case None => None
      case Some(slot) => Some(StartAssignment(period, room, slot.section, false))
    }

    /**
     * startingBefore(room, period): the start with the greatest period at or before the given
     * one, provided it lies in the same time block.
     */
    function StartingBefore(room: Room, period: ClassPeriod): (r: Option<StartAssignment>)
      requires Valid() && HasRoom(room)
      ensures r.Some? ==>
                && IsFloor(Slots(room), PeriodKey(period), PeriodKey(r.value.period))
                && Slots(room)[PeriodKey(r.value.period)] == Slot(r.value.period, r.value.section)
                && SameBlock(r.value.period.block, period.block)
                && r.value.room == room && !r.value.isLocked
      ensures r.None? <==>
                || (forall k :: k in Slots(room) ==> Less(PeriodKey(period), k))
                || (exists k :: IsFloor(Slots(room), PeriodKey(period), k)
                                && !SameBlock(Slots(room)[k].period.block, period.block))
    {
      var m := RoomMap(room);
      FloorEntryOfPairs(m, PeriodKey(period));
      match m.FloorEntry(PeriodKey(period))
      case None =>
        None
      case Some(e) =>
        assert IsFloor(Slots(room), PeriodKey(period), e.key);
        if SameBlock(e.value.period.block, period.block) then
          assert forall k :: IsFloor(Slots(room), PeriodKey(period), k) ==> k == e.key by {
            forall k | IsFloor(Slots(room), PeriodKey(period), k)
              ensures k == e.key
            {
              LessEqAntisym(k, e.key);
            }
          }
          Some(StartAssignment(e.value.period, room, e.value.section, false))
        else
          None
    }

    /**
     * occurringAt(period, room): the present assignment of the start found by startingBefore,
     * when the period lies within that start's run of periods.
     */
    function OccurringAt(period: ClassPeriod, room: Room): (r: Option<PresentAssignment>)
      requires Valid() && HasRoom(room)
      ensures r.Some? ==>
                && StartingBefore(room, period) == Some(r.value.start)
                && PeriodKey(r.value.start.period) in Slots(room)
                && Covers(Slots(room)[PeriodKey(r.value.start.period)], period)
                && r.value.index == period.index - r.value.start.period.index
                && GetPresentAssignment(r.value.start, r.value.index) == Success(r.value)
      ensures r.None? ==>
                || StartingBefore(room, period).None?
                || !Covers(Slots(room)[PeriodKey(StartingBefore(room, period).value.period)], period)
    {
      match StartingBefore(room, period)
      case None => None
      case Some(prev) =>
        var relativeIndex := period.index - prev.period.index;
        if 0 <= relativeIndex < prev.section.periodLength then
          Some(GetPresentAssignment(prev, relativeIndex).value)
        else
          None
    }

    /**
     * containsKey(room) of the occurringAt(period) map view: whether a start lies at exactly
     * that period of the room (see the finding in README: get(room) also sees the later
     * periods of a start).
     */
    function OccurringAtContainsKey(period: ClassPeriod, room: Room): (b: bool)
      requires Valid()
      ensures b <==> HasRoom(room) && PeriodKey(period) in Slots(room)
    {
      var roomMap := table.Get(Some(RoomKey(room)));
      roomMap.Some? && roomMap.value.ContainsKey(Some(PeriodKey(period)))
    }

    /** The corrected containsKey: a key of the view exactly when get returns an assignment. */
    function OccurringAtHasRoom(period: ClassPeriod, room: Room): (b: bool)
      requires Valid()
      ensures b <==> HasRoom(room) && OccurringAt(period, room).Some?
    {
      table.ContainsKey(Some(RoomKey(room))) && OccurringAt(period, room).Some?
    }

    /**
     * The values of the occurringAt(period) view: for each room of the program in order, the
     * present assignment occurring there, if any.
     */
    function OccurringAtValues(period: ClassPeriod, rooms: seq<Room>): (ps: seq<PresentAssignment>)
      requires Valid() && forall r :: r in rooms ==> HasRoom(r)
      ensures forall p :: p in ps ==> exists r :: r in rooms && OccurringAt(period, r) == Some(p)
      ensures forall r :: r in rooms && OccurringAt(period, r).Some? ==> OccurringAt(period, r).value in ps
    {
      if rooms == [] then []
      else
        var front := OccurringAtValues(period, rooms[..|rooms| - 1]);
        var last := rooms[|rooms| - 1];
        assert forall r :: r in rooms[..|rooms| - 1] ==> r in rooms;
        assert forall r :: r in rooms ==> r in rooms[..|rooms| - 1] || r == last;
        match OccurringAt(period, last)
        case None => front
        case Some(p) => front + [p]
    }

    /** StartAssignmentSet.contains(assign): the table holds the assignment's section at its room and period. */
    function ContainsStart(a: StartAssignment): (b: bool)
      requires Valid()
      ensures b <==>
                && HasRoom(a.room) && PeriodKey(a.period) in Slots(a.room)
                && Slots(a.room)[PeriodKey(a.period)].section == a.section
    {
      match table.Get(Some(RoomKey(a.room)))
      case None => false
      case Some(m) =>
        match m.Get(Some(PeriodKey(a.period)))
        case None => false
        case Some(slot) => slot.section == a.section
    }

    /** The two table updates of a successful assignStart. */
    function Added(a: StartAssignment, heapKey: int): (t: Schedule)
      requires Valid() && HasRoom(a.room) && a.Valid()
      ensures t.Valid() && t.program == program
      ensures t.table.Pairs().Keys == table.Pairs().Keys
      ensures t.HasRoom(a.room) && t.table.Pairs() == table.Pairs()[RoomKey(a.room) := t.RoomMap(a.room)]
      ensures t.Slots(a.room) == Slots(a.room)[PeriodKey(a.period) := Slot(a.period, a.section)]
      ensures forall room :: HasRoom(room) && RoomKey(room) != RoomKey(a.room) ==> t.Slots(room) == Slots(room)
      ensures t.assignments.Pairs() == assignments.Pairs()[SectionKey(a.section) := a]
    {
      var roomMap := RoomMap(a.room);
      var roomMap' := roomMap.Insert(Some(PeriodKey(a.period)), Some(Slot(a.period, a.section)), heapKey).value;
      assert RoomMapOk(roomMap');
      var table' := table.Insert(Some(RoomKey(a.room)), Some(roomMap'), heapKey).value;
      var assignments' := assignments.Insert(Some(SectionKey(a.section)), Some(a), heapKey).value;
      assert StoredOk(assignments');
      ReplacedRoomValid(this, RoomKey(a.room), roomMap', table', assignments');
      var t := Schedule(program, table', assignments');
      assert t.RoomMap(a.room) == roomMap';
      t
    }

    /**
     * removeStartingAt(period, room): the start found by startingAt, and a schedule without it
     * in either table; when nothing starts there, the same schedule.
     */
    function RemoveStartingAt(period: ClassPeriod, room: Room, heapKey: int): (m: Modified<Option<StartAssignment>, Schedule>)
      requires Valid() && HasRoom(room)
      ensures m.result == StartingAt(period, room)
      ensures m.result.None? ==> m.newState == this
      ensures m.newState.Valid() && m.newState.program == program
      ensures m.newState.table.Pairs().Keys == table.Pairs().Keys
      ensures m.newState.HasRoom(room)
      ensures m.newState.table.Pairs() == table.Pairs()[RoomKey(room) := m.newState.RoomMap(room)]
      ensures m.newState.Slots(room) == Slots(room) - {PeriodKey(period)}
      ensures forall other :: HasRoom(other) && RoomKey(other) != RoomKey(room) ==>
                m.newState.Slots(other) == Slots(other)
      ensures m.result.Some? ==>
                m.newState.assignments.Pairs() == assignments.Pairs() - {SectionKey(m.result.value.section)}
    {
      var startingAt := StartingAt(period, room);
      if startingAt.Some? then
        var roomMap' := RoomMap(room).Delete(Some(PeriodKey(period)));
        assert RoomMapOk(roomMap');
        var table' := table.Insert(Some(RoomKey(room)), Some(roomMap'), heapKey).value;
        var assignments' := assignments.Delete(Some(SectionKey(startingAt.value.section)));
        assert StoredOk(assignments');
        ReplacedRoomValid(this, RoomKey(room), roomMap', table', assignments');
        var t := Schedule(program, table', assignments');
        assert t.RoomMap(room) == roomMap';
        Modified(startingAt, t)
      else
        assert Slots(room) - {PeriodKey(period)} == Slots(room);
        Modified(startingAt, this)
    }
  }

  /** Replacing one room's map by a well-formed one, with well-formed assignments, keeps a schedule well formed. */
  lemma ReplacedRoomValid(s: Schedule, rk: Key, m: BstMap<Slot>, table': BstMap<BstMap<Slot>>,
                          assignments': BstMap<StartAssignment>)
    requires s.Valid() && rk in s.table.Pairs() && RoomMapOk(m) && StoredOk(assignments')
    requires table'.Valid() && table'.range == All() && table'.Pairs() == s.table.Pairs()[rk := m]
    ensures Schedule(s.program, table', assignments').Valid()
    ensures forall r :: s.HasRoom(r) ==> Schedule(s.program, table', assignments').HasRoom(r)
  {
  }

  lemma LessEqAntisym(a: Key, b: Key)
    requires LessEq(a, b) && LessEq(b, a)
    ensures a == b
  {
  }

  /**
   * Factory.create(): every room of the program mapped to an empty period map, and no section
   * assignments. heapKey stands for the random draws of the inserts.
   */
  method CreateSchedule(program: Program, heapKey: int) returns (s: Schedule)
    ensures s.Valid() && s.program == program
    ensures s.table.Pairs().Keys == RoomKeys(program.rooms)
    ensures forall r :: s.HasRoom(r) ==> s.Slots(r) == map[]
    ensures s.assignments.Pairs() == map[]
    ensures s.TablesAgree()
  {
    var roomMap: BstMap<BstMap<Slot>> := Create();
    var i := 0;
    while i < |program.rooms|
      invariant 0 <= i <= |program.rooms|
      invariant roomMap.Valid() && roomMap.range == All()
      invariant roomMap.Pairs().Keys == RoomKeys(program.rooms[..i])
      invariant forall rk :: rk in roomMap.Pairs() ==> roomMap.Pairs()[rk] == Create()
    {
      roomMap := roomMap.Insert(Some(RoomKey(program.rooms[i])), Some(Create()), heapKey).value;
      assert program.rooms[..i + 1] == program.rooms[..i] + [program.rooms[i]];
      i := i + 1;
    }
    assert program.rooms[..i] == program.rooms;
    s := Schedule(program, roomMap, Create());
  }

  /**
   * Under NoOverlap, occurringAt finds every start that covers the period: the floor entry
   * cannot skip past it, because any later start in the block begins after it ends.
   */
  lemma OccurringAtFindsCover(s: Schedule, period: ClassPeriod, room: Room, k: Key)
    requires s.Valid() && s.HasRoom(room) && NoOverlap(s.Slots(room))
    requires k in s.Slots(room) && Covers(s.Slots(room)[k], period)
    ensures s.OccurringAt(period, room).Some?
    ensures s.OccurringAt(period, room).value.start.period == s.Slots(room)[k].period
  {
    var slots := s.Slots(room);
    var key := PeriodKey(period);
    assert k == PeriodKey(slots[k].period);
    assert LessEq(k, key);
    var before := s.StartingBefore(room, period);
    assert before.Some?;
    assert PeriodKey(before.value.period) == k;
  }

  /**
   * occurringAt(period, room) is present exactly when some start in the room covers the
   * period (for a room that is not double-booked).
   */
  lemma OccurringAtIff(s: Schedule, period: ClassPeriod, room: Room)
    requires s.Valid() && s.HasRoom(room) && NoOverlap(s.Slots(room))
    ensures s.OccurringAt(period, room).Some? <==>
              exists k :: k in s.Slots(room) && Covers(s.Slots(room)[k], period)
  {
    if exists k :: k in s.Slots(room) && Covers(s.Slots(room)[k], period) {
      var k :| k in s.Slots(room) && Covers(s.Slots(room)[k], period);
      OccurringAtFindsCover(s, period, room, k);
    }
  }

  /**
   * removeStartingAt keeps the two tables in agreement: the removed slot's section is the only
   * assignment that pointed at it, and that assignment pointed nowhere else.
   */
  lemma {:induction false} RemoveKeepsTablesAgree(s: Schedule, period: ClassPeriod, room: Room, heapKey: int)
    requires s.Valid() && s.HasRoom(room) && s.TablesAgree()
    ensures s.RemoveStartingAt(period, room, heapKey).newState.TablesAgree()
  {
    var m := s.RemoveStartingAt(period, room, heapKey);
    var t := m.newState;
    if m.result.Some? {
      var rk0 := RoomKey(room);
      assert s.Slots(room) == s.table.Pairs()[rk0].Pairs();
      assert t.Slots(room) == t.table.Pairs()[rk0].Pairs();
      RemovalKeepsStored(s, t, rk0, PeriodKey(period));
      RemovalKeepsFiled(s, t, rk0, PeriodKey(period));
    }
  }

  /**
   * A removal of the slot at pk0 in the map of room key rk0, together with the assignment of
   * its section, leaves every other assignment stored where it was.
   */
  lemma {:induction false} RemovalKeepsStored(s: Schedule, t: Schedule, rk0: Key, pk0: Key)
    requires s.Valid() && t.Valid() && s.TablesAgree()
    requires rk0 in s.table.Pairs() && pk0 in s.table.Pairs()[rk0].Pairs() && rk0 in t.table.Pairs()
    requires t.table.Pairs() == s.table.Pairs()[rk0 := t.table.Pairs()[rk0]]
    requires t.table.Pairs()[rk0].Pairs() == s.table.Pairs()[rk0].Pairs() - {pk0}
    requires t.assignments.Pairs() == s.assignments.Pairs() - {SectionKey(s.table.Pairs()[rk0].Pairs()[pk0].section)}
    ensures forall sk :: sk in t.assignments.Pairs() ==> t.Stored(sk, t.assignments.Pairs()[sk])
  {
    var gone := s.table.Pairs()[rk0].Pairs()[pk0];
    forall sk | sk in t.assignments.Pairs()
      ensures t.Stored(sk, t.assignments.Pairs()[sk])
    {
      var a := s.assignments.Pairs()[sk];
      assert t.assignments.Pairs()[sk] == a;
      assert s.Stored(sk, a);
      assert SectionKey(s.table.Pairs()[RoomKey(a.room)].Pairs()[PeriodKey(a.period)].section) != SectionKey(gone.section);
      StoredAfterRemoval(s, t, rk0, pk0, sk, a);
    }
  }

  /** One assignment stored away from the removed slot is stored after the removal. */
  lemma {:induction false} StoredAfterRemoval(s: Schedule, t: Schedule, rk0: Key, pk0: Key, sk: Key, a: StartAssignment)
    requires s.Valid() && t.Valid() && s.Stored(sk, a)
    requires RoomKey(a.room) != rk0 || PeriodKey(a.period) != pk0
    requires rk0 in s.table.Pairs() && rk0 in t.table.Pairs()
    requires t.table.Pairs() == s.table.Pairs()[rk0 := t.table.Pairs()[rk0]]
    requires t.table.Pairs()[rk0].Pairs() == s.table.Pairs()[rk0].Pairs() - {pk0}
    ensures t.Stored(sk, a)
  {
    var rk := RoomKey(a.room);
    var pk := PeriodKey(a.period);
    if rk == rk0 {
      assert t.table.Pairs()[rk].Pairs()[pk] == s.table.Pairs()[rk].Pairs()[pk];
    } else {
      assert t.table.Pairs()[rk] == s.table.Pairs()[rk];
    }
  }

  /** The same removal leaves every other slot filed under its section's assignment. */
  lemma {:induction false} RemovalKeepsFiled(s: Schedule, t: Schedule, rk0: Key, pk0: Key)
    requires s.Valid() && t.Valid() && s.TablesAgree()
    requires rk0 in s.table.Pairs() && pk0 in s.table.Pairs()[rk0].Pairs() && rk0 in t.table.Pairs()
    requires t.table.Pairs() == s.table.Pairs()[rk0 := t.table.Pairs()[rk0]]
    requires t.table.Pairs()[rk0].Pairs() == s.table.Pairs()[rk0].Pairs() - {pk0}
    requires t.assignments.Pairs() == s.assignments.Pairs() - {SectionKey(s.table.Pairs()[rk0].Pairs()[pk0].section)}
    ensures forall rk, pk :: rk in t.table.Pairs() && pk in t.table.Pairs()[rk].Pairs() ==>
              t.Filed(rk, t.table.Pairs()[rk].Pairs()[pk])
  {
    var gone := s.table.Pairs()[rk0].Pairs()[pk0];
    var sk0 := SectionKey(gone.section);
    assert s.Filed(rk0, gone);
    assert RoomMapOk(s.table.Pairs()[rk0]);
    forall rk, pk | rk in t.table.Pairs() && pk in t.table.Pairs()[rk].Pairs()
      ensures t.Filed(rk, t.table.Pairs()[rk].Pairs()[pk])
    {
      var slot := s.table.Pairs()[rk].Pairs()[pk];
      assert t.table.Pairs()[rk].Pairs()[pk] == slot;
      assert s.Filed(rk, slot);
      assert RoomMapOk(s.table.Pairs()[rk]);
      assert SectionKey(slot.section) != sk0;
    }
  }

  /** Every start the assignment table lists is one StartAssignmentSet.contains finds. */
  lemma {:induction false} AssignmentsContained(s: Schedule, sk: Key)
    requires s.Valid() && s.TablesAgree() && sk in s.assignments.Pairs()
    ensures s.ContainsStart(s.assignments.Pairs()[sk])
  {
    assert s.Stored(sk, s.assignments.Pairs()[sk]);
  }

  /** In agreeing tables, every start in a room is the one its section's assignment names. */
  lemma {:induction false} SlotsFiled(s: Schedule, room: Room, pk: Key)
    requires s.Valid() && s.HasRoom(room) && pk in s.Slots(room)
    ensures s.TablesAgree() ==> s.Filed(RoomKey(room), s.Slots(room)[pk])
  {
  }

  /**
   * Entering a start whose section is not scheduled at a free period keeps the two tables in
   * agreement: the new entries point at each other and every old entry keeps its partner.
   */
  lemma {:induction false} AddedKeepsTablesAgree(s: Schedule, a: StartAssignment, heapKey: int)
    requires s.Valid() && s.HasRoom(a.room) && a.Valid() && s.TablesAgree()
    requires SectionKey(a.section) !in s.assignments.Pairs() && PeriodKey(a.period) !in s.Slots(a.room)
    ensures s.Added(a, heapKey).TablesAgree()
  {
    var t := s.Added(a, heapKey);
    AddedKeepsStored(s, a, heapKey);
    assert s.Slots(a.room) == s.table.Pairs()[RoomKey(a.room)].Pairs();
    assert t.Slots(a.room) == t.table.Pairs()[RoomKey(a.room)].Pairs();
    AdditionKeepsFiled(s, t, a);
  }

  /** The assignment half of AddedKeepsTablesAgree. */
  lemma {:induction false} AddedKeepsStored(s: Schedule, a: StartAssignment, heapKey: int)
    requires s.Valid() && s.HasRoom(a.room) && a.Valid() && s.TablesAgree()
    requires PeriodKey(a.period) !in s.Slots(a.room)
    ensures var t := s.Added(a, heapKey);
            forall sk :: sk in t.assignments.Pairs() ==> t.Stored(sk, t.assignments.Pairs()[sk])
  {
    var t := s.Added(a, heapKey);
    assert s.Slots(a.room) == s.table.Pairs()[RoomKey(a.room)].Pairs();
    assert t.Slots(a.room) == t.table.Pairs()[RoomKey(a.room)].Pairs();
    AdditionKeepsStored(s, t, a);
  }

  /**
   * Filing a at its room and period, at a period that was free, leaves every assignment
   * stored where it was and stores a.
   */
  lemma {:induction false} AdditionKeepsStored(s: Schedule, t: Schedule, a: StartAssignment)
    requires s.Valid() && t.Valid() && s.TablesAgree()
    requires RoomKey(a.room) in s.table.Pairs() && RoomKey(a.room) in t.table.Pairs()
    requires PeriodKey(a.period) !in s.table.Pairs()[RoomKey(a.room)].Pairs()
    requires t.table.Pairs() == s.table.Pairs()[RoomKey(a.room) := t.table.Pairs()[RoomKey(a.room)]]
    requires t.table.Pairs()[RoomKey(a.room)].Pairs()
          == s.table.Pairs()[RoomKey(a.room)].Pairs()[PeriodKey(a.period) := Slot(a.period, a.section)]
    requires t.assignments.Pairs() == s.assignments.Pairs()[SectionKey(a.section) := a]
    ensures forall sk :: sk in t.assignments.Pairs() ==> t.Stored(sk, t.assignments.Pairs()[sk])
  {
    forall sk | sk in t.assignments.Pairs()
      ensures t.Stored(sk, t.assignments.Pairs()[sk])
    {
      if sk != SectionKey(a.section) {
        var b := s.assignments.Pairs()[sk];
        assert s.Stored(sk, b);
        StoredAfterAddition(s, t, a, sk, b);
      }
    }
  }

  /** One assignment other than a, stored before the filing, is stored after it. */
  lemma {:induction false} StoredAfterAddition(s: Schedule, t: Schedule, a: StartAssignment, sk: Key, b: StartAssignment)
    requires s.Valid() && t.Valid() && s.Stored(sk, b)
    requires RoomKey(a.room) in s.table.Pairs() && RoomKey(a.room) in t.table.Pairs()
    requires PeriodKey(a.period) !in s.table.Pairs()[RoomKey(a.room)].Pairs()
    requires t.table.Pairs() == s.table.Pairs()[RoomKey(a.room) := t.table.Pairs()[RoomKey(a.room)]]
    requires t.table.Pairs()[RoomKey(a.room)].Pairs()
          == s.table.Pairs()[RoomKey(a.room)].Pairs()[PeriodKey(a.period) := Slot(a.period, a.section)]
    ensures t.Stored(sk, b)
  {
    var rk := RoomKey(b.room);
    var pk := PeriodKey(b.period);
    if rk == RoomKey(a.room) {
      assert pk != PeriodKey(a.period);
      assert t.table.Pairs()[rk].Pairs()[pk] == s.table.Pairs()[rk].Pairs()[pk];
    } else {
      assert t.table.Pairs()[rk] == s.table.Pairs()[rk];
    }
  }

  /** The same filing, of a section not yet scheduled, leaves every slot filed, a's included. */
  lemma {:induction false} AdditionKeepsFiled(s: Schedule, t: Schedule, a: StartAssignment)
    requires s.Valid() && t.Valid() && s.TablesAgree()
    requires SectionKey(a.section) !in s.assignments.Pairs()
    requires RoomKey(a.room) in s.table.Pairs() && RoomKey(a.room) in t.table.Pairs()
    requires t.table.Pairs() == s.table.Pairs()[RoomKey(a.room) := t.table.Pairs()[RoomKey(a.room)]]
    requires t.table.Pairs()[RoomKey(a.room)].Pairs()
          == s.table.Pairs()[RoomKey(a.room)].Pairs()[PeriodKey(a.period) := Slot(a.period, a.section)]
    requires t.assignments.Pairs() == s.assignments.Pairs()[SectionKey(a.section) := a]
    ensures forall rk, pk :: rk in t.table.Pairs() && pk in t.table.Pairs()[rk].Pairs() ==>
              t.Filed(rk, t.table.Pairs()[rk].Pairs()[pk])
  {
    forall rk, pk | rk in t.table.Pairs() && pk in t.table.Pairs()[rk].Pairs()
      ensures t.Filed(rk, t.table.Pairs()[rk].Pairs()[pk])
    {
      if rk != RoomKey(a.room) || pk != PeriodKey(a.period) {
        var slot := s.table.Pairs()[rk].Pairs()[pk];
        assert t.table.Pairs()[rk].Pairs()[pk] == slot;
        assert s.Filed(rk, slot);
        FiledAfterAddition(s, t, a, rk, slot);
      }
    }
  }

  /** One slot filed before the filing of a new section is filed after it. */
  lemma {:induction false} FiledAfterAddition(s: Schedule, t: Schedule, a: StartAssignment, rk: Key, slot: Slot)
    requires s.Valid() && t.Valid() && s.Filed(rk, slot)
    requires SectionKey(a.section) !in s.assignments.Pairs()
    requires t.assignments.Pairs() == s.assignments.Pairs()[SectionKey(a.section) := a]
    ensures t.Filed(rk, slot)
  {
    var sk := SectionKey(slot.section);
    assert sk != SectionKey(a.section);
    assert t.assignments.Pairs()[sk] == s.assignments.Pairs()[sk];
  }
}
