/**
 * The older mutable schedule (MutableSchedule.java): a (time block, room) table of course
 * assignments beside a course -> assignment map, updated in place by assign and remove.
 *
 * The table is a Guava Table. create(program) builds an ArrayTable over the program's time
 * blocks and rooms, whose contains(row, column) is true for every cell of those key sets
 * (whether or not it holds a value) and whose remove is unsupported; create(schedule) copies
 * into a HashBasedTable, whose contains means "holds a value". Both backings are modelled.
 */
module LegacySchedule {
  import opened Wrappers
  import opened Errors

  /** ScheduleAssignment: a course in a time block and a room, all by id. */
  datatype Assignment = Assignment(course: int, block: int, room: int) {
    function At(): Cell {
      Cell(block, room)
    }
  }

  datatype Cell = Cell(block: int, room: int)

  /** Which Guava table backs the schedule. */
  datatype Backing = HashBacked | ArrayBacked(blocks: set<int>, rooms: set<int>)

  /** The schedule's state: the table and the course map. */
  datatype Tables = Tables(backing: Backing, table: map<Cell, Assignment>, courses: map<int, Assignment>)

  /** What an operation threw, if anything, and the state it left behind. */
  datatype Outcome = Outcome(error: Option<JavaError>, after: Tables)

  /** Table.contains(block, room) for the backing in use. */
  function Contains(t: Tables, cell: Cell): (b: bool)
    ensures t.backing.HashBacked? ==> (b <==> cell in t.table)
    ensures t.backing.ArrayBacked? ==> (b <==> cell.block in t.backing.blocks && cell.room in t.backing.rooms)
  {
    match t.backing
    case HashBacked => cell in t.table
    case ArrayBacked(blocks, rooms) => cell.block in blocks && cell.room in rooms
  }

  /** The table and the course map describe the same assignments. */
  ghost predicate Consistent(t: Tables) {
    && (forall c :: c in t.courses ==>
          t.courses[c].course == c && t.courses[c].At() in t.table && t.table[t.courses[c].At()] == t.courses[c])
    && (forall cell :: cell in t.table ==>
          t.table[cell].At() == cell && t.table[cell].course in t.courses && t.courses[t.table[cell].course] == t.table[cell])
  }

  /**
   * assign(a): IllegalStateException when the cell is taken (by Table.contains) or the course
   * already has an assignment; otherwise the course map and then the table receive a. An
   * ArrayTable refuses a cell outside its key sets with IllegalArgumentException after the
   * course map has already been updated.
   */
  function AssignStep(t: Tables, a: Assignment): (o: Outcome)
    ensures o.error.None? <==> t.backing.HashBacked? && a.At() !in t.table && a.course !in t.courses
    ensures o.error.None? ==> o.after == t.(table := t.table[a.At() := a], courses := t.courses[a.course := a])
    ensures o.error.Some? && (Contains(t, a.At()) || a.course in t.courses) ==>
              o.error == Some(IllegalState) && o.after == t
    ensures o.after.backing == t.backing
  {
    if Contains(t, a.At()) || a.course in t.courses then Outcome(Some(IllegalState), t)
    else if t.backing.ArrayBacked? then Outcome(Some(IllegalArgument), t.(courses := t.courses[a.course := a]))
    else Outcome(None, t.(table := t.table[a.At() := a], courses := t.courses[a.course := a]))
  }

  /**
   * remove(a): NullPointerException when the course has no assignment,
   * IllegalArgumentException when it has another one, UnsupportedOperationException from an
   * ArrayTable; otherwise the cell and the course entry are both cleared.
   */
  function RemoveStep(t: Tables, a: Assignment): (o: Outcome)
    ensures o.error.None? <==> a.course in t.courses && t.courses[a.course] == a && t.backing.HashBacked?
    ensures o.error.None? ==> o.after == t.(table := t.table - {a.At()}, courses := t.courses - {a.course})
    ensures o.error.Some? ==> o.after == t
    ensures a.course !in t.courses ==> o.error == Some(NullPointer)
    ensures a.course in t.courses && t.courses[a.course] != a ==> o.error == Some(IllegalArgument)
  {
    if a.course !in t.courses then Outcome(Some(NullPointer), t)
    else if t.courses[a.course] != a then Outcome(Some(IllegalArgument), t)
    else if t.backing.ArrayBacked? then Outcome(Some(UnsupportedOperation), t)
    else Outcome(None, t.(table := t.table - {a.At()}, courses := t.courses - {a.course}))
  }

  /** A successful assign keeps the two tables in agreement. */
  lemma AssignKeepsConsistent(t: Tables, a: Assignment)
    requires Consistent(t) && AssignStep(t, a).error.None?
    ensures Consistent(AssignStep(t, a).after)
  {
    var u := AssignStep(t, a).after;
    forall c | c in u.courses
      ensures u.courses[c].course == c && u.courses[c].At() in u.table && u.table[u.courses[c].At()] == u.courses[c]
    {
      if c != a.course {
        assert u.courses[c] == t.courses[c];
        assert t.courses[c].At() != a.At();
      }
    }
    forall cell | cell in u.table
      ensures u.table[cell].At() == cell && u.table[cell].course in u.courses && u.courses[u.table[cell].course] == u.table[cell]
    {
      if cell != a.At() {
        assert t.table[cell].course != a.course;
      }
    }
  }

  /** A successful remove keeps the two tables in agreement. */
  lemma RemoveKeepsConsistent(t: Tables, a: Assignment)
    requires Consistent(t) && RemoveStep(t, a).error.None?
    ensures Consistent(RemoveStep(t, a).after)
  {
    var u := RemoveStep(t, a).after;
    forall cell | cell in u.table
      ensures u.table[cell].At() == cell && u.table[cell].course in u.courses && u.courses[u.table[cell].course] == u.table[cell]
    {
      assert t.table[cell].course != a.course;
    }
  }

  /** On a consistent hash-backed schedule, assign followed by remove restores the prior state. */
  lemma AssignThenRemove(t: Tables, a: Assignment)
    requires Consistent(t) && AssignStep(t, a).error.None?
    ensures RemoveStep(AssignStep(t, a).after, a) == Outcome(None, t)
  {
    var u := AssignStep(t, a).after;
    assert u.table - {a.At()} == t.table;
    assert u.courses - {a.course} == t.courses;
  }

  /**
   * On the ArrayTable built by create(program), assign never succeeds: a cell of the
   * program's blocks and rooms always counts as taken, and any other cell is refused by the
   * table after the course map was changed, leaving the two tables in disagreement.
   */
  lemma AssignOnArrayTableFails(blocks: set<int>, rooms: set<int>, a: Assignment)
    ensures var o := AssignStep(Tables(ArrayBacked(blocks, rooms), map[], map[]), a);
            && o.error.Some?
            && (a.block in blocks && a.room in rooms ==> o.error == Some(IllegalState))
            && (a.block !in blocks || a.room !in rooms ==> !Consistent(o.after))
  {
    var o := AssignStep(Tables(ArrayBacked(blocks, rooms), map[], map[]), a);
    if a.block !in blocks || a.room !in rooms {
      assert a.course in o.after.courses && a.At() !in o.after.table;
    }
  }

  /** MutableSchedule: the two tables, updated in place. */
  class MutableSchedule {
    const program: int
    const backing: Backing
    var table: map<Cell, Assignment>
    var courses: map<int, Assignment>

    function State(): Tables
      reads this
    {
      Tables(backing, table, courses)
    }

    /** create(program): an ArrayTable over the program's time blocks and rooms, both empty. */
    constructor Create(program: int, blocks: set<int>, rooms: set<int>)
      ensures this.program == program
      ensures State() == Tables(ArrayBacked(blocks, rooms), map[], map[])
      ensures Consistent(State())
    {
      this.program := program;
      backing := ArrayBacked(blocks, rooms);
      table := map[];
      courses := map[];
    }

    /** create(schedule): hash-backed copies of the schedule's table and course map. */
    constructor CopyOf(program: int, table: map<Cell, Assignment>, courses: map<int, Assignment>)
      ensures this.program == program
      ensures State() == Tables(HashBacked, table, courses)
    {
      this.program := program;
      backing := HashBacked;
      this.table := table;
      this.courses := courses;
    }

    method Assign(a: Assignment) returns (error: Option<JavaError>)
      modifies this
      ensures error == AssignStep(old(State()), a).error
      ensures State() == AssignStep(old(State()), a).after
    {
      if Contains(State(), a.At()) || a.course in courses {
        return Some(IllegalState);
      }
      courses := courses[a.course := a];
      if backing.ArrayBacked? {
        return Some(IllegalArgument);
      }
      table := table[a.At() := a];
      return None;
    }

    method Remove(a: Assignment) returns (error: Option<JavaError>)
      modifies this
      ensures error == RemoveStep(old(State()), a).error
      ensures State() == RemoveStep(old(State()), a).after
    {
      if a.course !in courses {
        return Some(NullPointer);
      }
      if courses[a.course] != a {
        return Some(IllegalArgument);
      }
      if backing.ArrayBacked? {
        return Some(UnsupportedOperation);
      }
      table := table - {a.At()};
      courses := courses - {a.course};
      return None;
    }
  }
}

/**
 * The old Program (Program.java): id maps built from lists, the time blocks ordered by
 * following their prev/next links, and a list's reverse index.
 */
module LegacyProgram {
  import opened Wrappers
  import opened Errors

  /** Serial.TimeBlock: an id and optional links to the previous and next block. */
  datatype SerialBlock = SerialBlock(blockId: int, prevTime: Option<int>, nextTime: Option<int>)

  /** get(map, key): the value, or NoSuchElementException. */
  function Get<T>(m: map<int, T>, key: int): (r: Result<T, JavaError>)
    ensures r.Success? <==> key in m
    ensures r.Success? ==> r.value == m[key]
    ensures r.Failure? ==> r.error == NoSuchElement
  {
    if key in m then Success(m[key]) else Failure(NoSuchElement)
  }

  /**
   * set(map, key, value) as written: the value is stored under the key (replacing any earlier
   * one), and only a null value throws IllegalArgumentException.
   */
  function Set<T>(m: map<int, T>, key: int, value: Option<T>): (r: Result<map<int, T>, JavaError>)
    ensures r.Success? <==> value.Some?
    ensures r.Success? ==> r.value == m[key := value.value]
    ensures r.Failure? ==> r.error == IllegalArgument
  {
    if value.None? then Failure(IllegalArgument) else Success(m[key := value.value])
  }

  /** The intended set: a key already present is a duplicate and throws. */
  function SetChecked<T>(m: map<int, T>, key: int, value: Option<T>): (r: Result<map<int, T>, JavaError>)
    ensures r.Success? <==> value.Some? && key !in m
    ensures r.Success? ==> r.value == m[key := value.value] && |r.value| == |m| + 1
    ensures r.Failure? ==> r.error == IllegalArgument
  {
    if value.None? || key in m then Failure(IllegalArgument) else Success(m[key := value.value])
  }

  /** An element of a collection: its id (HasUID.getId) and the object itself; None is a null element. */
  datatype Item<T> = Item(id: int, value: T)

  /** No two non-null elements share an id. */
  predicate DistinctIds<T>(items: seq<Option<Item<T>>>) {
    forall i, j :: 0 <= i < j < |items| && items[i].Some? && items[j].Some? ==> items[i].value.id != items[j].value.id
  }

  /** No element is null. */
  predicate NoNulls<T>(items: seq<Option<Item<T>>>) {
    forall i :: 0 <= i < |items| ==> items[i].Some?
  }

  /** The ids of the non-null elements. */
  function Ids<T>(items: seq<Option<Item<T>>>): set<int> {
    set i | 0 <= i < |items| && items[i].Some? :: items[i].value.id
  }

  /** The ids of the non-null elements among the first i. */
  function PrefixIds<T>(items: seq<Option<Item<T>>>, i: nat): set<int>
    requires i <= |items|
  {
    set j | 0 <= j < i && items[j].Some? :: items[j].value.id
  }

  /** PrefixIds is Ids of the prefix. */
  lemma PrefixIdsSlice<T>(items: seq<Option<Item<T>>>, i: nat)
    requires i <= |items|
    ensures PrefixIds(items, i) == Ids(items[..i])
  {
    assert forall j :: 0 <= j < i ==> items[..i][j] == items[j];
  }

  /** One more present element adds its id. */
  lemma IdsGrow<T>(items: seq<Option<Item<T>>>, i: nat)
    requires i < |items| && items[i].Some?
    ensures PrefixIds(items, i + 1) == PrefixIds(items, i) + {items[i].value.id}
  {
    var ids := PrefixIds(items, i + 1);
    forall x | x in ids
      ensures x in PrefixIds(items, i) + {items[i].value.id}
    {
      var j :| 0 <= j < i + 1 && items[j].Some? && items[j].value.id == x;
    }
  }

  /** The last object given for each id (the map makeIdMap builds as written); null elements are skipped. */
  ghost function LastValues<T>(items: seq<Option<Item<T>>>): map<int, T> {
    if items == [] then map[]
    else
      var front := LastValues(items[..|items| - 1]);
      var last := items[|items| - 1];
      if last.Some? then front[last.value.id := last.value.value] else front
  }

  /**
   * makeIdMap as written: set(map, t.getId(), t) for every element in order. A null element
   * throws NullPointerException at getId; otherwise set never throws (its value is the element
   * itself), each id maps to the object of its last element, and a repeated id is not detected.
   */
  method MakeIdMap<T>(items: seq<Option<Item<T>>>) returns (r: Result<map<int, T>, JavaError>)
    ensures r.Success? <==> NoNulls(items)
    ensures r.Success? ==> r.value == LastValues(items) && r.value.Keys == Ids(items)
    ensures r.Failure? ==> r.error == NullPointer
  {
    var m: map<int, T> := map[];
    for i := 0 to |items|
      invariant NoNulls(items[..i])
      invariant m == LastValues(items[..i])
      invariant m.Keys == PrefixIds(items, i)
    {
      assert items[..i + 1][..i] == items[..i];
      if items[i].None? {
        return Failure(NullPointer);
      }
      var next := Set(m, items[i].value.id, Some(items[i].value.value));
      m := next.value;
      IdsGrow(items, i);
    }
    assert items[..|items|] == items;
    PrefixIdsSlice(items, |items|);
    return Success(m);
  }

  /**
   * Element f is the first one makeIdMapChecked refuses, with the given exception: every earlier
   * element is present with a new id, and f is null or repeats an earlier id.
   */
  predicate FirstFailure<T>(items: seq<Option<Item<T>>>, f: int, e: JavaError) {
    && 0 <= f < |items|
    && NoNulls(items[..f]) && DistinctIds(items[..f])
    && if items[f].None? then e == NullPointer
       else e == IllegalArgument && items[f].value.id in Ids(items[..f])
  }

  /**
   * makeIdMap with the intended duplicate check. It succeeds exactly when no element is null and
   * the ids are distinct; otherwise it stops at the first element that is null (NullPointerException)
   * or repeats an earlier id (IllegalArgumentException).
   */
  method MakeIdMapChecked<T>(items: seq<Option<Item<T>>>) returns (r: Result<map<int, T>, JavaError>)
    ensures r.Success? <==> NoNulls(items) && DistinctIds(items)
    ensures r.Success? ==> forall i :: 0 <= i < |items| ==> items[i].value.id in r.value && r.value[items[i].value.id] == items[i].value.value
    ensures r.Success? ==> |r.value| == |items|
    ensures r.Failure? ==> exists f :: FirstFailure(items, f, r.error)
  {
    var m: map<int, T> := map[];
    for i := 0 to |items|
      invariant NoNulls(items[..i]) && DistinctIds(items[..i])
      invariant m == LastValues(items[..i])
      invariant m.Keys == PrefixIds(items, i)
    {
      assert items[..i + 1][..i] == items[..i];
      if items[i].None? {
        StopsAt(items, i);
        return Failure(NullPointer);
      }
      var next := SetChecked(m, items[i].value.id, Some(items[i].value.value));
      if next.Failure? {
        StopsAt(items, i);
        return Failure(IllegalArgument);
      }
      m := next.value;
      DistinctGrow(items, i);
      IdsGrow(items, i);
    }
    assert items[..|items|] == items;
    DistinctValues(items);
    return Success(m);
  }

  /** The element where makeIdMapChecked's loop stops is its first failure, and the input is not clean. */
  lemma StopsAt<T>(items: seq<Option<Item<T>>>, i: nat)
    requires i < |items|
    requires NoNulls(items[..i]) && DistinctIds(items[..i])
    requires items[i].Some? ==> items[i].value.id in PrefixIds(items, i)
    ensures !(NoNulls(items) && DistinctIds(items))
    ensures FirstFailure(items, i, if items[i].None? then NullPointer else IllegalArgument)
  {
    PrefixIdsSlice(items, i);
    if items[i].Some? {
      var j :| 0 <= j < i && items[j].Some? && items[j].value.id == items[i].value.id;
      assert !DistinctIds(items);
    }
  }

  /** An element whose id is not among the earlier ones keeps the prefix clean. */
  lemma DistinctGrow<T>(items: seq<Option<Item<T>>>, i: nat)
    requires i < |items| && items[i].Some?
    requires NoNulls(items[..i]) && DistinctIds(items[..i])
    requires items[i].value.id !in PrefixIds(items, i)
    ensures NoNulls(items[..i + 1]) && DistinctIds(items[..i + 1])
  {
    var a := items[..i + 1];
    assert forall j :: 0 <= j < i ==> a[j] == items[..i][j] == items[j];
    forall j, k | 0 <= j < k < i + 1 && a[j].Some? && a[k].Some?
      ensures a[j].value.id != a[k].value.id
    {
      if k == i {
        assert items[j].value.id in PrefixIds(items, i);
      }
    }
  }

  /** With no nulls and distinct ids, the map as written holds every element's object under its id. */
  lemma {:induction false} DistinctValues<T>(items: seq<Option<Item<T>>>)
    requires NoNulls(items) && DistinctIds(items)
    ensures forall i :: 0 <= i < |items| ==>
                          items[i].value.id in LastValues(items) && LastValues(items)[items[i].value.id] == items[i].value.value
    ensures |LastValues(items)| == |items|
  {
    if items != [] {
      var front := items[..|items| - 1];
      var last := items[|items| - 1];
      assert forall j :: 0 <= j < |front| ==> front[j] == items[j];
      DistinctValues(front);
      forall j | 0 <= j < |front|
        ensures front[j].value.id != last.value.id
      {
        assert items[j].value.id != items[|items| - 1].value.id;
      }
      LastValuesKeys(front);
      assert last.value.id !in Ids(front);
    }
  }

  /** The keys of the map as written are the ids of the non-null elements. */
  lemma {:induction false} LastValuesKeys<T>(items: seq<Option<Item<T>>>)
    ensures LastValues(items).Keys == Ids(items)
  {
    if items != [] {
      var front := items[..|items| - 1];
      LastValuesKeys(front);
      assert forall j :: 0 <= j < |front| ==> front[j] == items[j];
      assert Ids(items) == Ids(front) + (if items[|items| - 1].Some? then {items[|items| - 1].value.id} else {});
    }
  }

  /** Two objects with one id: makeIdMap as written keeps the second silently, the checked one throws. */
  lemma DuplicateIdOverwrites<T>(x: T, y: T)
    ensures LastValues([Some(Item(5, x)), Some(Item(5, y))]) == map[5 := y]
    ensures !DistinctIds([Some(Item(5, x)), Some(Item(5, y))])
  {
    var items := [Some(Item(5, x)), Some(Item(5, y))];
    assert items[..1] == [Some(Item(5, x))];
    assert items[..1][..0] == [];
    assert LastValues(items[..1]) == map[5 := x];
  }

  /**
   * reverseIndex(list): element i maps to i. ImmutableMap.Builder.build throws
   * IllegalArgumentException on a repeated key.
   */
  method ReverseIndex<E(==)>(list: seq<E>) returns (r: Result<map<E, int>, JavaError>)
    ensures r.Success? <==> forall i, j :: 0 <= i < j < |list| ==> list[i] != list[j]
    ensures r.Success? ==> r.value.Keys == set x | x in list
    ensures r.Success? ==> forall i :: 0 <= i < |list| ==> r.value[list[i]] == i
    ensures r.Failure? ==> r.error == IllegalArgument
  {
    var m: map<E, int> := map[];
    var duplicate := false;
    for i := 0 to |list|
      invariant m.Keys == set x | x in list[..i]
      invariant !duplicate <==> forall j, k :: 0 <= j < k < i ==> list[j] != list[k]
      invariant !duplicate ==> forall j :: 0 <= j < i ==> m[list[j]] == j
    {
      if list[i] in m {
        duplicate := true;
      }
      m := m[list[i] := i];
      assert list[..i + 1] == list[..i] + [list[i]];
    }
    assert list[..|list|] == list;
    if duplicate {
      return Failure(IllegalArgument);
    }
    return Success(m);
  }

  /** The block reached from b after n steps along prevTime links, if every step resolves. */
  function PrevWalk(blocks: map<int, SerialBlock>, b: SerialBlock, n: nat): Option<SerialBlock> {
    if n == 0 then Some(b)
    else match PrevWalk(blocks, b, n - 1)
      case None => None
      case Some(c) =>
        if c.prevTime.Some? && c.prevTime.value in blocks then Some(blocks[c.prevTime.value]) else None
  }

  /** How a loop that may not end finishes: with a value, with an exception, or never. */
  datatype Run<T> = Done(value: T) | Throws(error: JavaError) | Unending

  /**
   * firstTimeBlock: from `any` (the map's first value in iteration order), follow prevTime
   * links until a block has none. A link to a missing id yields null and the next hasPrevTime
   * throws NullPointerException; an empty map throws NoSuchElementException. A walk still
   * going after |blocks| steps is going round a cycle, where the Java loop never ends.
   */
  method FirstTimeBlock(blocks: map<int, SerialBlock>, any: Option<SerialBlock>) returns (w: Run<SerialBlock>)
    requires any.Some? <==> blocks != map[]
    requires any.Some? ==> any.value in blocks.Values
    ensures blocks == map[] ==> w == Throws(NoSuchElement)
    ensures w.Done? ==> exists n :: 0 <= n <= |blocks| && PrevWalk(blocks, any.value, n) == Some(w.value)
    ensures w.Done? ==> w.value.prevTime.None? && w.value in blocks.Values
    ensures w.Throws? && blocks != map[] ==>
              && w.error == NullPointer
              && exists n :: 0 <= n <= |blocks| && PrevWalk(blocks, any.value, n).Some?
                             && PrevWalk(blocks, any.value, n).value.prevTime.Some?
                             && PrevWalk(blocks, any.value, n).value.prevTime.value !in blocks
    ensures w.Unending? ==> forall n :: 0 <= n <= |blocks| ==>
              PrevWalk(blocks, any.value, n).Some? && PrevWalk(blocks, any.value, n).value.prevTime.Some?
  {
    if any.None? {
      return Throws(NoSuchElement);
    }
    var current := any.value;
    var steps := 0;
    while current.prevTime.Some?
      invariant 0 <= steps <= |blocks|
      invariant PrevWalk(blocks, any.value, steps) == Some(current)
      invariant current in blocks.Values
      invariant forall n :: 0 <= n < steps ==>
                  PrevWalk(blocks, any.value, n).Some? && PrevWalk(blocks, any.value, n).value.prevTime.Some?
      decreases |blocks| - steps
    {
      if current.prevTime.value !in blocks {
        return Throws(NullPointer);
      }
      if steps == |blocks| {
        return Unending;
      }
      current := blocks[current.prevTime.value];
      steps := steps + 1;
    }
    return Done(current);
  }

  /** The blocks are chained by nextTime: each next one is the block its predecessor names. */
  ghost predicate Chained(blocks: map<int, SerialBlock>, order: seq<SerialBlock>) {
    forall i :: 0 <= i < |order| - 1 ==>
      order[i].nextTime.Some? && order[i].nextTime.value in blocks && order[i + 1] == blocks[order[i].nextTime.value]
  }

  /**
   * orderedTimeBlocks: from the first block, follow nextTime links, each looked up with get
   * (NoSuchElementException for a missing id). With Java assertions enabled, the first block
   * must have no predecessor and each next block must name the current one as its prevTime,
   * or AssertionError is thrown. A chain longer than |blocks| + 1 goes round a cycle, where
   * the Java loop never ends; `walked` is the chain followed.
   */
  method OrderedTimeBlocks(blocks: map<int, SerialBlock>, first: SerialBlock, assertions: bool)
    returns (r: Run<seq<SerialBlock>>, walked: seq<SerialBlock>)
    requires first in blocks.Values
    ensures |walked| >= 1 && walked[0] == first && Chained(blocks, walked)
    ensures assertions && !r.Throws? ==>
              first.prevTime.None? && forall i :: 0 < i < |walked| ==> walked[i].prevTime == Some(walked[i - 1].blockId)
    ensures r.Done? ==> r.value == walked && walked[|walked| - 1].nextTime.None?
    ensures r.Throws? ==> r.error == NoSuchElement || (assertions && r.error == AssertionFailed)
    ensures r.Throws? && r.error == NoSuchElement ==>
              walked[|walked| - 1].nextTime.Some? && walked[|walked| - 1].nextTime.value !in blocks
    ensures r.Unending? ==> |walked| == |blocks| + 1 && walked[|walked| - 1].nextTime.Some?
  {
    walked := [first];
    if assertions && first.prevTime.Some? {
      return Throws(AssertionFailed), walked;
    }
    var current := first;
    while current.nextTime.Some?
      invariant 1 <= |walked| <= |blocks| + 1
      invariant walked[0] == first && walked[|walked| - 1] == current && Chained(blocks, walked)
      invariant assertions ==> forall i :: 0 < i < |walked| ==> walked[i].prevTime == Some(walked[i - 1].blockId)
      decreases |blocks| + 1 - |walked|
    {
      var next := Get(blocks, current.nextTime.value);
      if next.Failure? {
        return Throws(next.error), walked;
      }
      if assertions && next.value.prevTime != Some(current.blockId) {
        return Throws(AssertionFailed), walked;
      }
      if |walked| == |blocks| + 1 {
        return Unending, walked;
      }
      walked := walked + [next.value];
      current := next.value;
    }
    return Done(walked), walked;
  }
}
