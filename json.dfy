/**
 * The id and text normalisation done while reading a program from the registration site's
 * JSON (json/JsonProgramProvider.java): the weighted edit distance used to match resource
 * requests, dense subject ids, merging of base records, sorted id lists, and the grouping of
 * rooms into buildings.
 */
module JsonProgram {
  import opened Wrappers
  import opened Errors
  import opened Text
  import opened Sequences

  // ---------------------------------------------------------------------------------------
  // Weighted edit distance

  function Min(x: int, y: int): int {
    if x <= y then x else y
  }

  /**
   * The table entry arr[i][j] of levenshtein(a, b): dropping a character of a is free, inserting
   * a character of b costs 1, and replacing one costs 5.
   */
  function Lev(a: string, b: string, i: nat, j: nat): int
    requires i <= |a| && j <= |b|
  {
    if i == 0 then j
    else if j == 0 then i
    else Min(Lev(a, b, i - 1, j), Min(Lev(a, b, i, j - 1) + 1, Lev(a, b, i - 1, j - 1) + (if a[i - 1] == b[j - 1] then 0 else 5)))
  }

  /** levenshtein(a, b). */
  function EditCost(a: string, b: string): int {
    Lev(a, b, |a|, |b|)
  }

  /**
   * Every entry is at least 0 and at most the length of b's prefix, except in column 0, which
   * the first loop fills with the length of a's prefix.
   */
  lemma {:induction false} LevBounds(a: string, b: string, i: nat, j: nat)
    requires i <= |a| && j <= |b|
    ensures 0 <= Lev(a, b, i, j) <= (if j == 0 then i else j)
  {
    if i != 0 && j != 0 {
      LevBounds(a, b, i - 1, j);
      LevBounds(a, b, i, j - 1);
      LevBounds(a, b, i - 1, j - 1);
    }
  }

  /** A string is at distance 0 from itself. */
  lemma {:induction false} LevSelf(a: string, i: nat)
    requires i <= |a|
    ensures Lev(a, a, i, i) == 0
  {
    if i != 0 {
      LevSelf(a, i - 1);
      LevBounds(a, a, i, i);
    }
  }

  /** levenshtein(a, b) lies between 0 and |b| for a non-empty b, is |a| for an empty b, and is 0 for b == a. */
  lemma {:induction false} EditCostBounds(a: string, b: string)
    ensures b != [] ==> 0 <= EditCost(a, b) <= |b|
    ensures b == [] ==> EditCost(a, b) == |a|
    ensures EditCost(a, a) == 0
  {
    LevBounds(a, b, |a|, |b|);
    LevSelf(a, |a|);
  }

  /** levenshtein fills the table row by row and returns its last entry. */
  method Levenshtein(a: string, b: string) returns (d: int)
    ensures d == EditCost(a, b)
  {
    var arr := new int[|a| + 1, |b| + 1];
    for i := 0 to |a| + 1
      invariant forall r :: 0 <= r < i ==> arr[r, 0] == r
    {
      arr[i, 0] := i;
    }
    for j := 0 to |b| + 1
      invariant forall r :: 0 <= r <= |a| ==> arr[r, 0] == r
      invariant forall c :: 0 <= c < j ==> arr[0, c] == c
    {
      arr[0, j] := j;
    }
    for i := 1 to |a| + 1
      invariant forall r, c {:trigger arr[r, c]} :: 0 <= r < i && 0 <= c <= |b| ==> arr[r, c] == Lev(a, b, r, c)
      invariant forall r :: 0 <= r <= |a| ==> arr[r, 0] == r
    {
      for j := 1 to |b| + 1
        invariant forall r, c {:trigger arr[r, c]} :: 0 <= r < i && 0 <= c <= |b| ==> arr[r, c] == Lev(a, b, r, c)
        invariant forall r :: 0 <= r <= |a| ==> arr[r, 0] == r
        invariant forall c {:trigger arr[i, c]} :: 0 <= c < j ==> arr[i, c] == Lev(a, b, i, c)
      {
        assert arr[i - 1, j] == Lev(a, b, i - 1, j) && arr[i - 1, j - 1] == Lev(a, b, i - 1, j - 1);
        assert arr[i, j - 1] == Lev(a, b, i, j - 1);
        arr[i, j] := Min(arr[i - 1, j], Min(arr[i, j - 1] + 1, arr[i - 1, j - 1] + (if a[i - 1] == b[j - 1] then 0 else 5)));
      }
    }
    d := arr[|a|, |b|];
  }

  // ---------------------------------------------------------------------------------------
  // Resource requests

  /** A resource of the table read from the JSON: its id, attribute and "name_attribute" description. */
  datatype Resource = Resource(id: int, attr: string, description: string)

  predicate UniqueAttrs(row: seq<Resource>) {
    forall i, j :: 0 <= i < j < |row| ==> row[i].attr != row[j].attr
  }

  /** resourceTable.row(id): the resources filed under the id, empty when there are none. */
  function Row(table: map<int, seq<Resource>>, resId: int): (row: seq<Resource>)
    ensures row == [] || (resId in table && row == table[resId])
  {
    if resId in table then table[resId] else []
  }

  /** The edit cost of each resource's description against the requested value. */
  function Costs(row: seq<Resource>, value: string): (costs: seq<int>)
    ensures |costs| == |row| && forall i :: 0 <= i < |row| ==> costs[i] == EditCost(row[i].description, value)
  {
    seq(|row|, i requires 0 <= i < |row| => EditCost(row[i].description, value))
  }

  /** k holds the least cost, and no earlier position does (Ordering.min keeps the first least). */
  predicate FirstMinimum(costs: seq<int>, k: int) {
    && 0 <= k < |costs|
    && (forall i :: 0 <= i < |costs| ==> costs[k] <= costs[i])
    && (forall i :: 0 <= i < k ==> costs[k] < costs[i])
  }

  function FirstMinIndex(costs: seq<int>): (k: int)
    requires costs != []
    ensures FirstMinimum(costs, k)
  {
    if |costs| == 1 then 0
    else
      var front := costs[..|costs| - 1];
      var k := FirstMinIndex(front);
      assert forall i :: 0 <= i < |front| ==> front[i] == costs[i];
      if costs[|costs| - 1] < costs[k] then |costs| - 1 else k
  }

  /** The position of the resource whose attribute is the value, if any. */
  function FindAttr(row: seq<Resource>, value: string): (r: Option<nat>)
    ensures r.Some? ==> r.value < |row| && row[r.value].attr == value
    ensures r.None? ==> forall i :: 0 <= i < |row| ==> row[i].attr != value
  {
    if row == [] then None
    else if row[0].attr == value then Some(0)
    else match FindAttr(row[1..], value)
         case None => None
         case Some(k) => Some(k + 1)
  }

  /**
   * One resource request of parseSection: an empty value is skipped; a resource with exactly
   * that attribute is taken; otherwise the first resource of the row with the least edit cost
   * from its description to the value, and nothing when the row is empty.
   */
  function Resolve(row: seq<Resource>, value: string): (r: Option<int>)
    requires UniqueAttrs(row)
    ensures value == [] ==> r == None
    ensures value != [] ==> forall i :: 0 <= i < |row| && row[i].attr == value ==> r == Some(row[i].id)
    ensures value != [] && (forall i :: 0 <= i < |row| ==> row[i].attr != value) ==>
              (r.Some? <==> row != []) && (r.Some? ==> exists k :: FirstMinimum(Costs(row, value), k) && r.value == row[k].id)
  {
    if value == [] then None
    else match FindAttr(row, value)
         case Some(k) => Some(row[k].id)
         case None => if row == [] then None else Some(row[FirstMinIndex(Costs(row, value))].id)
  }

  /** Ordering.natural().onResultOf(levenshtein).min(row), evaluating each cost once. */
  method ClosestResource(row: seq<Resource>, value: string) returns (k: int)
    requires row != []
    ensures k == FirstMinIndex(Costs(row, value))
  {
    var costs := Costs(row, value);
    k := 0;
    var best := Levenshtein(row[0].description, value);
    assert costs[..1] == [costs[0]];
    for i := 1 to |row|
      invariant 0 <= k < i && k == FirstMinIndex(costs[..i]) && best == costs[k]
    {
      var c := Levenshtein(row[i].description, value);
      assert costs[..i + 1][..i] == costs[..i];
      if c < best {
        k, best := i, c;
      }
    }
    assert costs[..|row|] == costs;
  }

  /** The whole request of parseSection: the table's row for the id, exact match, else the closest. */
  method ResolveRequest(table: map<int, seq<Resource>>, resId: int, value: string) returns (r: Option<int>)
    requires TableOk(table)
    ensures r == Resolve(Row(table, resId), value)
  {
    if value == [] {
      return None;
    }
    var row := Row(table, resId);
    match FindAttr(row, value)
    case Some(k) => r := Some(row[k].id);
    case None =>
      if row == [] {
        r := None;
      } else {
        var k := ClosestResource(row, value);
        r := Some(row[k].id);
      }
  }

  /** A resource request: the resource id, then the requested attribute. */
  datatype Request = Request(resId: int, value: string)

  /** Every row of the table holds one resource per attribute. */
  predicate TableOk(table: map<int, seq<Resource>>) {
    forall id :: id in table ==> UniqueAttrs(table[id])
  }

  /** What each request resolves to. */
  function Resolutions(table: map<int, seq<Resource>>, requests: seq<Request>): (rs: seq<Option<int>>)
    requires TableOk(table)
    ensures |rs| == |requests|
    ensures forall i :: 0 <= i < |requests| ==> rs[i] == Resolve(Row(table, requests[i].resId), requests[i].value)
  {
    seq(|requests|, i requires 0 <= i < |requests| => Resolve(Row(table, requests[i].resId), requests[i].value))
  }

  /** The present values, in order. */
  function Somes(rs: seq<Option<int>>): (ids: seq<int>)
    ensures |ids| <= |rs|
  {
    if rs == [] then [] else (if rs[0].Some? then [rs[0].value] else []) + Somes(rs[1..])
  }

  lemma {:induction false} SomesAppend(xs: seq<Option<int>>, ys: seq<Option<int>>)
    ensures Somes(xs + ys) == Somes(xs) + Somes(ys)
  {
    if xs == [] {
      assert xs + ys == ys;
    } else {
      SomesAppend(xs[1..], ys);
      var head := if xs[0].Some? then [xs[0].value] else [];
      assert Somes(xs + ys) == head + Somes(xs[1..] + ys) by {
        assert (xs + ys)[0] == xs[0];
        assert (xs + ys)[1..] == xs[1..] + ys;
      }
      assert Somes(xs) == head + Somes(xs[1..]);
    }
  }

  lemma {:induction false} SomesStep(rs: seq<Option<int>>, i: int, r: Option<int>)
    requires 0 <= i < |rs| && rs[i] == r
    ensures Somes(rs[..i + 1]) == Somes(rs[..i]) + (if r.Some? then [r.value] else [])
  {
    assert rs[..i + 1] == rs[..i] + [r];
    SomesAppend(rs[..i], [r]);
    assert Somes([r]) == (if r.Some? then [r.value] else []) + Somes([]);
  }

  /** The required resources of a section: one per request that resolves, in request order. */
  function Required(table: map<int, seq<Resource>>, requests: seq<Request>): (ids: seq<int>)
    requires TableOk(table)
  {
    Somes(Resolutions(table, requests))
  }

  lemma {:induction false} ResolutionsAppend(table: map<int, seq<Resource>>, xs: seq<Request>, ys: seq<Request>)
    requires TableOk(table)
    ensures Resolutions(table, xs + ys) == Resolutions(table, xs) + Resolutions(table, ys)
  {
    var l := Resolutions(table, xs + ys);
    var r := Resolutions(table, xs) + Resolutions(table, ys);
    forall i | 0 <= i < |l| ensures l[i] == r[i] {
      if i < |xs| {
        assert (xs + ys)[i] == xs[i];
      } else {
        assert (xs + ys)[i] == ys[i - |xs|];
      }
    }
  }

  /** A request with an empty value adds nothing, wherever it stands. */
  lemma {:induction false} EmptyRequestSkipped(table: map<int, seq<Resource>>, before: seq<Request>, resId: int, after: seq<Request>)
    requires TableOk(table)
    ensures Required(table, before + [Request(resId, "")] + after) == Required(table, before + after)
  {
    var xs := Resolutions(table, before);
    var ys := Resolutions(table, after);
    var empty := [Request(resId, "")];
    assert Resolutions(table, empty) == [None];
    calc {
      Required(table, before + empty + after);
      Somes(Resolutions(table, before + empty + after));
      { ResolutionsAppend(table, before + empty, after); ResolutionsAppend(table, before, empty); }
      Somes(xs + [None] + ys);
      { SomesAppend(xs + [None], ys); SomesAppend(xs, [None]); }
      Somes(xs) + Somes([None]) + Somes(ys);
      { assert Somes([None]) == [] + Somes([]); }
      Somes(xs) + Somes(ys);
      { SomesAppend(xs, ys); }
      Somes(xs + ys);
      { ResolutionsAppend(table, before, after); }
      Required(table, before + after);
    }
  }

  /** The loop of parseSection over resource_requests. */
  method RequiredResources(table: map<int, seq<Resource>>, requests: seq<Request>) returns (ids: seq<int>)
    requires TableOk(table)
    ensures ids == Required(table, requests)
    ensures |ids| <= |requests|
  {
    ghost var rs := Resolutions(table, requests);
    ids := [];
    for i := 0 to |requests|
      invariant ids == Somes(rs[..i])
    {
      var r := ResolveRequest(table, requests[i].resId, requests[i].value);
      SomesStep(rs, i, r);
      if r.Some? {
        ids := ids + [r.value];
      }
    }
    assert rs[..|requests|] == rs;
  }

  /** parseRoom's row.values().iterator().next(): the first resource of the row, which must exist. */
  function FirstOfRow(table: map<int, seq<Resource>>, resId: int): (r: Result<int, JavaError>)
    ensures r.Success? <==> Row(table, resId) != []
    ensures r.Success? ==> r.value == Row(table, resId)[0].id
    ensures r.Failure? ==> r.error == NoSuchElement
  {
    var row := Row(table, resId);
    if row == [] then Failure(NoSuchElement) else Success(row[0].id)
  }

  // ---------------------------------------------------------------------------------------
  // Subject ids

  /** The provider's subjects map, with the categories in the order they were first seen. */
  class SubjectTable {
    var subjects: map<string, int>
    ghost var order: seq<string>

    /** Ids are dense: the k-th category first seen has id k. */
    ghost predicate Valid()
      reads this
    {
      && |order| == |subjects|
      && (forall k :: 0 <= k < |order| ==> order[k] in subjects && subjects[order[k]] == k)
      && (forall c :: c in subjects ==> 0 <= subjects[c] < |order| && order[subjects[c]] == c)
    }

    constructor()
      ensures Valid() && subjects == map[] && order == []
    {
      subjects := map[];
      order := [];
    }

    /** parseSection: the category's id, or the next id for a category not seen before. */
    method SubjectId(category: string) returns (id: int)
      requires Valid()
      modifies this
      ensures Valid()
      ensures category in old(subjects) ==> id == old(subjects)[category] && subjects == old(subjects) && order == old(order)
      ensures category !in old(subjects) ==>
                id == old(|subjects|) && subjects == old(subjects)[category := id] && order == old(order) + [category]
      ensures 0 <= id < |order| && order[id] == category
      ensures order == if category in old(order) then old(order) else old(order) + [category]
    {
      if category in subjects {
        id := subjects[category];
      } else {
        id := |subjects|;
        assert category !in order;
        subjects := subjects[category := id];
        order := order + [category];
      }
    }
  }

  /**
   * The subject ids of the sections, read in order: each is the position of the section's
   * category in first-seen order.
   */
  method SubjectIds(categories: seq<string>) returns (ids: seq<int>)
    ensures |ids| == |categories|
    ensures forall i :: 0 <= i < |ids| ==>
              0 <= ids[i] < |FirstOccurrences(categories)| && FirstOccurrences(categories)[ids[i]] == categories[i]
  {
    var table := new SubjectTable();
    ids := [];
    for i := 0 to |categories|
      invariant table.Valid() && table.order == FirstOccurrences(categories[..i])
      invariant |ids| == i
      invariant forall k :: 0 <= k < i ==> 0 <= ids[k] < |table.order| && table.order[ids[k]] == categories[k]
    {
      var c := categories[i];
      ghost var before := table.order;
      var id := table.SubjectId(c);
      SubjectStep(categories, i, before, table.order, ids, id);
      ids := ids + [id];
    }
    assert categories[..|categories|] == categories;
  }

  /** One step of the loop: both invariants carry over to the next category. */
  lemma {:induction false} SubjectStep(categories: seq<string>, i: int, before: seq<string>, after: seq<string>, ids: seq<int>, id: int)
    requires 0 <= i < |categories| && before == FirstOccurrences(categories[..i]) && |ids| == i
    requires forall k :: 0 <= k < i ==> 0 <= ids[k] < |before| && before[ids[k]] == categories[k]
    requires after == if categories[i] in before then before else before + [categories[i]]
    requires 0 <= id < |after| && after[id] == categories[i]
    ensures after == FirstOccurrences(categories[..i + 1])
    ensures forall k :: 0 <= k < i + 1 ==> 0 <= (ids + [id])[k] < |after| && after[(ids + [id])[k]] == categories[k]
  {
    NextFirstSeen(categories, i, before, after);
    assert after[..|before|] == before;
    IdsExtended(categories, i, before, after, ids, id);
  }

  /** One more category read: the first-seen order grows exactly when the category is new. */
  lemma {:induction false} NextFirstSeen(categories: seq<string>, i: int, before: seq<string>, after: seq<string>)
    requires 0 <= i < |categories| && before == FirstOccurrences(categories[..i])
    requires after == if categories[i] in before then before else before + [categories[i]]
    ensures after == FirstOccurrences(categories[..i + 1])
  {
    assert categories[..i + 1] == categories[..i] + [categories[i]];
    FirstOccurrencesSnoc(categories[..i], categories[i]);
  }

  /** The ids read so far keep their categories when the order grows at its end. */
  lemma {:induction false} IdsExtended(categories: seq<string>, i: int, before: seq<string>, after: seq<string>, ids: seq<int>, id: int)
    requires 0 <= i < |categories| && |ids| == i
    requires forall k :: 0 <= k < i ==> 0 <= ids[k] < |before| && before[ids[k]] == categories[k]
    requires |before| <= |after| && after[..|before|] == before
    requires 0 <= id < |after| && after[id] == categories[i]
    ensures forall k :: 0 <= k < i + 1 ==> 0 <= (ids + [id])[k] < |after| && after[(ids + [id])[k]] == categories[k]
  {
    forall k | 0 <= k < i + 1
      ensures 0 <= (ids + [id])[k] < |after| && after[(ids + [id])[k]] == categories[k]
    {
      if k < i {
        assert (ids + [id])[k] == ids[k];
        assert after[ids[k]] == before[ids[k]];
      }
    }
  }

  // ---------------------------------------------------------------------------------------
  // Base records

  /** mergeBase consumes the base record: the record merged for each id in turn, in order. */
  function Merges<T>(base: map<int, T>, ids: seq<int>): (ms: seq<Option<T>>)
    ensures |ms| == |ids|
  {
    if ids == [] then []
    else
      var id := ids[0];
      [if id in base then Some(base[id]) else None] + Merges(base - {id}, ids[1..])
  }

  /** A base record is merged at most once: a later use of the same id merges nothing. */
  lemma {:induction false} MergedAtMostOnce<T>(base: map<int, T>, ids: seq<int>, i: int, j: int)
    requires 0 <= i < j < |ids| && ids[i] == ids[j]
    ensures Merges(base, ids)[j] == None
  {
    if i == 0 {
      NeverMergedAfterRemoval(base - {ids[0]}, ids[1..], ids[0], j - 1);
    } else {
      MergedAtMostOnce(base - {ids[0]}, ids[1..], i - 1, j - 1);
    }
  }

  lemma {:induction false} NeverMergedAfterRemoval<T>(base: map<int, T>, ids: seq<int>, id: int, j: int)
    requires id !in base && 0 <= j < |ids| && ids[j] == id
    ensures Merges(base, ids)[j] == None
  {
    if j > 0 {
      NeverMergedAfterRemoval(base - {ids[0]}, ids[1..], id, j - 1);
    }
  }

  /** The first use of an id present in the base merges that record. */
  lemma {:induction false} FirstUseMerges<T>(base: map<int, T>, ids: seq<int>, j: int)
    requires 0 <= j < |ids| && ids[j] in base && forall i :: 0 <= i < j ==> ids[i] != ids[j]
    ensures Merges(base, ids)[j] == Some(base[ids[j]])
  {
    if j > 0 {
      FirstUseMerges(base - {ids[0]}, ids[1..], j - 1);
    }
  }

  /** The id parseSection passes to mergeBase, as written: the section's course id. */
  function SectionBaseKeyAsWritten(courseId: int, sectionId: int): int {
    courseId
  }

  /** The id the section base records are stored under: the section's own id. */
  function SectionBaseKey(courseId: int, sectionId: int): int {
    sectionId
  }

  /**
   * A section with id 5 of course 9, while the base holds records for sections 5 and 9: as
   * written it merges the record of section 9, and its own record is left unmerged.
   */
  lemma SectionMergesOtherRecord<T>(r5: T, r9: T)
    requires r5 != r9
    ensures var base := map[5 := r5, 9 := r9];
            && Merges(base, [SectionBaseKeyAsWritten(9, 5)]) == [Some(r9)]
            && Merges(base, [SectionBaseKey(9, 5)]) == [Some(r5)]
  {
    var base := map[5 := r5, 9 := r9];
    assert Merges(base - {9}, []) == [];
    assert Merges(base - {5}, []) == [];
  }

  /**
   * Keyed by section id, sections with distinct ids each merge exactly their own base record,
   * whatever their course ids.
   */
  lemma SectionsMergeOwnRecords<T>(base: map<int, T>, courseIds: seq<int>, sectionIds: seq<int>)
    requires |courseIds| == |sectionIds| && forall i, j :: 0 <= i < j < |sectionIds| ==> sectionIds[i] != sectionIds[j]
    ensures var keys := seq(|sectionIds|, i requires 0 <= i < |sectionIds| => SectionBaseKey(courseIds[i], sectionIds[i]));
            forall j :: 0 <= j < |sectionIds| ==>
              Merges(base, keys)[j] == (if sectionIds[j] in base then Some(base[sectionIds[j]]) else None)
  {
    var keys := seq(|sectionIds|, i requires 0 <= i < |sectionIds| => SectionBaseKey(courseIds[i], sectionIds[i]));
    assert keys == sectionIds;
    forall j | 0 <= j < |sectionIds|
      ensures Merges(base, keys)[j] == (if sectionIds[j] in base then Some(base[sectionIds[j]]) else None)
    {
      if sectionIds[j] in base {
        FirstUseMerges(base, keys, j);
      } else {
        NeverMergedAfterRemoval(base, keys, sectionIds[j], j);
      }
    }
  }

  function ElementsOf(ids: seq<int>): set<int> {
    set id | id in ids
  }

  /** The provider's map of base records of one kind. */
  class BaseRecords<T> {
    var base: map<int, T>

    constructor(initial: map<int, T>)
      ensures base == initial
    {
      base := initial;
    }

    /** mergeBase: the base record for the id, removed so that it is not merged again. */
    method MergeBase(id: int) returns (merged: Option<T>)
      modifies this
      ensures merged == (if id in old(base) then Some(old(base)[id]) else None)
      ensures base == old(base) - {id}
    {
      if id in base {
        merged := Some(base[id]);
        base := base - {id};
      } else {
        merged := None;
      }
    }

    /** Records parsed in order, each merging its base record. */
    method MergeEach(ids: seq<int>) returns (merged: seq<Option<T>>)
      modifies this
      ensures merged == Merges(old(base), ids)
      ensures base == old(base) - ElementsOf(ids)
    {
      merged := [];
      ghost var start := base;
      for i := 0 to |ids|
        invariant base == start - ElementsOf(ids[..i])
        invariant merged + Merges(base, ids[i..]) == Merges(start, ids)
      {
        assert ids[i..][1..] == ids[i + 1..];
        var m := MergeBase(ids[i]);
        merged := merged + [m];
        assert ElementsOf(ids[..i + 1]) == ElementsOf(ids[..i]) + {ids[i]} by {
          assert ids[..i + 1] == ids[..i] + [ids[i]];
        }
      }
      assert ids[..|ids|] == ids;
    }
  }

  // ---------------------------------------------------------------------------------------
  // Sorted id lists

  predicate StrictlyIncreasing(xs: seq<int>) {
    forall i, j :: 0 <= i < j < |xs| ==> xs[i] < xs[j]
  }

  function InsertSorted(x: int, ys: seq<int>): (r: seq<int>)
    requires StrictlyIncreasing(ys)
    ensures StrictlyIncreasing(r)
    ensures forall v :: v in r <==> v == x || v in ys
  {
    if ys == [] then [x]
    else if x < ys[0] then [x] + ys
    else if x == ys[0] then ys
    else
      var rest := InsertSorted(x, ys[1..]);
      assert forall v :: v in ys <==> v == ys[0] || v in ys[1..] by {
        assert ys == [ys[0]] + ys[1..];
      }
      assert forall v :: v in rest ==> ys[0] < v by {
        forall v | v in ys[1..] ensures ys[0] < v {
          var k :| 0 <= k < |ys[1..]| && ys[1..][k] == v;
          assert ys[k + 1] == v;
        }
      }
      ConsIncreasing(ys[0], rest);
      [ys[0]] + rest
  }

  lemma {:induction false} ConsIncreasing(h: int, t: seq<int>)
    requires StrictlyIncreasing(t) && forall v :: v in t ==> h < v
    ensures StrictlyIncreasing([h] + t)
  {
    var r := [h] + t;
    forall i, j | 0 <= i < j < |r| ensures r[i] < r[j] {
      assert r[j] == t[j - 1] && t[j - 1] in t;
      if i > 0 {
        assert r[i] == t[i - 1];
      }
    }
  }

  /** ImmutableSortedSet.copyOf(ids): the distinct ids in increasing order. */
  function SortedIds(xs: seq<int>): (r: seq<int>)
    ensures StrictlyIncreasing(r)
    ensures forall v :: v in r <==> v in xs
    ensures |r| <= |xs|
  {
    if xs == [] then []
    else
      var rest := SortedIds(xs[1..]);
      assert forall v :: v in xs <==> v == xs[0] || v in xs[1..] by {
        assert xs == [xs[0]] + xs[1..];
      }
      SortedLength(xs[0], rest);
      InsertSorted(xs[0], rest)
  }

  lemma {:induction false} SortedLength(x: int, ys: seq<int>)
    requires StrictlyIncreasing(ys)
    ensures |InsertSorted(x, ys)| <= |ys| + 1
  {
    if ys != [] && x > ys[0] {
      SortedLength(x, ys[1..]);
    }
  }

  /** A strictly increasing list is its own sorted copy. */
  lemma {:induction false} SortedIdsOfSorted(xs: seq<int>)
    requires StrictlyIncreasing(xs)
    ensures SortedIds(xs) == xs
  {
    SortedUnique(SortedIds(xs), xs);
  }

  /** Two strictly increasing lists with the same elements are equal. */
  lemma {:induction false} SortedUnique(xs: seq<int>, ys: seq<int>)
    requires StrictlyIncreasing(xs) && StrictlyIncreasing(ys)
    requires forall v :: v in xs <==> v in ys
    ensures xs == ys
  {
    if xs != [] {
      assert xs[0] in xs;
    }
    if ys != [] {
      assert ys[0] in ys;
    }
    if xs != [] && ys != [] {
      assert xs[0] == ys[0];
      forall v
        ensures v in xs[1..] ==> v in ys[1..]
      {
        if v in xs[1..] {
          var k :| 0 <= k < |xs| - 1 && xs[1..][k] == v;
          assert xs[k + 1] == v && v in xs && v in ys;
          var m :| 0 <= m < |ys| && ys[m] == v;
          assert ys[1..][m - 1] == v;
        }
      }
      forall v
        ensures v in ys[1..] ==> v in xs[1..]
      {
        if v in ys[1..] {
          var k :| 0 <= k < |ys| - 1 && ys[1..][k] == v;
          assert ys[k + 1] == v && v in ys && v in xs;
          var m :| 0 <= m < |xs| && xs[m] == v;
          assert xs[1..][m - 1] == v;
        }
      }
      SortedUnique(xs[1..], ys[1..]);
      assert xs == [xs[0]] + xs[1..] && ys == [ys[0]] + ys[1..];
    }
  }

  /**
   * An id list after merging its base record: the ids read from the JSON, then those of the
   * base record (a repeated field of mergeFrom is appended), sorted and without repeats.
   */
  function MergedIds(own: seq<int>, base: Option<seq<int>>): (r: seq<int>)
    ensures StrictlyIncreasing(r)
    ensures forall v :: v in r <==> v in own || (base.Some? && v in base.value)
  {
    SortedIds(own + if base.Some? then base.value else [])
  }

  // ---------------------------------------------------------------------------------------
  // Buildings

  /** Splitter.on(anyOf(" -")).split(name).iterator().next(): the name up to the first ' ' or '-'. */
  function BuildingName(name: string): (r: string)
    ensures StartsWith(name, r)
    ensures forall i :: 0 <= i < |r| ==> r[i] != ' ' && r[i] != '-'
    ensures |r| == |name| || name[|r|] == ' ' || name[|r|] == '-'
  {
    if name == [] || name[0] == ' ' || name[0] == '-' then []
    else [name[0]] + BuildingName(name[1..])
  }

  /** A room as read from the JSON, before its building is known. */
  datatype RoomRecord = RoomRecord(roomId: int, name: string)

  /** A building of the output: its id, name and rooms. */
  datatype Building = Building(buildingId: int, name: string, rooms: seq<RoomRecord>)

  /** One key of the TreeMap-backed multimap, with its rooms in insertion order. */
  datatype Group = Group(name: string, rooms: seq<RoomRecord>)

  predicate SortedNames(gs: seq<Group>) {
    forall i, j :: 0 <= i < j < |gs| ==> Less(gs[i].name, gs[j].name)
  }

  /** The rooms whose building name is n, in input order. */
  function RoomsOf(rooms: seq<RoomRecord>, n: string): (r: seq<RoomRecord>)
    ensures forall x :: x in r <==> x in rooms && BuildingName(x.name) == n
  {
    if rooms == [] then []
    else
      var last := rooms[|rooms| - 1];
      var front := RoomsOf(rooms[..|rooms| - 1], n);
      assert forall x :: x in rooms <==> x in rooms[..|rooms| - 1] || x == last by {
        assert rooms == rooms[..|rooms| - 1] + [last];
      }
      if BuildingName(last.name) == n then front + [last] else front
  }

  /** The rooms filed under n, empty when n is not a key. */
  function Lookup(gs: seq<Group>, n: string): seq<RoomRecord> {
    if gs == [] then []
    else if gs[0].name == n then gs[0].rooms
    else Lookup(gs[1..], n)
  }

  /** A name with rooms filed under it is the name of a group. */
  lemma {:induction false} LookupFound(gs: seq<Group>, n: string) returns (k: int)
    requires Lookup(gs, n) != []
    ensures 0 <= k < |gs| && gs[k].name == n
  {
    if gs[0].name == n {
      k := 0;
    } else {
      k := LookupFound(gs[1..], n);
      k := k + 1;
    }
  }

  /** ListMultimap.put over a TreeMap: append to the key's rooms, adding the key in order if new. */
  function Put(gs: seq<Group>, n: string, room: RoomRecord): (r: seq<Group>)
    requires SortedNames(gs)
    ensures SortedNames(r)
    ensures r != [] && (r[0].name == n || (gs != [] && r[0].name == gs[0].name))
  {
    if gs == [] then [Group(n, [room])]
    else if gs[0].name == n then [Group(n, gs[0].rooms + [room])] + gs[1..]
    else if Less(n, gs[0].name) then
      PrependSorted(Group(n, [room]), gs);
      [Group(n, [room])] + gs
    else
      LessTotal(n, gs[0].name);
      SortedTail(gs);
      var rest := Put(gs[1..], n, room);
      PrependSorted(gs[0], rest);
      [gs[0]] + rest
  }

  lemma {:induction false} SortedTail(gs: seq<Group>)
    requires SortedNames(gs) && gs != []
    ensures SortedNames(gs[1..])
  {
    forall i, j | 0 <= i < j < |gs| - 1
      ensures Less(gs[1..][i].name, gs[1..][j].name)
    {
      assert gs[1..][i] == gs[i + 1] && gs[1..][j] == gs[j + 1];
    }
  }

  /** A group whose name precedes the head of a sorted list keeps the list sorted in front of it. */
  lemma {:induction false} PrependSorted(g: Group, gs: seq<Group>)
    requires SortedNames(gs) && (gs != [] ==> Less(g.name, gs[0].name))
    ensures SortedNames([g] + gs)
  {
    var r := [g] + gs;
    forall i, j | 0 <= i < j < |r|
      ensures Less(r[i].name, r[j].name)
    {
      if i == 0 && j > 1 {
        LessTransitive(g.name, gs[0].name, gs[j - 1].name);
      }
    }
  }

  /** In a sorted list each name appears once, so a name before the head appears nowhere. */
  lemma {:induction false} LookupBelowHead(gs: seq<Group>, n: string)
    requires SortedNames(gs) && gs != [] && Less(n, gs[0].name)
    ensures Lookup(gs, n) == []
    decreases |gs|
  {
    LessIrreflexive(n);
    if |gs| > 1 {
      LessTransitive(n, gs[0].name, gs[1].name);
      SortedTail(gs);
      LookupBelowHead(gs[1..], n);
    }
  }

  /** Every key of the multimap has at least one room: a key is only made by filing a room. */
  predicate NoEmptyGroup(gs: seq<Group>) {
    forall q :: 0 <= q < |gs| ==> gs[q].rooms != []
  }

  /** Put never leaves a key without rooms. */
  lemma {:induction false} PutKeepsNoEmptyGroup(gs: seq<Group>, n: string, room: RoomRecord)
    requires SortedNames(gs) && NoEmptyGroup(gs)
    ensures NoEmptyGroup(Put(gs, n, room))
    decreases |gs|
  {
    if gs != [] && gs[0].name != n && !Less(n, gs[0].name) {
      LessTotal(n, gs[0].name);
      SortedTail(gs);
      assert NoEmptyGroup(gs[1..]) by {
        forall q | 0 <= q < |gs| - 1 ensures gs[1..][q].rooms != [] {
          assert gs[1..][q] == gs[q + 1];
        }
      }
      PutKeepsNoEmptyGroup(gs[1..], n, room);
    }
  }

  /** Put appends the room to its key and leaves every other key's rooms as they were. */
  lemma {:induction false} LookupPut(gs: seq<Group>, n: string, room: RoomRecord, m: string)
    requires SortedNames(gs)
    ensures Lookup(Put(gs, n, room), m) == Lookup(gs, m) + (if m == n then [room] else [])
  {
    if gs == [] {
    } else if gs[0].name == n {
    } else if Less(n, gs[0].name) {
      if m == n {
        LookupBelowHead(gs, n);
      }
    } else {
      SortedTail(gs);
      LookupPut(gs[1..], n, room, m);
    }
  }

  /**
   * The building loop of get(): each room is filed under its building name, then the names are
   * numbered 0, 1, ... in sorted order. Each building holds exactly the rooms with its name, in
   * input order, and every room is in its building.
   */
  method GroupBuildings(rooms: seq<RoomRecord>) returns (buildings: seq<Building>)
    ensures forall i, j :: 0 <= i < j < |buildings| ==> Less(buildings[i].name, buildings[j].name)
    ensures forall k :: 0 <= k < |buildings| ==>
              buildings[k].buildingId == k && buildings[k].rooms == RoomsOf(rooms, buildings[k].name)
    ensures forall i :: 0 <= i < |rooms| ==> exists k :: 0 <= k < |buildings| && buildings[k].name == BuildingName(rooms[i].name)
    ensures forall k :: 0 <= k < |buildings| ==> buildings[k].rooms != []
  {
    var groups: seq<Group> := [];
    for i := 0 to |rooms|
      invariant SortedNames(groups)
      invariant forall m :: Lookup(groups, m) == RoomsOf(rooms[..i], m)
      invariant NoEmptyGroup(groups)
    {
      var n := BuildingName(rooms[i].name);
      forall m
        ensures Lookup(Put(groups, n, rooms[i]), m) == RoomsOf(rooms[..i + 1], m)
      {
        LookupPut(groups, n, rooms[i], m);
        assert rooms[..i + 1][..i] == rooms[..i];
      }
      PutKeepsNoEmptyGroup(groups, n, rooms[i]);
      groups := Put(groups, n, rooms[i]);
    }
    assert rooms[..|rooms|] == rooms;
    buildings := [];
    var buildingId := 0;
    for k := 0 to |groups|
      invariant buildingId == k && |buildings| == k
      invariant forall q :: 0 <= q < k ==> buildings[q] == Building(q, groups[q].name, groups[q].rooms)
    {
      buildings := buildings + [Building(buildingId, groups[k].name, groups[k].rooms)];
      buildingId := buildingId + 1;
    }
    forall k | 0 <= k < |buildings|
      ensures buildings[k].rooms == RoomsOf(rooms, buildings[k].name)
    {
      LookupInSorted(groups, k);
    }
    forall i | 0 <= i < |rooms|
      ensures exists k :: 0 <= k < |buildings| && buildings[k].name == BuildingName(rooms[i].name)
    {
      assert rooms[i] in Lookup(groups, BuildingName(rooms[i].name));
      var k := LookupFound(groups, BuildingName(rooms[i].name));
      assert buildings[k].name == groups[k].name;
    }
  }

  /** A building name with rooms filed under it is the building name of one of the rooms. */
  lemma SomeRoomOf(rooms: seq<RoomRecord>, n: string)
    requires RoomsOf(rooms, n) != []
    ensures exists i :: 0 <= i < |rooms| && BuildingName(rooms[i].name) == n
  {
    var x := RoomsOf(rooms, n)[0];
    assert x in RoomsOf(rooms, n);
    var i :| 0 <= i < |rooms| && rooms[i] == x;
  }

  /** In a sorted list, looking up the k-th name finds the k-th rooms. */
  lemma {:induction false} LookupInSorted(gs: seq<Group>, k: int)
    requires SortedNames(gs) && 0 <= k < |gs|
    ensures Lookup(gs, gs[k].name) == gs[k].rooms
  {
    if k > 0 {
      assert Less(gs[0].name, gs[k].name);
      LessIrreflexive(gs[k].name);
      SortedTail(gs);
      LookupInSorted(gs[1..], k - 1);
    }
  }
}
