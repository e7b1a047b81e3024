/**
 * Conflicts and the cumulative schedule validator (logic/GlobalConflict.java,
 * logic/ScheduleValidator.java).
 *
 * A local conflict is a condition a candidate assignment fails on its own; a global conflict
 * names the assignments already in the schedule whose deletion would resolve it. The
 * validator appends conflicts to four lists and is valid while all four are empty.
 */
module Validation {
  import opened Wrappers
  import opened Errors
  import opened Assignments

  datatype LocalConflict<C> = LocalConflict(candidate: C, failedCondition: string)

  datatype GlobalConflict<C> = GlobalConflict(candidate: C, conflicting: seq<C>, failedCondition: string)

  /**
   * GlobalConflict.create: null arguments throw NullPointerException (candidate first, then
   * the collection, then the condition), an empty conflicting collection
   * IllegalArgumentException; the getters return the arguments.
   */
  function CreateGlobalConflict<C>(candidate: Option<C>, conflicting: Option<seq<C>>, failedCondition: Option<string>)
    : (r: Result<GlobalConflict<C>, JavaError>)
    ensures r.Success? <==>
              candidate.Some? && conflicting.Some? && failedCondition.Some? && conflicting.value != []
    ensures r.Failure? && (candidate.None? || conflicting.None? || failedCondition.None?) ==>
              r.error == NullPointer
    ensures r.Failure? && candidate.Some? && conflicting.Some? && failedCondition.Some? ==>
              r.error == IllegalArgument
    ensures r.Success? ==>
              && r.value.candidate == candidate.value
              && r.value.conflicting == conflicting.value
              && r.value.failedCondition == failedCondition.value
  {
    if candidate.None? || conflicting.None? || failedCondition.None? then Failure(NullPointer)
    else if conflicting.value == [] then Failure(IllegalArgument)
    else Success(GlobalConflict(candidate.value, conflicting.value, failedCondition.value))
  }

  /** The four conflict lists of a validator, as one value. */
  datatype Conflicts = Conflicts(
    localStart: seq<LocalConflict<StartAssignment>>,
    localPresent: seq<LocalConflict<PresentAssignment>>,
    globalPresent: seq<GlobalConflict<PresentAssignment>>,
    globalStart: seq<GlobalConflict<StartAssignment>>)
  {
    function Append(d: Conflicts): Conflicts {
      Conflicts(localStart + d.localStart, localPresent + d.localPresent,
                globalPresent + d.globalPresent, globalStart + d.globalStart)
    }

    predicate LocallyValid() {
      localStart == [] && localPresent == []
    }

    predicate IsValid() {
      LocallyValid() && globalPresent == [] && globalStart == []
    }

    /** Every recorded global conflict names at least one conflicting assignment. */
    predicate GlobalsNonEmpty() {
      && (forall i :: 0 <= i < |globalPresent| ==> globalPresent[i].conflicting != [])
      && (forall i :: 0 <= i < |globalStart| ==> globalStart[i].conflicting != [])
    }

    /** Each list of this is a prefix of the matching list of d. */
    predicate ExtendedBy(d: Conflicts) {
      localStart <= d.localStart && localPresent <= d.localPresent
      && globalPresent <= d.globalPresent && globalStart <= d.globalStart
    }
  }

  function NoConflicts(): Conflicts {
    Conflicts([], [], [], [])
  }

  /** What validateLocal(cond, start assignment, condition) appends. */
  function LocalStartDelta(cond: bool, a: StartAssignment, condition: string): (d: Conflicts)
    ensures cond ==> d == NoConflicts()
    ensures !cond ==> d.localPresent == [] && d.globalPresent == [] && d.globalStart == []
                      && d.localStart == [LocalConflict(a, condition)]
  {
    if cond then NoConflicts() else Conflicts([LocalConflict(a, condition)], [], [], [])
  }

  /** What validateLocal(cond, present assignment, condition) appends. */
  function LocalPresentDelta(cond: bool, a: PresentAssignment, condition: string): (d: Conflicts)
    ensures cond ==> d == NoConflicts()
    ensures !cond ==> d.localStart == [] && d.globalPresent == [] && d.globalStart == []
                      && d.localPresent == [LocalConflict(a, condition)]
  {
    if cond then NoConflicts() else Conflicts([], [LocalConflict(a, condition)], [], [])
  }

  /** What validateGlobal(cond, start assignment, conflicting, condition) appends. */
  function GlobalStartDelta(cond: bool, a: StartAssignment, conflicting: seq<StartAssignment>, condition: string)
    : (d: Conflicts)
    ensures d.localStart == [] && d.localPresent == [] && d.globalPresent == []
    ensures d.globalStart != [] <==> !cond && conflicting != []
    ensures d.globalStart != [] ==>
              CreateGlobalConflict(Some(a), Some(conflicting), Some(condition)) == Success(d.globalStart[0])
              && |d.globalStart| == 1
    ensures d.GlobalsNonEmpty()
  {
    if !cond && conflicting != [] then Conflicts([], [], [], [GlobalConflict(a, conflicting, condition)])
    else NoConflicts()
  }

  /** What validateGlobal(cond, present assignment, conflicting, condition) appends. */
  function GlobalPresentDelta(cond: bool, a: PresentAssignment, conflicting: seq<PresentAssignment>, condition: string)
    : (d: Conflicts)
    ensures d.localStart == [] && d.localPresent == [] && d.globalStart == []
    ensures d.globalPresent != [] <==> !cond && conflicting != []
    ensures d.globalPresent != [] ==>
              CreateGlobalConflict(Some(a), Some(conflicting), Some(condition)) == Success(d.globalPresent[0])
              && |d.globalPresent| == 1
    ensures d.GlobalsNonEmpty()
  {
    if !cond && conflicting != [] then Conflicts([], [], [GlobalConflict(a, conflicting, condition)], [])
    else NoConflicts()
  }

  /**
   * Appending conflicts only extends the lists, keeps the non-empty invariant, and the result
   * is valid exactly when both parts are: once a validator is invalid it stays invalid.
   */
  lemma AppendFacts(c: Conflicts, d: Conflicts)
    ensures c.ExtendedBy(c.Append(d))
    ensures c.GlobalsNonEmpty() && d.GlobalsNonEmpty() ==> c.Append(d).GlobalsNonEmpty()
    ensures c.Append(d).LocallyValid() <==> c.LocallyValid() && d.LocallyValid()
    ensures c.Append(d).IsValid() <==> c.IsValid() && d.IsValid()
    ensures c.Append(NoConflicts()) == c
  {
    if c.GlobalsNonEmpty() && d.GlobalsNonEmpty() {
      var e := c.Append(d);
      forall i | 0 <= i < |e.globalPresent|
        ensures e.globalPresent[i].conflicting != []
      {
        if i >= |c.globalPresent| {
          assert e.globalPresent[i] == d.globalPresent[i - |c.globalPresent|];
        }
      }
      forall i | 0 <= i < |e.globalStart|
        ensures e.globalStart[i].conflicting != []
      {
        if i >= |c.globalStart| {
          assert e.globalStart[i] == d.globalStart[i - |c.globalStart|];
        }
      }
    }
  }

  /** Appending to an empty validator's lists gives the appended lists. */
  lemma NoneAppend(d: Conflicts)
    ensures NoConflicts().Append(d) == d
  {
    assert [] + d.localStart == d.localStart && [] + d.localPresent == d.localPresent;
    assert [] + d.globalPresent == d.globalPresent && [] + d.globalStart == d.globalStart;
  }

  /** Appending is associative, so a run of validations can be summarised piecewise. */
  lemma AppendAssoc(a: Conflicts, b: Conflicts, c: Conflicts)
    ensures a.Append(b).Append(c) == a.Append(b.Append(c))
  {
    assert a.localStart + b.localStart + c.localStart == a.localStart + (b.localStart + c.localStart);
    assert a.localPresent + b.localPresent + c.localPresent == a.localPresent + (b.localPresent + c.localPresent);
    assert a.globalPresent + b.globalPresent + c.globalPresent == a.globalPresent + (b.globalPresent + c.globalPresent);
    assert a.globalStart + b.globalStart + c.globalStart == a.globalStart + (b.globalStart + c.globalStart);
  }

  /** The validator: four lists of conflicts that its validate methods append to. */
  class ScheduleValidator {
    var localStartConflicts: seq<LocalConflict<StartAssignment>>
    var localPresentConflicts: seq<LocalConflict<PresentAssignment>>
    var globalPresentConflicts: seq<GlobalConflict<PresentAssignment>>
    var globalStartConflicts: seq<GlobalConflict<StartAssignment>>

    function Snapshot(): Conflicts
      reads this
    {
      Conflicts(localStartConflicts, localPresentConflicts, globalPresentConflicts, globalStartConflicts)
    }

    /** Every stored global conflict went through GlobalConflict.create, so it is non-empty. */
    ghost predicate Valid()
      reads this
    {
      Snapshot().GlobalsNonEmpty()
    }

    constructor()
      ensures Valid() && Snapshot() == NoConflicts()
    {
      localStartConflicts := [];
      localPresentConflicts := [];
      globalPresentConflicts := [];
      globalStartConflicts := [];
    }

    method ValidateLocalStart(cond: bool, a: StartAssignment, condition: string)
      requires Valid()
      modifies this
      ensures Valid()
      ensures Snapshot() == old(Snapshot()).Append(LocalStartDelta(cond, a, condition))
    {
      if !cond {
        localStartConflicts := localStartConflicts + [LocalConflict(a, condition)];
      }
    }

    method ValidateLocalPresent(cond: bool, a: PresentAssignment, condition: string)
      requires Valid()
      modifies this
      ensures Valid()
      ensures Snapshot() == old(Snapshot()).Append(LocalPresentDelta(cond, a, condition))
    {
      if !cond {
        localPresentConflicts := localPresentConflicts + [LocalConflict(a, condition)];
      }
    }

    method ValidateGlobalStart(cond: bool, a: StartAssignment, conflicting: seq<StartAssignment>, condition: string)
      requires Valid()
      modifies this
      ensures Valid()
      ensures Snapshot() == old(Snapshot()).Append(GlobalStartDelta(cond, a, conflicting, condition))
    {
      if !cond && conflicting != [] {
        var conflict := CreateGlobalConflict(Some(a), Some(conflicting), Some(condition)).value;
        globalStartConflicts := globalStartConflicts + [conflict];
      }
      AppendFacts(old(Snapshot()), GlobalStartDelta(cond, a, conflicting, condition));
    }

    method ValidateGlobalPresent(cond: bool, a: PresentAssignment, conflicting: seq<PresentAssignment>, condition: string)
      requires Valid()
      modifies this
      ensures Valid()
      ensures Snapshot() == old(Snapshot()).Append(GlobalPresentDelta(cond, a, conflicting, condition))
    {
      if !cond && conflicting != [] {
        var conflict := CreateGlobalConflict(Some(a), Some(conflicting), Some(condition)).value;
        globalPresentConflicts := globalPresentConflicts + [conflict];
      }
      AppendFacts(old(Snapshot()), GlobalPresentDelta(cond, a, conflicting, condition));
    }

    function IsLocallyValid(): (b: bool)
      reads this
      ensures b <==> Snapshot().LocallyValid()
    {
      |localStartConflicts| == 0 && |localPresentConflicts| == 0
    }

    function IsValid(): (b: bool)
      reads this
      ensures b <==> Snapshot().IsValid()
      ensures b ==> IsLocallyValid()
    {
      IsLocallyValid() && |globalPresentConflicts| == 0 && |globalStartConflicts| == 0
    }
  }
}
