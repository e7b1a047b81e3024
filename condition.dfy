/**
 * Condition (util/Condition.java): a pass/fail flag for a subsystem. Sub-conditions point to
 * their parent; a failed check marks the condition and every ancestor as failed, never a
 * descendant, and nothing ever marks a condition as passing again.
 */
module Conditions {
  import opened Wrappers
  import opened Errors

  class Condition {
    var isValid: bool
    const parent: Condition?
    /** This condition followed by its ancestors, nearest first. */
    ghost const chain: seq<Condition>

    ghost predicate Valid()
      decreases |chain|
    {
      && |chain| >= 1
      && chain[0] == this
      && this !in chain[1..]
      && (parent == null ==> |chain| == 1)
      && (parent != null ==> |chain| > 1 && chain[1..] == parent.chain && parent.Valid())
    }

    /** Condition.create(logger, level): a root condition, initially passing. */
    constructor Create()
      ensures Valid() && isValid && parent == null && chain == [this]
    {
      isValid := true;
      parent := null;
      chain := [this];
    }

    /** The private constructor behind createSubCondition. */
    constructor Sub(p: Condition)
      requires p.Valid()
      ensures Valid() && isValid && parent == p && chain == [this] + p.chain
    {
      isValid := true;
      parent := p;
      chain := [this] + p.chain;
      new;
      assert chain[1..] == p.chain;
    }

    /** createSubCondition(subsystem): a new passing condition whose parent is this one. */
    method CreateSubCondition() returns (c: Condition)
      requires Valid()
      ensures fresh(c) && c.Valid() && c.isValid && c.parent == this
      ensures c.chain == [c] + chain && c !in chain
    {
      c := new Condition.Sub(this);
    }

    /**
     * verify(condition, message): on failure this condition and every ancestor stop passing;
     * no other condition changes. On success nothing changes.
     */
    method Verify(condition: bool)
      requires Valid()
      modifies chain
      ensures condition ==> forall c :: c in chain ==> c.isValid == old(c.isValid)
      ensures !condition ==> forall c :: c in chain ==> !c.isValid
    {
      if !condition {
        var current: Condition? := this;
        var k := 0;
        while current != null
          invariant 0 <= k <= |chain|
          invariant current != null ==> k < |chain| && current == chain[k] && current.Valid()
          invariant current == null ==> k == |chain|
          invariant forall i :: 0 <= i < k ==> !chain[i].isValid
          decreases |chain| - k
        {
          ChainShape(current, k);
          current.isValid := false;
          current := current.parent;
          k := k + 1;
        }
      }
    }

    /** The k-th element of a valid chain has the chain's tail as its own chain. */
    lemma {:induction false} ChainShape(c: Condition, k: nat)
      requires Valid() && k < |chain| && c == chain[k]
      ensures c.Valid() && c.chain == chain[k..]
      ensures c.parent == null <==> k == |chain| - 1
      ensures c.parent != null ==> c.parent == chain[k + 1]
      decreases k
    {
      if k > 0 {
        parent.ChainShape(c, k - 1);
      }
    }

    /** passes(). */
    function Passes(): (b: bool)
      reads this
      ensures b == isValid
    {
      isValid
    }

    /** assertPasses(): an AssertionFailedError exactly when the condition is not passing. */
    function AssertPasses(): (r: Result<(), JavaError>)
      reads this
      ensures r.Failure? <==> !isValid
      ensures r.Failure? ==> r.error == AssertionFailed
    {
      if isValid then Success(()) else Failure(AssertionFailed)
    }
  }
}
