/**
 * The persistent sorted map of util/bst/BstMap.java: an immutable treap root plus the key
 * range the map (or a head, tail or sub view of it) covers. `insert` and `delete` return a
 * new map and leave the receiver as it was, which datatype values give for free.
 *
 * The tree descent follows Guava's BstOperations.mutate: walk towards the key, let the
 * modifier decide what happens at the target, then lift the change back to the root,
 * rebuilding (same shape) or rebalancing on the way.
 */
module BstMap {
  import opened Wrappers
  import opened Errors
  import opened Treap

  // ---------------------------------------------------------------------------------------
  // Key ranges (the map's GeneralRange)
  // ---------------------------------------------------------------------------------------

  datatype Bound = Unbounded | Bounded(key: Key, inclusive: bool)

  datatype Range = Range(lower: Bound, upper: Bound)

  predicate AboveLower(b: Bound, k: Key) {
    b.Unbounded? || Less(b.key, k) || (b.inclusive && b.key == k)
  }

  predicate BelowUpper(b: Bound, k: Key) {
    b.Unbounded? || Less(k, b.key) || (b.inclusive && b.key == k)
  }

  predicate InRange(r: Range, k: Key) {
    AboveLower(r.lower, k) && BelowUpper(r.upper, k)
  }

  function All(): (r: Range)
    ensures forall k :: InRange(r, k)
  {
    Range(Unbounded, Unbounded)
  }

  /** The stricter of two lower bounds. */
  function TighterLower(a: Bound, b: Bound): (c: Bound)
    ensures forall k :: AboveLower(c, k) <==> AboveLower(a, k) && AboveLower(b, k)
  {
    if a.Unbounded? then b
    else if b.Unbounded? then a
    else if Less(a.key, b.key) then b
    else if Less(b.key, a.key) then a
    else Bounded(a.key, a.inclusive && b.inclusive)
  }

  /** The stricter of two upper bounds. */
  function TighterUpper(a: Bound, b: Bound): (c: Bound)
    ensures forall k :: BelowUpper(c, k) <==> BelowUpper(a, k) && BelowUpper(b, k)
  {
    if a.Unbounded? then b
    else if b.Unbounded? then a
    else if Less(a.key, b.key) then a
    else if Less(b.key, a.key) then b
    else Bounded(a.key, a.inclusive && b.inclusive)
  }

  function Intersect(r: Range, s: Range): (q: Range)
    ensures forall k :: InRange(q, k) <==> InRange(r, k) && InRange(s, k)
  {
    Range(TighterLower(r.lower, s.lower), TighterUpper(r.upper, s.upper))
  }

  lemma BelowLowerGoesDown(b: Bound, k: Key, x: Key)
    requires !AboveLower(b, k) && Less(x, k)
    ensures !AboveLower(b, x)
  {
  }

  lemma AboveUpperGoesUp(b: Bound, k: Key, x: Key)
    requires !BelowUpper(b, k) && Less(k, x)
    ensures !BelowUpper(b, x)
  {
  }

  // ---------------------------------------------------------------------------------------
  // Searching
  // ---------------------------------------------------------------------------------------

  /** BstOperations.seek: the value stored under k, if any. */
  function Seek<V>(t: Tree<V>, k: Key): Option<V> {
    if t.Nil? then None
    else if Less(k, t.key) then Seek(t.left, k)
    else if Less(t.key, k) then Seek(t.right, k)
    else Some(t.value)
  }

  lemma {:induction false} SeekFindsContents<V>(t: Tree<V>, k: Key)
    requires Bst(t)
    ensures Seek(t, k) == if k in Contents(t) then Some(Contents(t)[k]) else None
  {
    KeysOfContents(t);
    if t.Node? {
      KeysOfContents(t.left);
      KeysOfContents(t.right);
      SeekFindsContents(t.left, k);
      SeekFindsContents(t.right, k);
      if Less(k, t.key) {
        forall x | x in KeysOf(t.right)
          ensures Less(k, x)
        {
          LessTrans(k, t.key, x);
        }
      } else if Less(t.key, k) {
        forall x | x in KeysOf(t.left)
          ensures Less(x, k)
        {
          LessTrans(x, t.key, k);
        }
      }
    }
  }

  /** The furthest-left entry of t inside r (BstRangeOps.furthestPath towards LEFT). */
  function First<V>(t: Tree<V>, r: Range): Option<Entry<V>> {
    if t.Nil? then None
    else if !AboveLower(r.lower, t.key) then First(t.right, r)
    else match First(t.left, r)
      case Some(e) => Some(e)
      case None => if BelowUpper(r.upper, t.key) then Some(Entry(t.key, t.value)) else None
  }

  /** The furthest-right entry of t inside r (BstRangeOps.furthestPath towards RIGHT). */
  function Last<V>(t: Tree<V>, r: Range): Option<Entry<V>> {
    if t.Nil? then None
    else if !BelowUpper(r.upper, t.key) then Last(t.left, r)
    else match Last(t.right, r)
      case Some(e) => Some(e)
      case None => if AboveLower(r.lower, t.key) then Some(Entry(t.key, t.value)) else None
  }

  /** e is the entry of the least key of t inside r. */
  ghost predicate IsLeastIn<V>(t: Tree<V>, r: Range, e: Entry<V>) {
    && e.key in Contents(t) && Contents(t)[e.key] == e.value && InRange(r, e.key)
    && forall x :: x in Contents(t) && InRange(r, x) ==> LessEq(e.key, x)
  }

  /** e is the entry of the greatest key of t inside r. */
  ghost predicate IsGreatestIn<V>(t: Tree<V>, r: Range, e: Entry<V>) {
    && e.key in Contents(t) && Contents(t)[e.key] == e.value && InRange(r, e.key)
    && forall x :: x in Contents(t) && InRange(r, x) ==> LessEq(x, e.key)
  }

  ghost predicate NoneIn<V>(t: Tree<V>, r: Range) {
    forall x :: x in Contents(t) ==> !InRange(r, x)
  }

  lemma {:induction false} FirstIsLeast<V>(t: Tree<V>, r: Range)
    requires Bst(t)
    ensures First(t, r).None? <==> NoneIn(t, r)
    ensures First(t, r).Some? ==> IsLeastIn(t, r, First(t, r).value)
  {
    KeysOfContents(t);
    if t.Node? {
      KeysOfContents(t.left);
      KeysOfContents(t.right);
      FirstIsLeast(t.left, r);
      FirstIsLeast(t.right, r);
      if !AboveLower(r.lower, t.key) {
        forall x | x in KeysOf(t.left)
          ensures !InRange(r, x)
        {
          BelowLowerGoesDown(r.lower, t.key, x);
        }
      } else if First(t.left, r).None? {
        if BelowUpper(r.upper, t.key) {
          forall x | x in KeysOf(t.right)
            ensures Less(t.key, x)
          {
          }
        } else {
          forall x | x in KeysOf(t.right)
            ensures !InRange(r, x)
          {
            AboveUpperGoesUp(r.upper, t.key, x);
          }
        }
      } else {
        var e := First(t.left, r).value;
        assert Less(e.key, t.key);
        forall x | x in KeysOf(t.right)
          ensures Less(e.key, x)
        {
          LessTrans(e.key, t.key, x);
        }
      }
    }
  }

  lemma {:induction false} LastIsGreatest<V>(t: Tree<V>, r: Range)
    requires Bst(t)
    ensures Last(t, r).None? <==> NoneIn(t, r)
    ensures Last(t, r).Some? ==> IsGreatestIn(t, r, Last(t, r).value)
  {
    KeysOfContents(t);
    if t.Node? {
      KeysOfContents(t.left);
      KeysOfContents(t.right);
      LastIsGreatest(t.left, r);
      LastIsGreatest(t.right, r);
      if !BelowUpper(r.upper, t.key) {
        forall x | x in KeysOf(t.right)
          ensures !InRange(r, x)
        {
          AboveUpperGoesUp(r.upper, t.key, x);
        }
      } else if Last(t.right, r).None? {
        if AboveLower(r.lower, t.key) {
          forall x | x in KeysOf(t.left)
            ensures Less(x, t.key)
          {
          }
        } else {
          forall x | x in KeysOf(t.left)
            ensures !InRange(r, x)
          {
            BelowLowerGoesDown(r.lower, t.key, x);
          }
        }
      } else {
        var e := Last(t.right, r).value;
        assert Less(t.key, e.key);
        forall x | x in KeysOf(t.left)
          ensures Less(x, e.key)
        {
          LessTrans(x, t.key, e.key);
        }
      }
    }
  }

  // ---------------------------------------------------------------------------------------
  // Mutation: modifiers, the descent and the lift
  // ---------------------------------------------------------------------------------------

  /**
   * PutModifier (carrying the value, and the heap key RAND.nextInt() would draw for a new
   * node) and RemoveModifier.
   */
  datatype Modifier<V> = Put(newValue: V, freshHeapKey: int) | RemoveKey

  /** BstModificationResult's modification types. */
  datatype ChangeKind = Identity | RebuildingChange | RebalancingChange

  datatype Mutation<V> = Mutation(changedRoot: Tree<V>, kind: ChangeKind)

  /**
   * What happens at the target, where t is null or holds the key: the modifier's answer
   * followed by the treatment of that answer (rebuild around the old children, balance a new
   * node into place, or combine the children of a removed node).
   */
  function ModifyAt<V>(t: Tree<V>, k: Key, m: Modifier<V>): Mutation<V> {
    match m
    case Put(v, h) =>
      if t.Nil? then Mutation(Balance(Mk(k, v, Nil, Nil, h), Nil, Nil), RebalancingChange)
      else Mutation(CreateNode(Mk(k, v, Nil, Nil, t.heapKey), t.left, t.right), RebuildingChange)
    case RemoveKey =>
      if t.Nil? then Mutation(t, Identity)
      else Mutation(Combine(t.left, t.right), RebalancingChange)
  }

  /** Carry a change made in one child of orig back up to orig. */
  function Lift<V>(orig: Tree<V>, goLeft: bool, sub: Mutation<V>): Mutation<V>
    requires orig.Node?
  {
    var l := if goLeft then sub.changedRoot else orig.left;
    var r := if goLeft then orig.right else sub.changedRoot;
    match sub.kind
    case Identity => Mutation(orig, Identity)
    case RebuildingChange => Mutation(CreateNode(orig, l, r), RebuildingChange)
    case RebalancingChange => Mutation(Balance(orig, l, r), RebalancingChange)
  }

  /** BstOperations.mutate: descend to the node holding k (or the null where it belongs). */
  function Mutate<V>(t: Tree<V>, k: Key, m: Modifier<V>): Mutation<V> {
    if t.Node? && k != t.key then
      var goLeft := Less(k, t.key);
      Lift(t, goLeft, Mutate(if goLeft then t.left else t.right, k, m))
    else
      ModifyAt(t, k, m)
  }

  /** Two trees of identical shape: the same keys, heap keys and sizes at every position. */
  ghost predicate SameShape<V>(a: Tree<V>, b: Tree<V>) {
    && a.Nil? == b.Nil?
    && (a.Node? ==>
          && a.key == b.key && a.heapKey == b.heapKey && a.size == b.size
          && SameShape(a.left, b.left) && SameShape(a.right, b.right))
  }

  lemma {:induction false} SameShapeRefl<V>(t: Tree<V>)
    ensures SameShape(t, t)
  {
    if t.Node? {
      SameShapeRefl(t.left);
      SameShapeRefl(t.right);
    }
  }

  /** What a put must achieve on tree t. */
  ghost predicate PutOk<V>(t: Tree<V>, k: Key, v: V, mu: Mutation<V>) {
    && Valid(mu.changedRoot)
    && Contents(mu.changedRoot) == Contents(t)[k := v]
    && KeysOf(mu.changedRoot) == KeysOf(t) + {k}
    && mu.kind != Identity
    && (mu.kind == RebuildingChange <==> k in KeysOf(t))
    && (mu.kind == RebuildingChange ==>
          && t.Node? && mu.changedRoot.Node? && mu.changedRoot.heapKey == t.heapKey
          && SameShape(mu.changedRoot, t))
  }

  /** What a removal must achieve on tree t. */
  ghost predicate RemoveOk<V>(t: Tree<V>, k: Key, mu: Mutation<V>) {
    && Valid(mu.changedRoot)
    && Contents(mu.changedRoot) == Contents(t) - {k}
    && KeysOf(mu.changedRoot) == KeysOf(t) - {k}
    && mu.kind != RebuildingChange
    && (mu.kind == Identity <==> k !in KeysOf(t))
    && (mu.kind == Identity ==> mu.changedRoot == t)
  }

  lemma RemoveMiddle<V>(a: map<Key, V>, k: Key, v: V, b: map<Key, V>)
    requires k !in a && k !in b
    ensures (a + map[k := v] + b) - {k} == a + b
  {
  }

  lemma SetRemoveMiddle(a: set<Key>, k: Key, b: set<Key>)
    requires k !in a && k !in b
    ensures (a + {k} + b) - {k} == a + b
  {
  }

  lemma ReplaceMiddle<V>(a: map<Key, V>, k: Key, v: V, w: V, b: map<Key, V>)
    requires k !in b
    ensures (a + map[k := v] + b)[k := w] == a + map[k := w] + b
  {
  }

  lemma ModifyAtPut<V>(t: Tree<V>, k: Key, v: V, h: int)
    requires Valid(t) && (t.Nil? || t.key == k)
    ensures PutOk(t, k, v, ModifyAt(t, k, Put(v, h)))
  {
    var mu := ModifyAt(t, k, Put(v, h));
    var leaf := Mk(k, v, Nil, Nil, if t.Nil? then h else t.heapKey);
    if t.Nil? {
      BalanceContents(leaf, Nil, Nil);
      BalanceHeap(leaf, Nil, Nil);
      BalanceBst(leaf, Nil, Nil);
    } else {
      var n := CreateNode(leaf, t.left, t.right);
      KeysOfContents(t.right);
      assert k !in Contents(t.right) by {
        assert AllAbove(KeysOf(t.right), k);
      }
      ReplaceMiddle(Contents(t.left), k, t.value, v, Contents(t.right));
      assert KeysOf(t) + {k} == KeysOf(t);
      SameShapeRefl(t.left);
      SameShapeRefl(t.right);
      BstNode(n);
    }
  }

  lemma ModifyAtRemove<V>(t: Tree<V>, k: Key)
    requires Valid(t) && (t.Nil? || t.key == k)
    ensures RemoveOk(t, k, ModifyAt(t, k, RemoveKey))
  {
    if t.Node? {
      KeysOfContents(t.left);
      KeysOfContents(t.right);
      assert k !in KeysOf(t.left) && k !in KeysOf(t.right) by {
        assert AllBelow(KeysOf(t.left), k) && AllAbove(KeysOf(t.right), k);
      }
      forall x, y | x in KeysOf(t.left) && y in KeysOf(t.right)
        ensures Less(x, y)
      {
        LessTrans(x, k, y);
      }
      CombineContents(t.left, t.right);
      RemoveMiddle(Contents(t.left), k, t.value, Contents(t.right));
      SetRemoveMiddle(KeysOf(t.left), k, KeysOf(t.right));
      CombineBst(t.left, t.right);
      CombineHeap(t.left, t.right);
    }
  }

  lemma UpdateLeft<V>(a: map<Key, V>, m: map<Key, V>, b: map<Key, V>, k: Key, v: V)
    requires k !in m && k !in b
    ensures a[k := v] + m + b == (a + m + b)[k := v]
  {
  }

  lemma UpdateRight<V>(a: map<Key, V>, m: map<Key, V>, b: map<Key, V>, k: Key, v: V)
    ensures a + m + b[k := v] == (a + m + b)[k := v]
  {
  }

  lemma RemoveLeft<V>(a: map<Key, V>, m: map<Key, V>, b: map<Key, V>, k: Key)
    requires k !in m && k !in b
    ensures (a - {k}) + m + b == (a + m + b) - {k}
  {
  }

  lemma RemoveRight<V>(a: map<Key, V>, m: map<Key, V>, b: map<Key, V>, k: Key)
    requires k !in a && k !in m
    ensures a + m + (b - {k}) == (a + m + b) - {k}
  {
  }

  lemma SetRemoveLeft(a: set<Key>, m: set<Key>, b: set<Key>, k: Key)
    requires k !in m && k !in b
    ensures (a - {k}) + m + b == (a + m + b) - {k}
  {
  }

  lemma SetRemoveRight(a: set<Key>, m: set<Key>, b: set<Key>, k: Key)
    requires k !in a && k !in m
    ensures a + m + (b - {k}) == (a + m + b) - {k}
  {
  }

  lemma SetAddLeft(a: set<Key>, m: set<Key>, b: set<Key>, k: Key)
    ensures (a + {k}) + m + b == (a + m + b) + {k}
  {
  }

  lemma SetAddRight(a: set<Key>, m: set<Key>, b: set<Key>, k: Key)
    ensures a + m + (b + {k}) == (a + m + b) + {k}
  {
  }

  /** The ordering facts about a node that the lift lemmas use. */
  lemma NodeFacts<V>(t: Tree<V>)
    requires t.Node? && Bst(t)
    ensures Contents(t) == Contents(t.left) + map[t.key := t.value] + Contents(t.right)
    ensures KeysOf(t.left) == Contents(t.left).Keys && KeysOf(t.right) == Contents(t.right).Keys
    ensures t.key !in KeysOf(t.left) && t.key !in KeysOf(t.right)
  {
    KeysOfContents(t.left);
    KeysOfContents(t.right);
  }

  /** Balancing a node of t over two valid, correctly ordered sides gives a valid treap. */
  lemma BalanceValid<V>(t: Tree<V>, l: Tree<V>, r: Tree<V>)
    requires t.Node? && Valid(l) && Valid(r)
    requires AllBelow(KeysOf(l), t.key) && AllAbove(KeysOf(r), t.key)
    ensures Valid(Balance(t, l, r))
    ensures Contents(Balance(t, l, r)) == Contents(l) + map[t.key := t.value] + Contents(r)
    ensures KeysOf(Balance(t, l, r)) == KeysOf(l) + {t.key} + KeysOf(r)
  {
    BalanceContents(t, l, r);
    BalanceBst(t, l, r);
    BalanceHeap(t, l, r);
  }

  /** Rebuilding a node of t over two valid sides that keep their roots' heap keys. */
  lemma RebuildValid<V>(t: Tree<V>, l: Tree<V>, r: Tree<V>)
    requires t.Node? && Valid(l) && Valid(r)
    requires AllBelow(KeysOf(l), t.key) && AllAbove(KeysOf(r), t.key)
    requires HeapAtLeast(l, t.heapKey) && HeapAtLeast(r, t.heapKey)
    ensures Valid(CreateNode(t, l, r))
    ensures Contents(CreateNode(t, l, r)) == Contents(l) + map[t.key := t.value] + Contents(r)
    ensures KeysOf(CreateNode(t, l, r)) == KeysOf(l) + {t.key} + KeysOf(r)
    ensures SizesOk(t) && SameShape(l, t.left) && SameShape(r, t.right) ==> SameShape(CreateNode(t, l, r), t)
  {
    var n := CreateNode(t, l, r);
    BstNode(n);
  }

  /** The order facts shared by both ways of lifting a put from the left child. */
  lemma PutLeftOrder<V>(t: Tree<V>, k: Key, v: V, l': Tree<V>)
    requires Valid(t) && t.Node? && Less(k, t.key)
    requires KeysOf(l') == KeysOf(t.left) + {k}
    ensures AllBelow(KeysOf(l'), t.key) && AllAbove(KeysOf(t.right), t.key)
    ensures Contents(t)[k := v]
            == Contents(t.left)[k := v] + map[t.key := t.value] + Contents(t.right)
    ensures k in KeysOf(t) <==> k in KeysOf(t.left)
    ensures KeysOf(l') + {t.key} + KeysOf(t.right) == KeysOf(t) + {k}
  {
    NodeFacts(t);
    forall x | x in KeysOf(t.right)
      ensures Less(k, x)
    {
      LessTrans(k, t.key, x);
    }
    UpdateLeft(Contents(t.left), map[t.key := t.value], Contents(t.right), k, v);
    SetAddLeft(KeysOf(t.left), {t.key}, KeysOf(t.right), k);
  }

  /** The order facts shared by both ways of lifting a put from the right child. */
  lemma PutRightOrder<V>(t: Tree<V>, k: Key, v: V, r': Tree<V>)
    requires Valid(t) && t.Node? && Less(t.key, k)
    requires KeysOf(r') == KeysOf(t.right) + {k}
    ensures AllBelow(KeysOf(t.left), t.key) && AllAbove(KeysOf(r'), t.key)
    ensures Contents(t)[k := v]
            == Contents(t.left) + map[t.key := t.value] + Contents(t.right)[k := v]
    ensures k in KeysOf(t) <==> k in KeysOf(t.right)
    ensures KeysOf(t.left) + {t.key} + KeysOf(r') == KeysOf(t) + {k}
  {
    NodeFacts(t);
    forall x | x in KeysOf(t.left)
      ensures Less(x, k)
    {
      LessTrans(x, t.key, k);
    }
    UpdateRight(Contents(t.left), map[t.key := t.value], Contents(t.right), k, v);
    SetAddRight(KeysOf(t.left), {t.key}, KeysOf(t.right), k);
  }

  lemma {:induction false} LiftPutLeft<V>(t: Tree<V>, k: Key, v: V, sub: Mutation<V>)
    requires Valid(t) && t.Node? && Less(k, t.key)
    requires PutOk(t.left, k, v, sub)
    ensures PutOk(t, k, v, Lift(t, true, sub))
  {
    PutLeftOrder(t, k, v, sub.changedRoot);
    if sub.kind == RebuildingChange {
      SameShapeRefl(t.right);
      RebuildValid(t, sub.changedRoot, t.right);
    } else {
      BalanceValid(t, sub.changedRoot, t.right);
    }
  }

  lemma {:induction false} LiftPutRight<V>(t: Tree<V>, k: Key, v: V, sub: Mutation<V>)
    requires Valid(t) && t.Node? && Less(t.key, k)
    requires PutOk(t.right, k, v, sub)
    ensures PutOk(t, k, v, Lift(t, false, sub))
  {
    PutRightOrder(t, k, v, sub.changedRoot);
    if sub.kind == RebuildingChange {
      SameShapeRefl(t.left);
      RebuildValid(t, t.left, sub.changedRoot);
    } else {
      BalanceValid(t, t.left, sub.changedRoot);
    }
  }

  /** A removal below the left child, carried up by balancing t over the new left side. */
  lemma RemovedLeft<V>(t: Tree<V>, k: Key, l': Tree<V>)
    requires Valid(t) && t.Node? && Less(k, t.key) && Valid(l')
    requires Contents(l') == Contents(t.left) - {k} && KeysOf(l') == KeysOf(t.left) - {k}
    ensures Valid(Balance(t, l', t.right))
    ensures Contents(Balance(t, l', t.right)) == Contents(t) - {k}
    ensures KeysOf(Balance(t, l', t.right)) == KeysOf(t) - {k}
  {
    NodeFacts(t);
    forall x | x in KeysOf(t.right)
      ensures Less(k, x)
    {
      LessTrans(k, t.key, x);
    }
    RemoveLeft(Contents(t.left), map[t.key := t.value], Contents(t.right), k);
    SetRemoveLeft(KeysOf(t.left), {t.key}, KeysOf(t.right), k);
    BalanceValid(t, l', t.right);
  }

  /** A removal below the right child, carried up by balancing t over the new right side. */
  lemma RemovedRight<V>(t: Tree<V>, k: Key, r': Tree<V>)
    requires Valid(t) && t.Node? && Less(t.key, k) && Valid(r')
    requires Contents(r') == Contents(t.right) - {k} && KeysOf(r') == KeysOf(t.right) - {k}
    ensures Valid(Balance(t, t.left, r'))
    ensures Contents(Balance(t, t.left, r')) == Contents(t) - {k}
    ensures KeysOf(Balance(t, t.left, r')) == KeysOf(t) - {k}
  {
    NodeFacts(t);
    forall x | x in KeysOf(t.left)
      ensures Less(x, k)
    {
      LessTrans(x, t.key, k);
    }
    RemoveRight(Contents(t.left), map[t.key := t.value], Contents(t.right), k);
    SetRemoveRight(KeysOf(t.left), {t.key}, KeysOf(t.right), k);
    BalanceValid(t, t.left, r');
  }

  lemma {:induction false} LiftRemoveLeft<V>(t: Tree<V>, k: Key, sub: Mutation<V>)
    requires Valid(t) && t.Node? && Less(k, t.key)
    requires RemoveOk(t.left, k, sub)
    ensures RemoveOk(t, k, Lift(t, true, sub))
  {
    if sub.kind == RebalancingChange {
      LiftRemoveLeftRebalanced(t, k, sub);
    } else {
      LiftRemoveLeftUnchanged(t, k, sub);
    }
  }

  /** The key was in the left subtree: the node is rebalanced over the smaller left side. */
  lemma {:induction false} LiftRemoveLeftRebalanced<V>(t: Tree<V>, k: Key, sub: Mutation<V>)
    requires Valid(t) && t.Node? && Less(k, t.key)
    requires RemoveOk(t.left, k, sub) && sub.kind == RebalancingChange
    ensures RemoveOk(t, k, Lift(t, true, sub))
  {
    assert Lift(t, true, sub) == Mutation(Balance(t, sub.changedRoot, t.right), RebalancingChange);
    RemovedLeft(t, k, sub.changedRoot);
    NodeFacts(t);
    assert k in KeysOf(t.left);
  }

  /** The key was not in the left subtree: the node stays as it was. */
  lemma {:induction false} LiftRemoveLeftUnchanged<V>(t: Tree<V>, k: Key, sub: Mutation<V>)
    requires Valid(t) && t.Node? && Less(k, t.key)
    requires RemoveOk(t.left, k, sub) && sub.kind == Identity
    ensures RemoveOk(t, k, Lift(t, true, sub))
  {
    assert Lift(t, true, sub) == Mutation(t, Identity);
    NodeFacts(t);
    forall x | x in KeysOf(t.right)
      ensures x != k
    {
      LessTrans(k, t.key, x);
    }
    assert k !in KeysOf(t.left);
  }

  lemma {:induction false} LiftRemoveRight<V>(t: Tree<V>, k: Key, sub: Mutation<V>)
    requires Valid(t) && t.Node? && Less(t.key, k)
    requires RemoveOk(t.right, k, sub)
    ensures RemoveOk(t, k, Lift(t, false, sub))
  {
    if sub.kind == RebalancingChange {
      LiftRemoveRightRebalanced(t, k, sub);
    } else {
      LiftRemoveRightUnchanged(t, k, sub);
    }
  }

  /** The key was in the right subtree: the node is rebalanced over the smaller right side. */
  lemma {:induction false} LiftRemoveRightRebalanced<V>(t: Tree<V>, k: Key, sub: Mutation<V>)
    requires Valid(t) && t.Node? && Less(t.key, k)
    requires RemoveOk(t.right, k, sub) && sub.kind == RebalancingChange
    ensures RemoveOk(t, k, Lift(t, false, sub))
  {
    assert Lift(t, false, sub) == Mutation(Balance(t, t.left, sub.changedRoot), RebalancingChange);
    RemovedRight(t, k, sub.changedRoot);
    NodeFacts(t);
    assert k in KeysOf(t.right);
  }

  /** The key was not in the right subtree: the node stays as it was. */
  lemma {:induction false} LiftRemoveRightUnchanged<V>(t: Tree<V>, k: Key, sub: Mutation<V>)
    requires Valid(t) && t.Node? && Less(t.key, k)
    requires RemoveOk(t.right, k, sub) && sub.kind == Identity
    ensures RemoveOk(t, k, Lift(t, false, sub))
  {
    assert Lift(t, false, sub) == Mutation(t, Identity);
    NodeFacts(t);
    forall x | x in KeysOf(t.left)
      ensures x != k
    {
      LessTrans(x, t.key, k);
    }
    assert k !in KeysOf(t.right);
  }

  /** A put leaves a valid treap holding the new pair, every other key untouched. */
  lemma {:induction false} MutatePut<V>(t: Tree<V>, k: Key, v: V, h: int)
    requires Valid(t)
    ensures PutOk(t, k, v, Mutate(t, k, Put(v, h)))
  {
    if t.Node? && k != t.key {
      if Less(k, t.key) {
        MutatePut(t.left, k, v, h);
        LiftPutLeft(t, k, v, Mutate(t.left, k, Put(v, h)));
      } else {
        MutatePut(t.right, k, v, h);
        LiftPutRight(t, k, v, Mutate(t.right, k, Put(v, h)));
      }
    } else {
      ModifyAtPut(t, k, v, h);
    }
  }

  /** A removal leaves a valid treap without the key, every other key untouched. */
  lemma {:induction false} MutateRemove<V>(t: Tree<V>, k: Key)
    requires Valid(t)
    ensures RemoveOk(t, k, Mutate(t, k, RemoveKey))
  {
    if t.Node? && k != t.key {
      if Less(k, t.key) {
        MutateRemove(t.left, k);
        LiftRemoveLeft(t, k, Mutate(t.left, k, RemoveKey));
      } else {
        MutateRemove(t.right, k);
        LiftRemoveRight(t, k, Mutate(t.right, k, RemoveKey));
      }
    } else {
      ModifyAtRemove(t, k);
    }
  }

  // ---------------------------------------------------------------------------------------
  // In-order iteration and counting inside a range
  // ---------------------------------------------------------------------------------------

  ghost predicate StrictlySorted<V>(s: seq<Entry<V>>) {
    forall i, j :: 0 <= i < j < |s| ==> Less(s[i].key, s[j].key)
  }

  lemma SortedConcat<V>(a: seq<Entry<V>>, e: Entry<V>, b: seq<Entry<V>>)
    requires StrictlySorted(a) && StrictlySorted(b)
    requires forall x :: x in a ==> Less(x.key, e.key)
    requires forall y :: y in b ==> Less(e.key, y.key)
    ensures StrictlySorted(a + [e] + b)
  {
    var s := a + [e] + b;
    forall i, j | 0 <= i < j < |s|
      ensures Less(s[i].key, s[j].key)
    {
      if j < |a| {
      } else if i < |a| && j == |a| {
        assert s[i] in a;
      } else if i < |a| {
        assert s[i] in a && s[j] in b;
        LessTrans(s[i].key, e.key, s[j].key);
      } else if i == |a| {
        assert s[j] in b;
      } else {
        assert s[i] == b[i - |a| - 1] && s[j] == b[j - |a| - 1];
      }
    }
  }

  /** The entries of s whose keys lie in r, in order. */
  function Filter<V>(s: seq<Entry<V>>, r: Range): (f: seq<Entry<V>>)
    ensures |f| <= |s|
    ensures forall e :: e in f ==> e in s && InRange(r, e.key)
  {
    if |s| == 0 then []
    else
      var rest := Filter(s[..|s| - 1], r);
      if InRange(r, s[|s| - 1].key) then rest + [s[|s| - 1]] else rest
  }

  lemma {:induction false} FilterConcat<V>(a: seq<Entry<V>>, b: seq<Entry<V>>, r: Range)
    ensures Filter(a + b, r) == Filter(a, r) + Filter(b, r)
    decreases |b|
  {
    if |b| == 0 {
      assert a + b == a;
    } else {
      assert (a + b)[..|a + b| - 1] == a + b[..|b| - 1];
      FilterConcat(a, b[..|b| - 1], r);
    }
  }

  lemma {:induction false} FilterAll<V>(s: seq<Entry<V>>, r: Range)
    requires forall k :: InRange(r, k)
    ensures Filter(s, r) == s
  {
    if |s| > 0 {
      FilterAll(s[..|s| - 1], r);
    }
  }

  /** The part of m whose keys lie in r. */
  ghost function Restrict<V>(m: map<Key, V>, r: Range): map<Key, V> {
    map x | x in m && InRange(r, x) :: m[x]
  }

  lemma RestrictEmpty<V>(t: Tree<V>, r: Range)
    ensures NoneIn(t, r) <==> Restrict(Contents(t), r) == map[]
  {
    if !NoneIn(t, r) {
      var x :| x in Contents(t) && InRange(r, x);
      assert x in Restrict(Contents(t), r);
    }
  }

  lemma RestrictUpdate<V>(m: map<Key, V>, r: Range, k: Key, v: V)
    requires InRange(r, k)
    ensures Restrict(m[k := v], r) == Restrict(m, r)[k := v]
  {
  }

  lemma RestrictRemove<V>(m: map<Key, V>, r: Range, k: Key)
    ensures Restrict(m - {k}, r) == Restrict(m, r) - {k}
  {
  }

  lemma RestrictUpdateOutside<V>(m: map<Key, V>, r: Range, k: Key, v: V)
    requires !InRange(r, k)
    ensures Restrict(m[k := v], r) == Restrict(m, r)
  {
  }

  lemma {:induction false} FilterMap<V>(s: seq<Entry<V>>, r: Range)
    ensures MapOf(Filter(s, r)) == Restrict(MapOf(s), r)
  {
    if |s| > 0 {
      var s', e := s[..|s| - 1], s[|s| - 1];
      FilterMap(s', r);
      assert MapOf(s) == MapOf(s')[e.key := e.value];
      if InRange(r, e.key) {
        var f := Filter(s', r) + [e];
        assert f[..|f| - 1] == Filter(s', r);
        assert Filter(s, r) == f;
        assert MapOf(f) == MapOf(Filter(s', r))[e.key := e.value];
        RestrictUpdate(MapOf(s'), r, e.key, e.value);
      } else {
        assert Filter(s, r) == Filter(s', r);
        RestrictUpdateOutside(MapOf(s'), r, e.key, e.value);
      }
    }
  }

  lemma {:induction false} FilterSorted<V>(s: seq<Entry<V>>, r: Range)
    requires StrictlySorted(s)
    ensures StrictlySorted(Filter(s, r))
  {
    if |s| > 0 {
      var s', e := s[..|s| - 1], s[|s| - 1];
      FilterSorted(s', r);
      if InRange(r, e.key) {
        var f := Filter(s', r);
        forall x | x in f
          ensures Less(x.key, e.key)
        {
          assert x in s';
        }
        SortedConcat(f, e, []);
        assert f + [e] + [] == f + [e];
      }
    }
  }

  /**
   * BstRangeOps.totalInRange with the size aggregate: a whole subtree counts by its cached
   * size once no bound is left to test, otherwise node by node.
   */
  function CountInRange<V>(t: Tree<V>, r: Range): nat {
    if t.Nil? then 0
    else if r.lower.Unbounded? && r.upper.Unbounded? then SizeOf(t)
    else CountInRange(t.left, r) + (if InRange(r, t.key) then 1 else 0) + CountInRange(t.right, r)
  }

  /** The count is the number of in-range entries the in-order walk visits. */
  lemma {:induction false} CountInRangeIsFilterLength<V>(t: Tree<V>, r: Range)
    requires SizesOk(t)
    ensures CountInRange(t, r) == |Filter(Entries(t), r)|
  {
    if t.Node? {
      if r.lower.Unbounded? && r.upper.Unbounded? {
        SizeCountsNodes(t);
        FilterAll(Entries(t), r);
      } else {
        CountInRangeIsFilterLength(t.left, r);
        CountInRangeIsFilterLength(t.right, r);
        FilterConcat(Entries(t.left) + [Entry(t.key, t.value)], Entries(t.right), r);
        FilterConcat(Entries(t.left), [Entry(t.key, t.value)], r);
        assert [Entry(t.key, t.value)][..0] == [];
      }
    }
  }

  /** The in-order walk of an ordered tree visits its keys in strictly increasing order. */
  lemma {:induction false} EntriesOfBst<V>(t: Tree<V>)
    requires Bst(t)
    ensures StrictlySorted(Entries(t))
    ensures forall e :: e in Entries(t) ==> e.key in KeysOf(t)
  {
    if t.Node? {
      var a, e, b := Entries(t.left), Entry(t.key, t.value), Entries(t.right);
      EntriesOfBst(t.left);
      EntriesOfBst(t.right);
      SortedConcat(a, e, b);
    }
  }

  // ---------------------------------------------------------------------------------------
  // The map
  // ---------------------------------------------------------------------------------------

  /** Ints.saturatedCast from a non-negative long to int. */
  function SaturatedCast(n: nat): (r: int)
    ensures 0 <= r <= 0x7fff_ffff
    ensures n <= 0x7fff_ffff ==> r == n
    ensures n > 0x7fff_ffff ==> r == 0x7fff_ffff
  {
    if n > 0x7fff_ffff then 0x7fff_ffff else n
  }

  function AtLeast(k: Key, inclusive: bool): (r: Range)
    ensures forall x :: InRange(r, x) <==> Less(k, x) || (inclusive && x == k)
  {
    Range(Bounded(k, inclusive), Unbounded)
  }

  function AtMost(k: Key, inclusive: bool): (r: Range)
    ensures forall x :: InRange(r, x) <==> Less(x, k) || (inclusive && x == k)
  {
    Range(Unbounded, Bounded(k, inclusive))
  }

  /**
   * A BstMap: the treap root and the range this map or view covers. A null key or value is
   * None; the keys of the map are the keys of Contents(root) inside range.
   */
  datatype BstMap<V> = BstMap(root: Tree<V>, range: Range) {

    ghost predicate Valid() {
      Treap.Valid(root)
    }

    /** The pairs this map holds. */
    ghost function Pairs(): map<Key, V> {
      Restrict(Contents(root), range)
    }

    function Get(key: Option<Key>): (r: Option<V>)
      requires Valid()
      ensures r.Some? <==> key.Some? && key.value in Pairs()
      ensures r.Some? ==> r.value == Pairs()[key.value]
    {
      SeekFindsContents(root, if key.Some? then key.value else Key(0, 0));
      if key.None? then None
      else if InRange(range, key.value) then Seek(root, key.value)
      else None
    }

    function ContainsKey(key: Option<Key>): (b: bool)
      requires Valid()
      ensures b <==> key.Some? && key.value in Pairs()
    {
      Get(key).Some?
    }

    /** Apply a modifier through BstOperations.mutate; the range is kept. */
    function Modify(k: Key, m: Modifier<V>): BstMap<V> {
      BstMap(Mutate(root, k, m).changedRoot, range)
    }

    /**
     * insert(key, value): a null key, a key outside the range or a null value is refused;
     * otherwise the new map holds value under key. heapKey is the RAND.nextInt() draw a new
     * node would get.
     */
    function Insert(key: Option<Key>, value: Option<V>, heapKey: int): (r: Result<BstMap<V>, JavaError>)
      requires Valid()
      ensures key.None? ==> r == Failure(NullPointer)
      ensures key.Some? && !InRange(range, key.value) ==> r == Failure(IllegalArgument)
      ensures key.Some? && InRange(range, key.value) && value.None? ==> r == Failure(NullPointer)
      ensures r.Success? <==> key.Some? && InRange(range, key.value) && value.Some?
      ensures r.Success? ==>
                && r.value.Valid() && r.value.range == range
                && r.value.Pairs() == Pairs()[key.value := value.value]
    {
      if key.None? then Failure(NullPointer)
      else if !InRange(range, key.value) then Failure(IllegalArgument)
      else if value.None? then Failure(NullPointer)
      else
        MutatePut(root, key.value, value.value, heapKey);
        RestrictUpdate(Contents(root), range, key.value, value.value);
        Success(Modify(key.value, Put(value.value, heapKey)))
    }

    /** delete(key): a null key or one outside the range leaves the map as it is. */
    function Delete(key: Option<Key>): (r: BstMap<V>)
      requires Valid()
      ensures r.Valid() && r.range == range
      ensures key.Some? ==> r.Pairs() == Pairs() - {key.value}
      ensures key.None? || key.value !in Pairs() ==> r == this
    {
      if key.None? then this
      else if !InRange(range, key.value) then
        assert Pairs() - {key.value} == Pairs();
        this
      else
        MutateRemove(root, key.value);
        RestrictRemove(Contents(root), range, key.value);
        KeysOfContents(root);
        Modify(key.value, RemoveKey)
    }

    /** The entry set, in iteration order. */
    function EntryList(): seq<Entry<V>> {
      Filter(Entries(root), range)
    }

    /** size(): the saturated count of the entries in range. */
    function Size(): (n: int)
      requires Valid()
      ensures n == SaturatedCast(|EntryList()|)
    {
      CountInRangeIsFilterLength(root, range);
      SaturatedCast(CountInRange(root, range))
    }

    function FirstEntry(): (r: Option<Entry<V>>)
      requires Valid()
      ensures r.None? <==> Pairs() == map[]
      ensures r.Some? ==> IsLeastIn(root, range, r.value)
    {
      FirstIsLeast(root, range);
      RestrictEmpty(root, range);
      First(root, range)
    }

    function LastEntry(): (r: Option<Entry<V>>)
      requires Valid()
      ensures r.None? <==> Pairs() == map[]
      ensures r.Some? ==> IsGreatestIn(root, range, r.value)
    {
      LastIsGreatest(root, range);
      RestrictEmpty(root, range);
      Last(root, range)
    }

    function FirstKey(): (r: Result<Key, JavaError>)
      requires Valid()
      ensures r.Failure? <==> Pairs() == map[]
      ensures r.Failure? ==> r.error == NoSuchElement
      ensures r.Success? ==> r.value in Pairs() && forall x :: x in Pairs() ==> LessEq(r.value, x)
    {
      match FirstEntry()
      case None => Failure(NoSuchElement)
      case Some(e) => Success(e.key)
    }

    function LastKey(): (r: Result<Key, JavaError>)
      requires Valid()
      ensures r.Failure? <==> Pairs() == map[]
      ensures r.Failure? ==> r.error == NoSuchElement
      ensures r.Success? ==> r.value in Pairs() && forall x :: x in Pairs() ==> LessEq(x, r.value)
    {
      match LastEntry()
      case None => Failure(NoSuchElement)
      case Some(e) => Success(e.key)
    }

    /** headMap(toKey, inclusive): the same tree seen through a narrower range. */
    function HeadMap(toKey: Key, inclusive: bool): (r: BstMap<V>)
      ensures r.root == root
      ensures forall x :: InRange(r.range, x) <==> InRange(range, x) && InRange(AtMost(toKey, inclusive), x)
    {
      BstMap(root, Intersect(range, AtMost(toKey, inclusive)))
    }

    function TailMap(fromKey: Key, inclusive: bool): (r: BstMap<V>)
      ensures r.root == root
      ensures forall x :: InRange(r.range, x) <==> InRange(range, x) && InRange(AtLeast(fromKey, inclusive), x)
    {
      BstMap(root, Intersect(range, AtLeast(fromKey, inclusive)))
    }

    /**
     * subMap(fromKey, fromInclusive, toKey, toInclusive). The range built from the two bounds
     * refuses bounds that cross, and equal keys with both bounds open, with an
     * IllegalArgumentException; only then is it intersected with this map's range.
     */
    function SubMap(fromKey: Key, fromInclusive: bool, toKey: Key, toInclusive: bool): (r: Result<BstMap<V>, JavaError>)
      ensures r.Failure? <==> Less(toKey, fromKey) || (fromKey == toKey && !fromInclusive && !toInclusive)
      ensures r.Failure? ==> r.error == IllegalArgument
      ensures r.Success? ==> r.value.root == root
      ensures r.Success? ==> forall x :: InRange(r.value.range, x) <==>
                InRange(range, x) && InRange(AtLeast(fromKey, fromInclusive), x)
                && InRange(AtMost(toKey, toInclusive), x)
    {
      if Less(toKey, fromKey) || (fromKey == toKey && !fromInclusive && !toInclusive) then
        Failure(IllegalArgument)
      else
        Success(BstMap(root, Intersect(range, Range(Bounded(fromKey, fromInclusive), Bounded(toKey, toInclusive)))))
    }

    /** ceilingEntry(key): the entry with the least key at or above key. */
    function CeilingEntry(key: Key): (r: Option<Entry<V>>)
      requires Valid()
      ensures r.None? <==> NoneIn(root, Intersect(range, AtLeast(key, true)))
      ensures r.Some? ==> IsLeastIn(root, Intersect(range, AtLeast(key, true)), r.value)
    {
      var v := TailMap(key, true);
      assert v.range == Intersect(range, AtLeast(key, true));
      RestrictEmpty(root, v.range);
      v.FirstEntry()
    }

    /** higherEntry(key): the entry with the least key strictly above key. */
    function HigherEntry(key: Key): (r: Option<Entry<V>>)
      requires Valid()
      ensures r.None? <==> NoneIn(root, Intersect(range, AtLeast(key, false)))
      ensures r.Some? ==> IsLeastIn(root, Intersect(range, AtLeast(key, false)), r.value)
    {
      var v := TailMap(key, false);
      assert v.range == Intersect(range, AtLeast(key, false));
      RestrictEmpty(root, v.range);
      v.FirstEntry()
    }

    /** floorEntry(key): the entry with the greatest key at or below key. */
    function FloorEntry(key: Key): (r: Option<Entry<V>>)
      requires Valid()
      ensures r.None? <==> NoneIn(root, Intersect(range, AtMost(key, true)))
      ensures r.Some? ==> IsGreatestIn(root, Intersect(range, AtMost(key, true)), r.value)
    {
      var v := HeadMap(key, true);
      assert v.range == Intersect(range, AtMost(key, true));
      RestrictEmpty(root, v.range);
      v.LastEntry()
    }

    /** lowerEntry(key): the entry with the greatest key strictly below key. */
    function LowerEntry(key: Key): (r: Option<Entry<V>>)
      requires Valid()
      ensures r.None? <==> NoneIn(root, Intersect(range, AtMost(key, false)))
      ensures r.Some? ==> IsGreatestIn(root, Intersect(range, AtMost(key, false)), r.value)
    {
      var v := HeadMap(key, false);
      assert v.range == Intersect(range, AtMost(key, false));
      RestrictEmpty(root, v.range);
      v.LastEntry()
    }
  }

  /** create(): the empty map over the whole key space. */
  function Create<V>(): (m: BstMap<V>)
    ensures m.Valid() && m.range == All()
    ensures m.Pairs() == map[] && m.Size() == 0
    ensures forall k :: m.Get(k).None?
  {
    BstMap(Nil, All())
  }

  /** remove(key) is unsupported: the map is persistent. */
  function Remove<V>(m: BstMap<V>, key: Option<Key>): (r: Result<Option<V>, JavaError>)
    ensures r.Failure? && r.error == UnsupportedOperation
  {
    Failure(UnsupportedOperation)
  }

  /** clear() is unsupported: the map is persistent. */
  function Clear<V>(m: BstMap<V>): (r: Result<BstMap<V>, JavaError>)
    ensures r.Failure? && r.error == UnsupportedOperation
  {
    Failure(UnsupportedOperation)
  }

  /** After insert(k, v), get(k) is v and every other key reads as before. */
  lemma InsertThenGet<V>(m: BstMap<V>, k: Key, v: V, h: int, other: Key)
    requires m.Valid() && InRange(m.range, k)
    ensures m.Insert(Some(k), Some(v), h).Success?
    ensures m.Insert(Some(k), Some(v), h).value.Get(Some(k)) == Some(v)
    ensures other != k ==>
              m.Insert(Some(k), Some(v), h).value.Get(Some(other)) == m.Get(Some(other))
  {
  }

  lemma {:induction false} CountSameShape<V>(a: Tree<V>, b: Tree<V>, r: Range)
    requires SameShape(a, b)
    ensures CountInRange(a, r) == CountInRange(b, r)
  {
    if a.Node? {
      CountSameShape(a.left, b.left, r);
      CountSameShape(a.right, b.right, r);
    }
  }

  /**
   * Re-inserting a key already in the tree rebuilds a tree of the same shape: the node keeps
   * its heap key (every node does), and the size does not change.
   */
  lemma ReinsertKeepsShape<V>(m: BstMap<V>, k: Key, v: V, h: int)
    requires m.Valid() && k in m.Pairs()
    ensures m.Insert(Some(k), Some(v), h).Success?
    ensures SameShape(m.Insert(Some(k), Some(v), h).value.root, m.root)
    ensures m.Insert(Some(k), Some(v), h).value.Size() == m.Size()
  {
    MutatePut(m.root, k, v, h);
    KeysOfContents(m.root);
    var m' := m.Insert(Some(k), Some(v), h).value;
    CountSameShape(m'.root, m.root, m.range);
    CountInRangeIsFilterLength(m.root, m.range);
    CountInRangeIsFilterLength(m'.root, m.range);
  }

  /** Inserting a key not yet in the tree adds one to the size of an unrestricted map. */
  lemma InsertNewGrowsSize<V>(m: BstMap<V>, k: Key, v: V, h: int)
    requires m.Valid() && m.range == All() && k !in m.Pairs()
    requires |m.Pairs()| < 0x7fff_ffff
    ensures m.Insert(Some(k), Some(v), h).Success?
    ensures m.Insert(Some(k), Some(v), h).value.Size() == m.Size() + 1
  {
    MutatePut(m.root, k, v, h);
    var m' := m.Insert(Some(k), Some(v), h).value;
    SizeIsSaturatedCount(m);
    SizeIsSaturatedCount(m');
  }

  lemma {:induction false} MapOfBelow<V>(s: seq<Entry<V>>, x: Key)
    requires forall d :: d in s ==> Less(d.key, x)
    ensures x !in MapOf(s)
  {
    if |s| > 0 {
      assert s[|s| - 1] in s;
      MapOfBelow(s[..|s| - 1], x);
    }
  }

  lemma {:induction false} SortedMapOfSize<V>(s: seq<Entry<V>>)
    requires StrictlySorted(s)
    ensures |MapOf(s)| == |s|
  {
    if |s| > 0 {
      var s', e := s[..|s| - 1], s[|s| - 1];
      SortedMapOfSize(s');
      forall d | d in s'
        ensures Less(d.key, e.key)
      {
        var i :| 0 <= i < |s'| && s'[i] == d;
        assert s[i] == d;
      }
      MapOfBelow(s', e.key);
    }
  }

  /**
   * The entry set is the map's pairs in strictly increasing key order, and size() is its
   * (saturated) length, that is, the number of keys in the map.
   */
  lemma EntryListIsSortedPairs<V>(m: BstMap<V>)
    requires m.Valid()
    ensures StrictlySorted(m.EntryList())
    ensures MapOf(m.EntryList()) == m.Pairs()
    ensures |m.EntryList()| == |m.Pairs()|
  {
    EntriesOfBst(m.root);
    FilterSorted(Entries(m.root), m.range);
    FilterMap(Entries(m.root), m.range);
    ContentsOfEntries(m.root);
    SortedMapOfSize(m.EntryList());
  }

  lemma SizeIsSaturatedCount<V>(m: BstMap<V>)
    requires m.Valid()
    ensures m.Size() == SaturatedCast(|m.Pairs()|)
  {
    EntryListIsSortedPairs(m);
  }

  /** floorEntry(k) of a map over the whole key space, stated on the map's pairs. */
  lemma FloorEntryOfPairs<V>(m: BstMap<V>, k: Key)
    requires m.Valid() && m.range == All()
    ensures m.FloorEntry(k).Some? ==>
              && m.FloorEntry(k).value.key in m.Pairs()
              && m.Pairs()[m.FloorEntry(k).value.key] == m.FloorEntry(k).value.value
              && LessEq(m.FloorEntry(k).value.key, k)
              && forall x :: x in m.Pairs() && LessEq(x, k) ==> LessEq(x, m.FloorEntry(k).value.key)
    ensures m.FloorEntry(k).None? ==> forall x :: x in m.Pairs() ==> Less(k, x)
  {
    forall x | x in m.Pairs()
      ensures x in Contents(m.root) && Contents(m.root)[x] == m.Pairs()[x]
    {
    }
    forall x | x in Contents(m.root)
      ensures x in m.Pairs()
    {
      assert InRange(m.range, x);
    }
  }

  lemma {:induction false} SortedMapOfLookup<V>(s: seq<Entry<V>>, i: int)
    requires StrictlySorted(s) && 0 <= i < |s|
    ensures s[i].key in MapOf(s) && MapOf(s)[s[i].key] == s[i].value
    decreases |s|
  {
    if i < |s| - 1 {
      assert Less(s[i].key, s[|s| - 1].key);
      SortedMapOfLookup(s[..|s| - 1], i);
    }
  }

  /** Every entry the entry set yields is a pair of the map. */
  lemma EntryListEntriesArePairs<V>(m: BstMap<V>, i: int)
    requires m.Valid() && 0 <= i < |m.EntryList()|
    ensures m.EntryList()[i].key in m.Pairs()
    ensures m.Pairs()[m.EntryList()[i].key] == m.EntryList()[i].value
  {
    EntryListIsSortedPairs(m);
    SortedMapOfLookup(m.EntryList(), i);
  }
}
