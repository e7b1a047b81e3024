/**
 * The immutable treap nodes behind BstMap (util/bst/TreapNode.java).
 *
 * A node carries a key, a value, two possibly-null children, a heap key (drawn at random
 * when the key is first inserted) and a cached subtree size. `balance` and `combine`
 * rebuild nodes so that heap keys decrease towards the root while the in-order key
 * sequence is left untouched.
 */
module Treap {

  /**
   * Keys of every map in the model: a pair compared lexicographically. Rooms and sections
   * use Key(id, 0) (Room.compareTo compares ids); class periods use Key(blockId, index),
   * which is exactly ClassPeriod.compareTo.
   */
  datatype Key = Key(major: int, minor: int)

  predicate Less(a: Key, b: Key) {
    a.major < b.major || (a.major == b.major && a.minor < b.minor)
  }

  predicate LessEq(a: Key, b: Key) {
    Less(a, b) || a == b
  }

  datatype Entry<V> = Entry(key: Key, value: V)

  /** Nil plays the part of a null child. */
  datatype Tree<V> =
    | Nil
    | Node(key: Key, value: V, left: Tree<V>, right: Tree<V>, heapKey: int, size: nat)

  /** `(tree == null) ? 0 : tree.size` */
  function SizeOf<V>(t: Tree<V>): nat {
    if t.Nil? then 0 else t.size
  }

  /** Number of nodes, counted structurally (used for termination and for the size invariant). */
  function Count<V>(t: Tree<V>): nat {
    if t.Nil? then 0 else 1 + Count(t.left) + Count(t.right)
  }

  /** Every cached size field equals 1 plus the sizes of the non-null children. */
  ghost predicate SizesOk<V>(t: Tree<V>) {
    t.Node? ==>
      && t.size == 1 + SizeOf(t.left) + SizeOf(t.right)
      && SizesOk(t.left)
      && SizesOk(t.right)
  }

  /** The TreapNode constructor, which computes the size field. */
  function Mk<V>(key: Key, value: V, left: Tree<V>, right: Tree<V>, heapKey: int): (t: Tree<V>)
    ensures t.Node? && t.key == key && t.value == value && t.heapKey == heapKey
    ensures t.left == left && t.right == right
    ensures SizesOk(left) && SizesOk(right) ==> SizesOk(t) && SizeOf(t) == Count(t)
  {
    SizeCountsNodes(left);
    SizeCountsNodes(right);
    Node(key, value, left, right, heapKey, 1 + SizeOf(left) + SizeOf(right))
  }

  lemma {:induction false} SizeCountsNodes<V>(t: Tree<V>)
    ensures SizesOk(t) ==> SizeOf(t) == Count(t)
  {
    if t.Node? {
      SizeCountsNodes(t.left);
      SizeCountsNodes(t.right);
    }
  }

  /** The node factory's createNode: a new node with source's key, value and heap key. */
  function CreateNode<V>(source: Tree<V>, left: Tree<V>, right: Tree<V>): (t: Tree<V>)
    requires source.Node?
    ensures t.Node? && t.key == source.key && t.value == source.value
    ensures t.heapKey == source.heapKey && t.left == left && t.right == right
    ensures SizesOk(left) && SizesOk(right) ==> SizesOk(t)
  {
    Mk(source.key, source.value, left, right, source.heapKey)
  }

  /** In-order entry sequence. */
  function Entries<V>(t: Tree<V>): (s: seq<Entry<V>>)
    ensures |s| == Count(t)
  {
    if t.Nil? then [] else Entries(t.left) + [Entry(t.key, t.value)] + Entries(t.right)
  }

  /** The map denoted by an entry sequence; a later entry overrides an earlier one. */
  function MapOf<V>(s: seq<Entry<V>>): map<Key, V> {
    if |s| == 0 then map[] else MapOf(s[..|s| - 1])[s[|s| - 1].key := s[|s| - 1].value]
  }

  lemma {:induction false} MapOfAppend<V>(a: seq<Entry<V>>, b: seq<Entry<V>>)
    ensures MapOf(a + b) == MapOf(a) + MapOf(b)
    decreases |b|
  {
    if |b| == 0 {
      assert a + b == a;
    } else {
      var b' := b[..|b| - 1];
      var last := b[|b| - 1];
      assert (a + b)[..|a + b| - 1] == a + b';
      assert (a + b)[|a + b| - 1] == last;
      MapOfAppend(a, b');
    }
  }

  lemma Assoc<T>(a: seq<T>, b: seq<T>, c: seq<T>, d: seq<T>, e: seq<T>)
    ensures a + b + (c + d + e) == (a + b + c) + d + e
    ensures (a + b + c) + d + e == a + b + (c + d + e)
    ensures a + b + c + d + e == (a + b + c) + d + e
  {
  }

  lemma MapOfConcat<V>(a: seq<Entry<V>>, e: Entry<V>, b: seq<Entry<V>>)
    ensures MapOf(a + [e] + b) == MapOf(a) + map[e.key := e.value] + MapOf(b)
  {
    MapOfAppend(a, [e]);
    MapOfAppend(a + [e], b);
    assert MapOf([e]) == map[e.key := e.value] by {
      assert [e][..0] == [];
    }
  }

  /** The map a tree stands for: a node's pair between the maps of its two subtrees. */
  ghost function Contents<V>(t: Tree<V>): map<Key, V> {
    if t.Nil? then map[] else Contents(t.left) + map[t.key := t.value] + Contents(t.right)
  }

  /** The same map, read off the in-order entry sequence. */
  lemma {:induction false} ContentsOfEntries<V>(t: Tree<V>)
    ensures Contents(t) == MapOf(Entries(t))
  {
    if t.Node? {
      ContentsOfEntries(t.left);
      ContentsOfEntries(t.right);
      MapOfConcat(Entries(t.left), Entry(t.key, t.value), Entries(t.right));
    }
  }

  ghost predicate AllBelow(keys: set<Key>, k: Key) {
    forall x :: x in keys ==> Less(x, k)
  }

  ghost predicate AllAbove(keys: set<Key>, k: Key) {
    forall x :: x in keys ==> Less(k, x)
  }

  ghost predicate AllBefore(left: set<Key>, right: set<Key>) {
    forall x, y :: x in left && y in right ==> Less(x, y)
  }

  /** The keys stored in a tree. */
  ghost function KeysOf<V>(t: Tree<V>): set<Key> {
    if t.Nil? then {} else KeysOf(t.left) + {t.key} + KeysOf(t.right)
  }

  lemma {:induction false} KeysOfContents<V>(t: Tree<V>)
    ensures KeysOf(t) == Contents(t).Keys
  {
    if t.Node? {
      KeysOfContents(t.left);
      KeysOfContents(t.right);
    }
  }

  /** Binary-search-tree order. */
  ghost predicate Bst<V>(t: Tree<V>) {
    t.Node? ==>
      && AllBelow(KeysOf(t.left), t.key)
      && AllAbove(KeysOf(t.right), t.key)
      && Bst(t.left)
      && Bst(t.right)
  }

  predicate HeapAtLeast<V>(t: Tree<V>, h: int) {
    t.Nil? || t.heapKey >= h
  }

  /** Heap order on heap keys: no child has a smaller heap key than its parent. */
  ghost predicate Heap<V>(t: Tree<V>) {
    t.Node? ==>
      && HeapAtLeast(t.left, t.heapKey)
      && HeapAtLeast(t.right, t.heapKey)
      && Heap(t.left)
      && Heap(t.right)
  }

  ghost predicate Valid<V>(t: Tree<V>) {
    Bst(t) && Heap(t) && SizesOk(t)
  }

  /** The smallest heap key among h and the roots of the non-null trees a and b. */
  function MinHeapKey<V>(h: int, a: Tree<V>, b: Tree<V>): int {
    var m := if a.Node? && a.heapKey < h then a.heapKey else h;
    if b.Node? && b.heapKey < m then b.heapKey else m
  }

  /**
   * The balance policy: put `source` between `left` and `right`, rotating a child with a
   * strictly smaller heap key above it (the left one first, unless the right one is smaller).
   */
  function Balance<V>(source: Tree<V>, left: Tree<V>, right: Tree<V>): (t: Tree<V>)
    requires source.Node?
    ensures t.Node?
    ensures Entries(t) == Entries(left) + [Entry(source.key, source.value)] + Entries(right)
    ensures SizesOk(left) && SizesOk(right) ==> SizesOk(t)
    decreases Count(left) + Count(right)
  {
    if left.Node? && left.heapKey < source.heapKey
       && (right.Nil? || right.heapKey >= left.heapKey) then
      var sub := Balance(source, left.right, right);
      var t := CreateNode(left, left.left, sub);
      Assoc(Entries(left.left), [Entry(left.key, left.value)], Entries(left.right),
            [Entry(source.key, source.value)], Entries(right));
      t
    else if right.Node? && right.heapKey < source.heapKey then
      var sub := Balance(source, left, right.left);
      var t := CreateNode(right, sub, right.right);
      Assoc(Entries(left), [Entry(source.key, source.value)], Entries(right.left),
            [Entry(right.key, right.value)], Entries(right.right));
      t
    else
      CreateNode(source, left, right)
  }

  /**
   * What balance puts at the root: the source itself, with the given children, when neither
   * child has a smaller heap key; otherwise a child whose heap key is smaller. Either way the
   * root's heap key is the smallest of the three.
   */
  lemma BalanceRoot<V>(source: Tree<V>, left: Tree<V>, right: Tree<V>)
    requires source.Node?
    ensures Balance(source, left, right).heapKey == MinHeapKey(source.heapKey, left, right)
    ensures HeapAtLeast(left, source.heapKey) && HeapAtLeast(right, source.heapKey) ==>
              Balance(source, left, right) == CreateNode(source, left, right)
    ensures !(HeapAtLeast(left, source.heapKey) && HeapAtLeast(right, source.heapKey)) ==>
              var t := Balance(source, left, right);
              t.heapKey < source.heapKey
              && ((left.Node? && t.key == left.key) || (right.Node? && t.key == right.key))
  {
  }

  /**
   * The combine policy: join two trees whose keys are already in order, keeping the root
   * with the smaller heap key on top (ties go to the left tree).
   */
  function Combine<V>(left: Tree<V>, right: Tree<V>): (t: Tree<V>)
    ensures left.Nil? ==> t == right
    ensures right.Nil? ==> t == left
    ensures left.Node? && right.Node? ==>
              t.Node? && t.heapKey == MinHeapKey(left.heapKey, left, right)
    ensures left.Node? && right.Node? && left.heapKey <= right.heapKey ==>
              t.key == left.key && t.value == left.value && t.heapKey == left.heapKey
    ensures left.Node? && right.Node? && right.heapKey < left.heapKey ==>
              t.key == right.key && t.value == right.value && t.heapKey == right.heapKey
    ensures Entries(t) == Entries(left) + Entries(right)
    ensures SizesOk(left) && SizesOk(right) ==> SizesOk(t)
    decreases Count(left) + Count(right)
  {
    if left.Nil? then
      right
    else if right.Nil? then
      left
    else if left.heapKey <= right.heapKey then
      CreateNode(left, left.left, Combine(left.right, right))
    else
      CreateNode(right, Combine(left, right.left), right.right)
  }

  lemma {:induction false} BalanceHeap<V>(source: Tree<V>, left: Tree<V>, right: Tree<V>)
    requires source.Node? && Heap(left) && Heap(right)
    ensures Heap(Balance(source, left, right))
    decreases Count(left) + Count(right)
  {
    if left.Node? && left.heapKey < source.heapKey
       && (right.Nil? || right.heapKey >= left.heapKey) {
      BalanceHeap(source, left.right, right);
      BalanceRoot(source, left.right, right);
    } else if right.Node? && right.heapKey < source.heapKey {
      BalanceHeap(source, left, right.left);
      BalanceRoot(source, left, right.left);
    }
  }

  lemma {:induction false} CombineHeap<V>(left: Tree<V>, right: Tree<V>)
    requires Heap(left) && Heap(right)
    ensures Heap(Combine(left, right))
    decreases Count(left) + Count(right)
  {
    if left.Node? && right.Node? {
      if left.heapKey <= right.heapKey {
        CombineHeap(left.right, right);
      } else {
        CombineHeap(left, right.left);
      }
    }
  }

  lemma LessTrans(a: Key, b: Key, c: Key)
    requires Less(a, b) && Less(b, c)
    ensures Less(a, c)
  {
  }

  /** Contents and keys of a tree whose entries are those of a, then e, then those of b. */
  lemma ContentsOfConcat<V>(t: Tree<V>, a: Tree<V>, e: Entry<V>, b: Tree<V>)
    requires Entries(t) == Entries(a) + [e] + Entries(b)
    ensures Contents(t) == Contents(a) + map[e.key := e.value] + Contents(b)
    ensures KeysOf(t) == KeysOf(a) + {e.key} + KeysOf(b)
  {
    MapOfConcat(Entries(a), e, Entries(b));
    ContentsOfEntries(t);
    ContentsOfEntries(a);
    ContentsOfEntries(b);
    KeysOfContents(t);
    KeysOfContents(a);
    KeysOfContents(b);
  }

  /** The binary-search-tree order of a node, from the order of its children. */
  lemma BstNode<V>(t: Tree<V>)
    requires t.Node? && Bst(t.left) && Bst(t.right)
    requires AllBelow(KeysOf(t.left), t.key) && AllAbove(KeysOf(t.right), t.key)
    ensures Bst(t)
  {
  }

  lemma BalanceContents<V>(source: Tree<V>, left: Tree<V>, right: Tree<V>)
    requires source.Node?
    ensures Contents(Balance(source, left, right))
            == Contents(left) + map[source.key := source.value] + Contents(right)
    ensures KeysOf(Balance(source, left, right)) == KeysOf(left) + {source.key} + KeysOf(right)
  {
    ContentsOfConcat(Balance(source, left, right), left, Entry(source.key, source.value), right);
  }

  lemma CombineContents<V>(left: Tree<V>, right: Tree<V>)
    ensures Contents(Combine(left, right)) == Contents(left) + Contents(right)
    ensures KeysOf(Combine(left, right)) == KeysOf(left) + KeysOf(right)
  {
    var t := Combine(left, right);
    MapOfAppend(Entries(left), Entries(right));
    ContentsOfEntries(t);
    ContentsOfEntries(left);
    ContentsOfEntries(right);
    KeysOfContents(t);
    KeysOfContents(left);
    KeysOfContents(right);
  }

  /** Balance keeps the binary-search-tree order when source's key lies between the two sides. */
  lemma {:induction false} BalanceBst<V>(source: Tree<V>, left: Tree<V>, right: Tree<V>)
    requires source.Node? && Bst(left) && Bst(right)
    requires AllBelow(KeysOf(left), source.key) && AllAbove(KeysOf(right), source.key)
    ensures Bst(Balance(source, left, right))
    decreases Count(left) + Count(right)
  {
    if left.Node? && left.heapKey < source.heapKey
       && (right.Nil? || right.heapKey >= left.heapKey) {
      BalanceBst(source, left.right, right);
      var sub := Balance(source, left.right, right);
      BalanceContents(source, left.right, right);
      forall x | x in KeysOf(sub)
        ensures Less(left.key, x)
      {
        if x in KeysOf(right) {
          LessTrans(left.key, source.key, x);
        }
      }
      BstNode(CreateNode(left, left.left, sub));
    } else if right.Node? && right.heapKey < source.heapKey {
      BalanceBst(source, left, right.left);
      var sub := Balance(source, left, right.left);
      BalanceContents(source, left, right.left);
      forall x | x in KeysOf(sub)
        ensures Less(x, right.key)
      {
        if x in KeysOf(left) {
          LessTrans(x, source.key, right.key);
        }
      }
      BstNode(CreateNode(right, sub, right.right));
    } else {
      BstNode(CreateNode(source, left, right));
    }
  }

  /** Combine keeps the binary-search-tree order when every left key precedes every right key. */
  lemma {:induction false} CombineBst<V>(left: Tree<V>, right: Tree<V>)
    requires Bst(left) && Bst(right) && AllBefore(KeysOf(left), KeysOf(right))
    ensures Bst(Combine(left, right))
    decreases Count(left) + Count(right)
  {
    if left.Node? && right.Node? {
      if left.heapKey <= right.heapKey {
        CombineBst(left.right, right);
        var sub := Combine(left.right, right);
        CombineContents(left.right, right);
        BstNode(CreateNode(left, left.left, sub));
      } else {
        CombineBst(left, right.left);
        var sub := Combine(left, right.left);
        CombineContents(left, right.left);
        BstNode(CreateNode(right, sub, right.right));
      }
    }
  }

  /** In an ordered tree whose size fields are consistent, size is the number of distinct keys. */
  lemma {:induction false} SizeIsKeyCount<V>(t: Tree<V>)
    requires Bst(t) && SizesOk(t)
    ensures SizeOf(t) == |KeysOf(t)| == |Contents(t).Keys|
  {
    KeysOfContents(t);
    SizeCountsNodes(t);
    if t.Node? {
      SizeIsKeyCount(t.left);
      SizeIsKeyCount(t.right);
      SizeCountsNodes(t.left);
      SizeCountsNodes(t.right);
      assert t.key !in KeysOf(t.left);
      assert t.key !in KeysOf(t.right);
      assert KeysOf(t.left) !! KeysOf(t.right) by {
        forall x | x in KeysOf(t.left) && x in KeysOf(t.right)
          ensures false
        {
          LessTrans(x, t.key, x);
        }
      }
      assert |KeysOf(t.left) + {t.key}| == |KeysOf(t.left)| + 1;
    }
  }
}
