/** The best-first traversal over the arena trie: a max-heap of items whose
    derived order puts the smallest value on top, then the larger index, then
    the larger depth. The heap is modelled as a sequence from which a greatest
    item is removed; which one of several equal items goes first cannot be
    observed, since equal items agree in every field. */
module ArenaBestFirst {
  import opened Wrappers
  import opened SentinelNode
  import opened Arena
  import ArenaDfs

  datatype HeapItem = HeapItem(value: int, index: nat, depth: nat)

  /** The order Rust derives for `HeapItem`, whose value is wrapped in `Reverse`:
      field by field, with the comparison of values turned around
      (vocab-tree/src/traversal_inorder.rs:15-20). */
  predicate Less(x: HeapItem, y: HeapItem)
  {
    x.value > y.value
    || (x.value == y.value && (x.index < y.index || (x.index == y.index && x.depth < y.depth)))
  }

  /** `Less` is a strict total order. */
  lemma LessOrder(x: HeapItem, y: HeapItem, z: HeapItem)
    ensures !Less(x, x)
    ensures Less(x, y) ==> !Less(y, x)
    ensures Less(x, y) && Less(y, z) ==> Less(x, z)
    ensures x == y || Less(x, y) || Less(y, x)
  {
  }

  /** The position of the item `BinaryHeap::pop` returns: a greatest one
      (`MaxAtGreatest`). */
  function MaxAt(h: seq<HeapItem>): (m: nat)
    requires h != []
    ensures m < |h|
  {
    if |h| == 1 then 0
    else
      var m := MaxAt(h[..|h| - 1]);
      if Less(h[m], h[|h| - 1]) then |h| - 1 else m
  }

  /** No item of a heap is greater than the one at `MaxAt`. */
  lemma {:induction false} MaxAtGreatest(h: seq<HeapItem>)
    requires h != []
    ensures forall k :: 0 <= k < |h| ==> !Less(h[MaxAt(h)], h[k])
  {
    var m := MaxAt(h);
    if |h| == 1 {
      LessOrder(h[0], h[0], h[0]);
    } else {
      var init := h[..|h| - 1];
      var m' := MaxAt(init);
      MaxAtGreatest(init);
      forall k | 0 <= k < |h| ensures !Less(h[m], h[k]) {
        LessOrder(h[m'], h[|h| - 1], h[k]);
        LessOrder(h[k], h[k], h[k]);
        if k < |h| - 1 {
          assert init[k] == h[k];
        }
      }
    }
  }

  function Without(h: seq<HeapItem>, m: nat): (r: seq<HeapItem>)
    requires m < |h|
    ensures |r| == |h| - 1
  {
    h[..m] + h[m + 1..]
  }

  function HeapIndices(h: seq<HeapItem>): (r: seq<nat>)
    ensures |r| == |h| && forall k :: 0 <= k < |h| ==> r[k] == h[k].index
  {
    seq(|h|, k requires 0 <= k < |h| => h[k].index)
  }

  /** Every item names a node and a depth the pattern can be sliced at. */
  predicate HeapOk(a: seq<ArenaNode>, pattern: Option<seq<Option<Key>>>, h: seq<HeapItem>)
  {
    forall k :: 0 <= k < |h| ==> h[k].index < |a| && DepthOk(pattern, h[k].depth)
  }

  /** The items pushed for the children the pattern admits, each with its node's value. */
  function ChildItems(a: seq<ArenaNode>, pattern: Option<seq<Option<Key>>>, it: HeapItem): (r: seq<HeapItem>)
    requires ChildrenOk(a) && it.index < |a| && DepthOk(pattern, it.depth)
    ensures HeapOk(a, pattern, r)
    ensures HeapIndices(r) == Admitted(a, pattern, it.index, it.depth)
    ensures forall k :: 0 <= k < |r| ==> r[k].value == a[r[k].index].value && r[k].depth == it.depth + 1
  {
    var cs := Admitted(a, pattern, it.index, it.depth);
    var r := seq(|cs|, k requires 0 <= k < |cs| => HeapItem(a[cs[k]].value, cs[k], it.depth + 1));
    assert forall k :: 0 <= k < |cs| ==> cs[k] in cs;
    r
  }

  lemma HeapOkSplice(a: seq<ArenaNode>, pattern: Option<seq<Option<Key>>>, h: seq<HeapItem>, m: nat, kids: seq<HeapItem>)
    requires HeapOk(a, pattern, h) && m < |h| && HeapOk(a, pattern, kids)
    ensures HeapOk(a, pattern, Without(h, m) + kids)
  {
    var r := Without(h, m) + kids;
    forall k | 0 <= k < |r| ensures r[k].index < |a| && DepthOk(pattern, r[k].depth) {
      if k < |h| - 1 {
        assert r[k] == (if k < m then h[k] else h[k + 1]);
      } else {
        assert r[k] == kids[k - (|h| - 1)];
      }
    }
  }

  /** The heap after popping a greatest item and pushing the items for its admitted children. */
  function Step(a: seq<ArenaNode>, pattern: Option<seq<Option<Key>>>, h: seq<HeapItem>): (r: seq<HeapItem>)
    requires ChildrenOk(a) && HeapOk(a, pattern, h) && h != []
    ensures HeapOk(a, pattern, r)
  {
    var m := MaxAt(h);
    var kids := ChildItems(a, pattern, h[m]);
    HeapOkSplice(a, pattern, h, m, kids);
    Without(h, m) + kids
  }

  lemma HeapIndicesAppend(x: seq<HeapItem>, y: seq<HeapItem>)
    ensures HeapIndices(x + y) == HeapIndices(x) + HeapIndices(y)
  {
    assert forall k :: 0 <= k < |x + y| ==> HeapIndices(x + y)[k] == (HeapIndices(x) + HeapIndices(y))[k];
  }

  lemma InRangeParts(a: seq<ArenaNode>, x: seq<nat>, y: seq<nat>)
    requires InRange(a, x + y)
    ensures InRange(a, x) && InRange(a, y)
  {
    assert forall k :: 0 <= k < |x| ==> x[k] == (x + y)[k];
    assert forall k :: 0 <= k < |y| ==> y[k] == (x + y)[|x| + k];
  }

  /** The node indices of a heap: those before position `m`, the one at `m`,
      then those after it. */
  lemma IndicesAround(h: seq<HeapItem>, m: nat)
    requires m < |h|
    ensures HeapIndices(h) == HeapIndices(h)[..m] + [h[m].index] + HeapIndices(h)[m + 1..]
  {
    var s := HeapIndices(h);
    assert s == s[..m] + [s[m]] + s[m + 1..];
  }

  /** Taking out the item at `m` takes out its index. */
  lemma IndicesWithout(h: seq<HeapItem>, m: nat)
    requires m < |h|
    ensures HeapIndices(Without(h, m)) == HeapIndices(h)[..m] + HeapIndices(h)[m + 1..]
  {
    var s, w := HeapIndices(h), Without(h, m);
    var r := s[..m] + s[m + 1..];
    forall k | 0 <= k < |w| ensures HeapIndices(w)[k] == r[k] {
      if k < m {
        assert w[k] == h[k];
      } else {
        assert w[k] == h[k + 1];
        assert r[k] == s[k + 1];
      }
    }
  }

  lemma WeightWithout(a: seq<ArenaNode>, h: seq<HeapItem>, m: nat)
    requires ChildrenOk(a) && InRange(a, HeapIndices(h)) && m < |h|
    ensures InRange(a, HeapIndices(Without(h, m)))
    ensures Weight(a, HeapIndices(h)) == Weight(a, HeapIndices(Without(h, m))) + Size(a, h[m].index)
  {
    var x, y := HeapIndices(h)[..m], HeapIndices(h)[m + 1..];
    IndicesAround(h, m);
    IndicesWithout(h, m);
    assert InRange(a, x) && InRange(a, y) && InRange(a, [h[m].index]) by {
      InRangeParts(a, x + [h[m].index], y);
      InRangeParts(a, x, [h[m].index]);
    }
    WeightAppend(a, x + [h[m].index], y);
    WeightAppend(a, x, [h[m].index]);
    WeightAppend(a, x, y);
    assert [h[m].index][..0] == [];
  }

  lemma StepShrinks(a: seq<ArenaNode>, pattern: Option<seq<Option<Key>>>, h: seq<HeapItem>)
    requires ChildrenOk(a) && HeapOk(a, pattern, h) && h != []
    ensures InRange(a, HeapIndices(h)) && InRange(a, HeapIndices(Step(a, pattern, h)))
    ensures Weight(a, HeapIndices(Step(a, pattern, h))) < Weight(a, HeapIndices(h))
  {
    var m := MaxAt(h);
    var rest := Without(h, m);
    var kids := ChildItems(a, pattern, h[m]);
    assert InRange(a, HeapIndices(h));
    WeightWithout(a, h, m);
    AdmittedIsSmaller(a, pattern, h[m].index, h[m].depth);
    HeapIndicesAppend(rest, kids);
    WeightAppend(a, HeapIndices(rest), HeapIndices(kids));
  }

  function Pending(a: seq<ArenaNode>, pattern: Option<seq<Option<Key>>>, h: seq<HeapItem>): nat
    requires ChildrenOk(a) && HeapOk(a, pattern, h)
  {
    assert InRange(a, HeapIndices(h));
    Weight(a, HeapIndices(h))
  }

  /** Every item the traversal pops from heap `h` on, in order. */
  function Walk(a: seq<ArenaNode>, pattern: Option<seq<Option<Key>>>, h: seq<HeapItem>): (r: seq<HeapItem>)
    requires ChildrenOk(a) && HeapOk(a, pattern, h)
    ensures HeapOk(a, pattern, r)
    decreases Pending(a, pattern, h)
  {
    if h == [] then []
    else
      var top := h[MaxAt(h)];
      var next := Step(a, pattern, h);
      StepShrinks(a, pattern, h);
      var rest := Walk(a, pattern, next);
      HeapOkCons(a, pattern, top, rest);
      [top] + rest
  }

  lemma HeapOkCons(a: seq<ArenaNode>, pattern: Option<seq<Option<Key>>>, x: HeapItem, h: seq<HeapItem>)
    requires x.index < |a| && DepthOk(pattern, x.depth) && HeapOk(a, pattern, h)
    ensures HeapOk(a, pattern, [x] + h)
  {
    assert forall k :: 0 < k < |[x] + h| ==> ([x] + h)[k] == h[k - 1];
  }

  lemma WalkUnfold(a: seq<ArenaNode>, pattern: Option<seq<Option<Key>>>, h: seq<HeapItem>)
    requires ChildrenOk(a) && HeapOk(a, pattern, h) && h != []
    ensures Walk(a, pattern, h) == [h[MaxAt(h)]] + Walk(a, pattern, Step(a, pattern, h))
  {
  }

  /** The heap the traversal starts with: nothing for an empty arena, otherwise
      one item for `start` carrying the root's value, whatever `start` is
      (vocab-tree/src/traversal_inorder.rs:40-55). */
  function Initial(a: seq<ArenaNode>, start: nat): (r: seq<HeapItem>)
    ensures |a| == 0 ==> r == []
    ensures |a| > 0 ==> r == [HeapItem(a[0].value, start, 0)]
  {
    if |a| == 0 then [] else [HeapItem(a[0].value, start, 0)]
  }

  /** `DijkstraTraversal`: a read-only view of the arena, a heap and a pattern. */
  class DijkstraTraversal {
    const trie: seq<ArenaNode>
    const pattern: Option<seq<Option<Key>>>
    var heap: seq<HeapItem>

    ghost predicate Valid()
      reads this
    {
      WellFormed(trie) && PatternOk(pattern) && HeapOk(trie, pattern, heap)
    }

    /** The items still to be popped, in order. */
    ghost function Remaining(): seq<HeapItem>
      reads this
      requires Valid()
    {
      Walk(trie, pattern, heap)
    }

    /** `DijkstraTraversal::from_index` (vocab-tree/src/traversal_inorder.rs:40-55). */
    constructor FromIndex(trie: seq<ArenaNode>, start: nat, pattern: Option<seq<Option<Key>>>)
      requires WellFormed(trie) && (|trie| > 0 ==> start < |trie|) && PatternOk(pattern)
      ensures Valid() && this.trie == trie && this.pattern == pattern
      ensures heap == Initial(trie, start)
    {
      this.trie := trie;
      this.pattern := pattern;
      if |trie| > 0 {
        heap := [HeapItem(trie[0].value, start, 0)];
      } else {
        heap := [];
      }
    }

    /** `DijkstraTraversal::from_root` (vocab-tree/src/traversal_inorder.rs:33-38). */
    constructor FromRoot(trie: seq<ArenaNode>, pattern: Option<seq<Option<Key>>>)
      requires WellFormed(trie) && PatternOk(pattern)
      ensures Valid() && this.trie == trie && this.pattern == pattern
      ensures heap == Initial(trie, 0)
    {
      this.trie := trie;
      this.pattern := pattern;
      if |trie| > 0 {
        heap := [HeapItem(trie[0].value, 0, 0)];
      } else {
        heap := [];
      }
    }

    /** `DijkstraTraversal::next`: pop a greatest item, push items for the
        children the pattern admits, and yield the popped node; `None` once the
        heap is empty (vocab-tree/src/traversal_inorder.rs:65-107). */
    method Next() returns (r: Option<ArenaNode>)
      requires Valid()
      modifies this
      ensures Valid()
      ensures old(Remaining()) == [] ==> r.None? && Remaining() == []
      ensures old(Remaining()) != [] ==>
        r == Some(trie[old(Remaining())[0].index]) && Remaining() == old(Remaining())[1..]
    {
      if heap == [] {
        return None;
      }
      var item, h := Pop(trie, pattern, heap);
      heap := h;
      r := Some(trie[item.index]);
    }
  }

  /** Pops a greatest item of `h` and pushes the items for the children the
      pattern admits below it. */
  method Pop(a: seq<ArenaNode>, pattern: Option<seq<Option<Key>>>, h: seq<HeapItem>) returns (item: HeapItem, next: seq<HeapItem>)
    requires ChildrenOk(a) && HeapOk(a, pattern, h) && h != []
    ensures item == h[MaxAt(h)] && next == Step(a, pattern, h)
    ensures Walk(a, pattern, h) == [item] + Walk(a, pattern, next)
  {
    var m := PopPosition(h);
    item := h[m];
    var children := Admitted(a, pattern, item.index, item.depth);
    ghost var kids := ChildItems(a, pattern, item);
    next := h[..m] + h[m + 1..];
    var k := 0;
    while k < |children|
      invariant 0 <= k <= |children|
      invariant next == Without(h, m) + kids[..k]
    {
      assert children[k] in children;
      assert kids[k] == HeapItem(a[children[k]].value, children[k], item.depth + 1);
      assert kids[..k + 1] == kids[..k] + [kids[k]];
      next := next + [HeapItem(a[children[k]].value, children[k], item.depth + 1)];
      k := k + 1;
    }
    assert kids[..k] == kids;
    WalkUnfold(a, pattern, h);
  }

  /** The scan `BinaryHeap::pop` stands for: the position of a greatest item. */
  method PopPosition(h: seq<HeapItem>) returns (m: nat)
    requires h != []
    ensures m == MaxAt(h)
  {
    m := 0;
    var k := 1;
    assert h[..1] == [h[0]];
    while k < |h|
      invariant 1 <= k <= |h| && m < k
      invariant m == MaxAt(h[..k])
    {
      assert h[..k + 1][..k] == h[..k];
      assert h[..k + 1][k] == h[k];
      assert h[..k][m] == h[m];
      if Less(h[m], h[k]) {
        m := k;
      }
      k := k + 1;
    }
    assert h[..k] == h;
  }

  // ---------------------------------------------------------------------------
  // Which nodes are visited.

  /** The item the traversal pushes for entry `e`: the start's item carries the
      root's value, every other item its own node's. */
  function ItemFor(a: seq<ArenaNode>, e: ArenaDfs.Entry): (r: HeapItem)
    requires 0 < |a| && e.0 < |a|
    ensures r.index == e.0 && r.depth == e.1
    ensures r.value == if e.1 == 0 then a[0].value else a[e.0].value
  {
    HeapItem(if e.1 == 0 then a[0].value else a[e.0].value, e.0, e.1)
  }

  /** The heap after a step: the other items, then the pushed ones. */
  lemma StepAt(a: seq<ArenaNode>, pattern: Option<seq<Option<Key>>>, h: seq<HeapItem>, k: nat)
    requires ChildrenOk(a) && HeapOk(a, pattern, h) && h != []
    ensures |Step(a, pattern, h)| == |h| - 1 + |ChildItems(a, pattern, h[MaxAt(h)])|
    ensures k < |h| - 1 ==> Step(a, pattern, h)[k] == if k < MaxAt(h) then h[k] else h[k + 1]
    ensures |h| - 1 <= k < |Step(a, pattern, h)| ==>
      Step(a, pattern, h)[k] == ChildItems(a, pattern, h[MaxAt(h)])[k - (|h| - 1)]
  {
    var m := MaxAt(h);
    var rest, kids := Without(h, m), ChildItems(a, pattern, h[m]);
    var r := Step(a, pattern, h);
    assert r == rest + kids;
    if k < |h| - 1 {
      assert r[k] == rest[k];
      assert rest[k] == if k < m then h[k] else h[k + 1];
    } else if k < |r| {
      assert r[k] == kids[k - (|h| - 1)];
    }
  }

  /** Every item in the heap is popped at some point. */
  lemma {:induction false} HeapInWalk(a: seq<ArenaNode>, pattern: Option<seq<Option<Key>>>, h: seq<HeapItem>, k: nat)
    requires ChildrenOk(a) && HeapOk(a, pattern, h) && k < |h|
    ensures h[k] in Walk(a, pattern, h)
    decreases Pending(a, pattern, h)
  {
    var m := MaxAt(h);
    WalkUnfold(a, pattern, h);
    if k != m {
      var next := Step(a, pattern, h);
      var k' := if k < m then k else k - 1;
      assert next[k'] == h[k] by {
        StepAt(a, pattern, h, k');
      }
      assert Pending(a, pattern, next) < Pending(a, pattern, h) by {
        StepShrinks(a, pattern, h);
      }
      HeapInWalk(a, pattern, next, k');
    }
  }

  /** The item a step pushes for the `x`-th admitted child of the popped item. */
  lemma StepPushes(a: seq<ArenaNode>, pattern: Option<seq<Option<Key>>>, h: seq<HeapItem>, x: nat)
    requires ChildrenOk(a) && HeapOk(a, pattern, h) && h != []
    requires x < |Admitted(a, pattern, h[MaxAt(h)].index, h[MaxAt(h)].depth)|
    ensures |h| - 1 + x < |Step(a, pattern, h)|
    ensures Step(a, pattern, h)[|h| - 1 + x] == HeapItem(
      a[Admitted(a, pattern, h[MaxAt(h)].index, h[MaxAt(h)].depth)[x]].value,
      Admitted(a, pattern, h[MaxAt(h)].index, h[MaxAt(h)].depth)[x], h[MaxAt(h)].depth + 1)
  {
    var m := MaxAt(h);
    var kids := ChildItems(a, pattern, h[m]);
    assert kids[x].index == Admitted(a, pattern, h[m].index, h[m].depth)[x] by {
      assert HeapIndices(kids)[x] == kids[x].index;
    }
    var rest := Without(h, m);
    assert Step(a, pattern, h) == rest + kids;
    assert (rest + kids)[|rest| + x] == kids[x];
  }

  /** The item for an admitted child is pushed when its parent's item is popped. */
  lemma PushedItem(a: seq<ArenaNode>, pattern: Option<seq<Option<Key>>>, h: seq<HeapItem>, c: nat)
    requires ChildrenOk(a) && HeapOk(a, pattern, h) && h != [] && c < |a|
    requires c in Admitted(a, pattern, h[MaxAt(h)].index, h[MaxAt(h)].depth)
    ensures HeapItem(a[c].value, c, h[MaxAt(h)].depth + 1) in Step(a, pattern, h)
  {
    var cs := Admitted(a, pattern, h[MaxAt(h)].index, h[MaxAt(h)].depth);
    var x :| 0 <= x < |cs| && cs[x] == c;
    StepPushes(a, pattern, h, x);
  }

  /** Whatever is pushed when an item is popped is popped later. */
  lemma {:induction false} WalkClosed(a: seq<ArenaNode>, pattern: Option<seq<Option<Key>>>, h: seq<HeapItem>, it: HeapItem, c: nat)
    requires ChildrenOk(a) && HeapOk(a, pattern, h) && it in Walk(a, pattern, h)
    requires it.index < |a| && DepthOk(pattern, it.depth) && c < |a|
    requires c in Admitted(a, pattern, it.index, it.depth)
    ensures HeapItem(a[c].value, c, it.depth + 1) in Walk(a, pattern, h)
    decreases Pending(a, pattern, h)
  {
    if h != [] {
      var next := Step(a, pattern, h);
      assert Walk(a, pattern, h) == [h[MaxAt(h)]] + Walk(a, pattern, next) by {
        WalkUnfold(a, pattern, h);
      }
      assert Pending(a, pattern, next) < Pending(a, pattern, h) by {
        StepShrinks(a, pattern, h);
      }
      if it == h[MaxAt(h)] {
        PushedItem(a, pattern, h, c);
        var k :| 0 <= k < |next| && next[k] == HeapItem(a[c].value, c, it.depth + 1);
        HeapInWalk(a, pattern, next, k);
      } else {
        WalkClosed(a, pattern, next, it, c);
      }
    }
  }

  /** The start's item is the first one popped. */
  lemma StartPopped(a: seq<ArenaNode>, pattern: Option<seq<Option<Key>>>, start: nat)
    requires ChildrenOk(a) && start < |a| && PatternOk(pattern)
    ensures ItemFor(a, (start, 0)) in Walk(a, pattern, Initial(a, start))
  {
    WalkUnfold(a, pattern, Initial(a, start));
  }

  /** The item of every child admitted below an item of `w` is in `w` too. */
  predicate Closed(a: seq<ArenaNode>, pattern: Option<seq<Option<Key>>>, w: seq<HeapItem>)
  {
    && ChildrenOk(a)
    && forall it, c {:trigger c in Admitted(a, pattern, it.index, it.depth), it in w} ::
         (it in w && it.index < |a| && DepthOk(pattern, it.depth) && c < |a|
          && c in Admitted(a, pattern, it.index, it.depth)) ==> HeapItem(a[c].value, c, it.depth + 1) in w
  }

  /** The items a traversal pops are closed under what the pattern admits. */
  lemma WalkIsClosed(a: seq<ArenaNode>, pattern: Option<seq<Option<Key>>>, h: seq<HeapItem>)
    requires ChildrenOk(a) && HeapOk(a, pattern, h)
    ensures Closed(a, pattern, Walk(a, pattern, h))
  {
    var w := Walk(a, pattern, h);
    forall it, c |
        it in w && it.index < |a| && DepthOk(pattern, it.depth) && c < |a|
        && c in Admitted(a, pattern, it.index, it.depth)
      ensures HeapItem(a[c].value, c, it.depth + 1) in w
    {
      WalkClosed(a, pattern, h, it, c);
    }
  }

  /** The item of every entry on the pattern's path from the start is popped:
      the traversal misses nothing the pattern admits
      (vocab-tree/src/traversal_inorder.rs:65-107). */
  lemma WalkComplete(a: seq<ArenaNode>, pattern: Option<seq<Option<Key>>>, start: nat, e: ArenaDfs.Entry)
    requires WellFormed(a) && start < |a| && PatternOk(pattern)
    requires ArenaDfs.Reaches(a, pattern, start, e)
    ensures e.0 < |a| && ItemFor(a, e) in Walk(a, pattern, Initial(a, start))
  {
    StartPopped(a, pattern, start);
    WalkIsClosed(a, pattern, Initial(a, start));
    ClosedHoldsPath(a, pattern, Walk(a, pattern, Initial(a, start)), start, e);
  }

  /** A closed sequence holding the start's item holds the item of every entry
      on the path from it. */
  lemma {:induction false} ClosedHoldsPath(a: seq<ArenaNode>, pattern: Option<seq<Option<Key>>>, w: seq<HeapItem>, start: nat, e: ArenaDfs.Entry)
    requires WellFormed(a) && start < |a| && Closed(a, pattern, w) && ItemFor(a, (start, 0)) in w
    requires ArenaDfs.Reaches(a, pattern, start, e)
    ensures e.0 < |a| && ItemFor(a, e) in w
    decreases e.1
  {
    ArenaDfs.ReachesUnfold(a, pattern, start, e);
    if e.1 > 0 {
      var pe := (a[e.0].parent.value, e.1 - 1);
      assert pe.0 < |a| && ItemFor(a, pe) in w by {
        ClosedHoldsPath(a, pattern, w, start, pe);
      }
      assert DepthOk(pattern, pe.1) && e.0 in Admitted(a, pattern, pe.0, pe.1) by {
        ArenaDfs.ParentAdmits(a, pattern, e.0, pe.1);
      }
      var it := ItemFor(a, pe);
      assert HeapItem(a[e.0].value, e.0, it.depth + 1) in w;
    }
  }

  /** Every item pushed while all heap items lie on the path lies on it too. */
  lemma StepReaches(a: seq<ArenaNode>, pattern: Option<seq<Option<Key>>>, start: nat, h: seq<HeapItem>)
    requires WellFormed(a) && HeapOk(a, pattern, h) && h != []
    requires forall k :: 0 <= k < |h| ==> ArenaDfs.Reaches(a, pattern, start, (h[k].index, h[k].depth))
    ensures forall k :: 0 <= k < |Step(a, pattern, h)| ==>
      ArenaDfs.Reaches(a, pattern, start, (Step(a, pattern, h)[k].index, Step(a, pattern, h)[k].depth))
  {
    var m := MaxAt(h);
    var top := h[m];
    var kids := ChildItems(a, pattern, top);
    var cs := Admitted(a, pattern, top.index, top.depth);
    var r := Step(a, pattern, h);
    forall k | 0 <= k < |r| ensures ArenaDfs.Reaches(a, pattern, start, (r[k].index, r[k].depth)) {
      StepAt(a, pattern, h, k);
      if k < |h| - 1 {
        assert r[k] == (if k < m then h[k] else h[k + 1]);
      } else {
        var c := cs[k - (|h| - 1)];
        assert r[k] == kids[k - (|h| - 1)];
        assert HeapIndices(kids)[k - (|h| - 1)] == c;
        ArenaDfs.AdmittedReaches(a, pattern, start, top.index, top.depth, c);
      }
    }
  }

  lemma {:induction false} WalkReaches(a: seq<ArenaNode>, pattern: Option<seq<Option<Key>>>, start: nat, h: seq<HeapItem>, it: HeapItem)
    requires WellFormed(a) && HeapOk(a, pattern, h)
    requires forall k :: 0 <= k < |h| ==> ArenaDfs.Reaches(a, pattern, start, (h[k].index, h[k].depth))
    requires it in Walk(a, pattern, h)
    ensures ArenaDfs.Reaches(a, pattern, start, (it.index, it.depth))
    decreases Pending(a, pattern, h)
  {
    WalkUnfold(a, pattern, h);
    if it != h[MaxAt(h)] {
      StepShrinks(a, pattern, h);
      StepReaches(a, pattern, start, h);
      WalkReaches(a, pattern, start, Step(a, pattern, h), it);
    }
  }

  /** Every item of the heap is the item `ItemFor` gives for its entry. */
  predicate AllItemsFor(a: seq<ArenaNode>, h: seq<HeapItem>)
  {
    0 < |a| && forall k :: 0 <= k < |h| ==> h[k].index < |a| && h[k] == ItemFor(a, (h[k].index, h[k].depth))
  }

  lemma StepItemsFor(a: seq<ArenaNode>, pattern: Option<seq<Option<Key>>>, h: seq<HeapItem>)
    requires ChildrenOk(a) && HeapOk(a, pattern, h) && h != [] && AllItemsFor(a, h)
    ensures AllItemsFor(a, Step(a, pattern, h))
  {
    var m := MaxAt(h);
    var kids := ChildItems(a, pattern, h[m]);
    var r := Step(a, pattern, h);
    forall k | 0 <= k < |r| ensures r[k].index < |a| && r[k] == ItemFor(a, (r[k].index, r[k].depth)) {
      StepAt(a, pattern, h, k);
      if k < |h| - 1 {
        assert r[k] == (if k < m then h[k] else h[k + 1]);
      } else {
        assert r[k] == kids[k - (|h| - 1)];
      }
    }
  }

  lemma {:induction false} WalkItemsFor(a: seq<ArenaNode>, pattern: Option<seq<Option<Key>>>, h: seq<HeapItem>, it: HeapItem)
    requires ChildrenOk(a) && HeapOk(a, pattern, h) && AllItemsFor(a, h)
    requires it in Walk(a, pattern, h)
    ensures it.index < |a| && it == ItemFor(a, (it.index, it.depth))
    decreases Pending(a, pattern, h)
  {
    WalkUnfold(a, pattern, h);
    if it != h[MaxAt(h)] {
      StepShrinks(a, pattern, h);
      StepItemsFor(a, pattern, h);
      WalkItemsFor(a, pattern, Step(a, pattern, h), it);
    }
  }

  /** A traversal from `start` pops exactly the items of the entries on the
      pattern's path from it, the same entries as the depth-first traversal
      (vocab-tree/src/traversal_inorder.rs:40-107). */
  lemma TraversalExactly(a: seq<ArenaNode>, pattern: Option<seq<Option<Key>>>, start: nat, it: HeapItem)
    requires WellFormed(a) && start < |a| && PatternOk(pattern)
    ensures it in Walk(a, pattern, Initial(a, start)) <==>
      it.index < |a| && ArenaDfs.Reaches(a, pattern, start, (it.index, it.depth)) && it == ItemFor(a, (it.index, it.depth))
  {
    var h := Initial(a, start);
    var e := (it.index, it.depth);
    if it.index < |a| && ArenaDfs.Reaches(a, pattern, start, e) && it == ItemFor(a, e) {
      WalkComplete(a, pattern, start, e);
    }
    if it in Walk(a, pattern, h) {
      WalkReaches(a, pattern, start, h, it);
      WalkItemsFor(a, pattern, h, it);
    }
  }

  /** The node indices of a heap around its popped item, before and after a step. */
  lemma StepIndices(a: seq<ArenaNode>, pattern: Option<seq<Option<Key>>>, h: seq<HeapItem>)
    requires ChildrenOk(a) && HeapOk(a, pattern, h) && h != []
    ensures HeapIndices(h) == HeapIndices(h)[..MaxAt(h)] + [h[MaxAt(h)].index] + HeapIndices(h)[MaxAt(h) + 1..]
    ensures HeapIndices(Step(a, pattern, h)) == HeapIndices(h)[..MaxAt(h)] + HeapIndices(h)[MaxAt(h) + 1..]
      + Admitted(a, pattern, h[MaxAt(h)].index, h[MaxAt(h)].depth)
  {
    var m := MaxAt(h);
    IndicesAround(h, m);
    IndicesWithout(h, m);
    HeapIndicesAppend(Without(h, m), ChildItems(a, pattern, h[m]));
  }

  /** Taking the node at position `m` out of a list and adding its children
      trades it for their subtrees. */
  lemma SubtreesTrade(a: seq<ArenaNode>, before: seq<nat>, m: nat, after: seq<nat>)
    requires ChildrenOk(a) && InRange(a, before) && m < |before|
    requires after == before[..m] + before[m + 1..] + a[before[m]].children
    ensures InRange(a, after)
    ensures Subtrees(a, after) + multiset{before[m]} == Subtrees(a, before)
  {
    var pre, i, post := before[..m], before[m], before[m + 1..];
    assert before == pre + [i] + post;
    InRangeParts(a, pre + [i], post);
    InRangeParts(a, pre, [i]);
    SubtreesOfAllChildren(a, i);
    SubtreesSnoc(a, pre, i);
    SubtreesAppend(a, pre + [i], post);
    SubtreesAppend(a, pre, post);
    SubtreesAppend(a, pre + post, a[i].children);
  }

  lemma HeapInRange(a: seq<ArenaNode>, pattern: Option<seq<Option<Key>>>, h: seq<HeapItem>)
    requires HeapOk(a, pattern, h)
    ensures InRange(a, HeapIndices(h))
  {
  }

  /** Without a pattern one step trades the popped node for its children's subtrees. */
  lemma StepSubtrees(a: seq<ArenaNode>, h: seq<HeapItem>)
    requires ChildrenOk(a) && HeapOk(a, None, h) && h != []
    ensures InRange(a, HeapIndices(h)) && InRange(a, HeapIndices(Step(a, None, h)))
    ensures Subtrees(a, HeapIndices(Step(a, None, h))) + multiset{h[MaxAt(h)].index} == Subtrees(a, HeapIndices(h))
  {
    var m := MaxAt(h);
    StepIndices(a, None, h);
    HeapInRange(a, None, h);
    SubtreesTrade(a, HeapIndices(h), m, HeapIndices(Step(a, None, h)));
  }

  lemma WalkHead(a: seq<ArenaNode>, h: seq<HeapItem>)
    requires ChildrenOk(a) && HeapOk(a, None, h) && h != []
    ensures multiset(HeapIndices(Walk(a, None, h)))
      == multiset{h[MaxAt(h)].index} + multiset(HeapIndices(Walk(a, None, Step(a, None, h))))
  {
    var top := h[MaxAt(h)];
    var rest := Walk(a, None, Step(a, None, h));
    WalkUnfold(a, None, h);
    HeapIndicesAppend([top], rest);
    assert HeapIndices([top]) == [top.index];
  }

  /** With no pattern the traversal pops exactly the nodes under the heap's
      items, each as often as it occurs there. */
  lemma {:induction false} WalkVisitsSubtrees(a: seq<ArenaNode>, h: seq<HeapItem>)
    requires ChildrenOk(a) && HeapOk(a, None, h)
    ensures InRange(a, HeapIndices(h)) && multiset(HeapIndices(Walk(a, None, h))) == Subtrees(a, HeapIndices(h))
    decreases Pending(a, None, h)
  {
    if h != [] {
      StepShrinks(a, None, h);
      WalkVisitsSubtrees(a, Step(a, None, h));
      StepSubtrees(a, h);
      WalkHead(a, h);
    } else {
      assert HeapIndices(Walk(a, None, h)) == [];
    }
  }

  /** With no pattern, the traversal from the root visits the root's subtree. */
  lemma RootWalkIsSubtree(a: seq<ArenaNode>)
    requires WellFormed(a) && |a| > 0
    ensures multiset(HeapIndices(Walk(a, None, Initial(a, 0)))) == multiset(Subtree(a, 0))
  {
    var h := Initial(a, 0);
    assert HeapIndices(h) == [0] by {
      assert HeapIndices(h)[0] == 0;
    }
    WalkVisitsSubtrees(a, h);
    SubtreesOne(a, 0);
  }

  /** With no pattern, the traversal from the root visits every node of the
      arena exactly once and nothing else, as many nodes as the arena holds
      (vocab-tree/src/traversal_inorder.rs:65-107). */
  lemma EveryNodeVisitedOnce(a: seq<ArenaNode>)
    requires WellFormed(a) && |a| > 0
    ensures forall j :: 0 <= j < |a| ==> multiset(HeapIndices(Walk(a, None, Initial(a, 0))))[j] == 1
    ensures |Walk(a, None, Initial(a, 0))| == |a|
  {
    var w := Walk(a, None, Initial(a, 0));
    var m := multiset(HeapIndices(w));
    RootWalkIsSubtree(a);
    forall j | 0 <= j < |a| ensures m[j] == 1 {
      EveryNodeOnceUnderRoot(a, j);
    }
    IndicesBelow(a, None, w);
    ArenaDfs.OnceEachHasSize(m, |a|);
  }

  /** Every node index a heap's items name lies in the arena. */
  lemma IndicesBelow(a: seq<ArenaNode>, pattern: Option<seq<Option<Key>>>, h: seq<HeapItem>)
    requires HeapOk(a, pattern, h)
    ensures forall x :: x in multiset(HeapIndices(h)) ==> x < |a|
  {
    forall x | x in multiset(HeapIndices(h)) ensures x < |a| {
      var k :| 0 <= k < |h| && HeapIndices(h)[k] == x;
    }
  }

  // ---------------------------------------------------------------------------
  // Order of the values.

  /** With values that never decrease from a parent to a child, the root's
      value is the least. */
  lemma {:induction false} RootValueLeast(a: seq<ArenaNode>, j: nat)
    requires WellFormed(a) && Monotone(a) && j < |a|
    ensures a[0].value <= a[j].value
    decreases j
  {
    if j > 0 {
      var p := a[j].parent.value;
      RootValueLeast(a, p);
      var x :| 0 <= x < |a[p].children| && a[p].children[x] == j;
    }
  }

  /** Each item's value is at most its node's, and at least `v`. */
  predicate Bounded(a: seq<ArenaNode>, pattern: Option<seq<Option<Key>>>, h: seq<HeapItem>, v: int)
    requires HeapOk(a, pattern, h)
  {
    forall k :: 0 <= k < |h| ==> v <= h[k].value <= a[h[k].index].value
  }

  predicate SortedByValue(w: seq<HeapItem>)
  {
    forall x, y :: 0 <= x < y < |w| ==> w[x].value <= w[y].value
  }

  /** Popping the least value keeps the rest of the heap, and the children
      pushed for it, bounded by that value. */
  lemma StepBounded(a: seq<ArenaNode>, pattern: Option<seq<Option<Key>>>, h: seq<HeapItem>, v: int)
    requires WellFormed(a) && Monotone(a) && HeapOk(a, pattern, h) && h != [] && Bounded(a, pattern, h, v)
    ensures v <= h[MaxAt(h)].value
    ensures Bounded(a, pattern, Step(a, pattern, h), h[MaxAt(h)].value)
  {
    var m := MaxAt(h);
    var top := h[m];
    var rest := Without(h, m);
    var kids := ChildItems(a, pattern, top);
    var cs := Admitted(a, pattern, top.index, top.depth);
    var r := Step(a, pattern, h);
    MaxAtGreatest(h);
    forall k | 0 <= k < |r| ensures top.value <= r[k].value <= a[r[k].index].value {
      if k < |rest| {
        assert r[k] == (if k < m then h[k] else h[k + 1]);
        assert !Less(top, r[k]);
      } else {
        var c := kids[k - |rest|];
        assert r[k] == c && c.index == cs[k - |rest|];
        assert cs[k - |rest|] in a[top.index].children;
        var x :| 0 <= x < |a[top.index].children| && a[top.index].children[x] == c.index;
      }
    }
  }

  lemma ConsSorted(w: seq<HeapItem>, it: HeapItem, v: int)
    requires SortedByValue(w) && forall k :: 0 <= k < |w| ==> it.value <= w[k].value
    requires v <= it.value
    ensures SortedByValue([it] + w) && forall k :: 0 <= k < |[it] + w| ==> v <= ([it] + w)[k].value
  {
    var r := [it] + w;
    assert forall k :: 0 < k < |r| ==> r[k] == w[k - 1];
  }

  /** From a heap bounded below by `v`, over values that never decrease from a
      parent to a child, the traversal pops values in non-decreasing order, none
      below `v` (vocab-tree/src/traversal_inorder.rs:162-174). */
  lemma {:induction false} WalkSorted(a: seq<ArenaNode>, pattern: Option<seq<Option<Key>>>, h: seq<HeapItem>, v: int)
    requires WellFormed(a) && Monotone(a) && HeapOk(a, pattern, h) && Bounded(a, pattern, h, v)
    ensures SortedByValue(Walk(a, pattern, h))
    ensures forall k :: 0 <= k < |Walk(a, pattern, h)| ==> v <= Walk(a, pattern, h)[k].value
    decreases Pending(a, pattern, h)
  {
    if h != [] {
      var top := h[MaxAt(h)];
      var next := Step(a, pattern, h);
      assert Pending(a, pattern, next) < Pending(a, pattern, h) by {
        StepShrinks(a, pattern, h);
      }
      StepBounded(a, pattern, h, v);
      WalkSorted(a, pattern, next, top.value);
      WalkUnfold(a, pattern, h);
      ConsSorted(Walk(a, pattern, next), top, v);
    }
  }

  /** A traversal from any node pops values in non-decreasing order when values
      never decrease from a parent to a child, even though the first item
      carries the root's value. */
  lemma TraversalSorted(a: seq<ArenaNode>, pattern: Option<seq<Option<Key>>>, start: nat)
    requires WellFormed(a) && Monotone(a) && (|a| > 0 ==> start < |a|) && PatternOk(pattern)
    ensures HeapOk(a, pattern, Initial(a, start))
    ensures SortedByValue(Walk(a, pattern, Initial(a, start)))
  {
    if |a| > 0 {
      RootValueLeast(a, start);
      WalkSorted(a, pattern, Initial(a, start), a[0].value);
    }
  }

  /** An empty arena yields nothing (vocab-tree/src/traversal_inorder.rs:45-48). */
  lemma EmptyArenaYieldsNothing(pattern: Option<seq<Option<Key>>>)
    ensures Walk([], pattern, Initial([], 0)) == []
  {
  }

  /** From the root every item carries its own node's value. */
  predicate Exact(a: seq<ArenaNode>, pattern: Option<seq<Option<Key>>>, h: seq<HeapItem>)
    requires HeapOk(a, pattern, h)
  {
    forall k :: 0 <= k < |h| ==> h[k].value == a[h[k].index].value
  }

  lemma StepExact(a: seq<ArenaNode>, pattern: Option<seq<Option<Key>>>, h: seq<HeapItem>)
    requires ChildrenOk(a) && HeapOk(a, pattern, h) && h != [] && Exact(a, pattern, h)
    ensures Exact(a, pattern, Step(a, pattern, h))
  {
    var m := MaxAt(h);
    var next := Step(a, pattern, h);
    var rest := Without(h, m);
    var kids := ChildItems(a, pattern, h[m]);
    forall k | 0 <= k < |next| ensures next[k].value == a[next[k].index].value {
      if k < |rest| {
        assert next[k] == (if k < m then h[k] else h[k + 1]);
      } else {
        assert next[k] == kids[k - |rest|];
      }
    }
  }

  lemma ConsExact(a: seq<ArenaNode>, pattern: Option<seq<Option<Key>>>, h: seq<HeapItem>, w: seq<HeapItem>)
    requires HeapOk(a, pattern, h) && h != [] && Exact(a, pattern, h)
    requires HeapOk(a, pattern, w) && Exact(a, pattern, w)
    ensures HeapOk(a, pattern, [h[MaxAt(h)]] + w) && Exact(a, pattern, [h[MaxAt(h)]] + w)
  {
    var r := [h[MaxAt(h)]] + w;
    assert forall k :: 0 < k < |r| ==> r[k] == w[k - 1];
  }

  lemma {:induction false} WalkExact(a: seq<ArenaNode>, pattern: Option<seq<Option<Key>>>, h: seq<HeapItem>)
    requires ChildrenOk(a) && HeapOk(a, pattern, h) && Exact(a, pattern, h)
    ensures Exact(a, pattern, Walk(a, pattern, h))
    decreases Pending(a, pattern, h)
  {
    if h != [] {
      var next := Step(a, pattern, h);
      assert Pending(a, pattern, next) < Pending(a, pattern, h) by {
        StepShrinks(a, pattern, h);
      }
      StepExact(a, pattern, h);
      WalkExact(a, pattern, next);
      WalkUnfold(a, pattern, h);
      ConsExact(a, pattern, h, Walk(a, pattern, next));
    }
  }

  /** `Trie::iter_values_ordered`: the best-first traversal from the root,
      keeping the `End` nodes with their paths to the root and their values
      (vocab-tree/src/traversal_inorder.rs:115-125). */
  function IterValuesOrdered(a: seq<ArenaNode>, pattern: Option<seq<Option<Key>>>): seq<(seq<char>, int)>
    requires WellFormed(a) && PatternOk(pattern)
  {
    var w := Walk(a, pattern, Initial(a, 0));
    assert InRange(a, HeapIndices(w));
    ArenaDfs.EndItems(a, HeapIndices(w))
  }

  /** With values that never decrease from a parent to a child, the value
      listing comes out in non-decreasing order of value
      (vocab-tree/src/traversal_inorder.rs:135-174). */
  lemma ValuesOrdered(a: seq<ArenaNode>, pattern: Option<seq<Option<Key>>>)
    requires WellFormed(a) && Monotone(a) && PatternOk(pattern)
    ensures forall x, y :: 0 <= x < y < |IterValuesOrdered(a, pattern)| ==>
      IterValuesOrdered(a, pattern)[x].1 <= IterValuesOrdered(a, pattern)[y].1
  {
    var idxs := HeapIndices(Walk(a, pattern, Initial(a, 0)));
    WalkNodeValuesSorted(a, pattern);
    ArenaDfs.EndItemsSorted(a, idxs);
  }

  /** Without a pattern, every `End` node of the arena is listed with its path
      and value, and nothing but `End` nodes is listed: with `ValuesOrdered`,
      the ordered listing is exactly the stored words in order of value. */
  lemma ValuesListEveryEnd(a: seq<ArenaNode>)
    requires WellFormed(a) && |a| > 0
    ensures forall j :: 0 <= j < |a| && a[j].key == End ==>
      (ArenaDfs.UpKeys(a, j), a[j].value) in IterValuesOrdered(a, None)
    ensures forall x :: x in IterValuesOrdered(a, None) ==>
      exists j :: 0 <= j < |a| && a[j].key == End && x == (ArenaDfs.UpKeys(a, j), a[j].value)
  {
    var idxs := HeapIndices(Walk(a, None, Initial(a, 0)));
    assert InRange(a, idxs) && IterValuesOrdered(a, None) == ArenaDfs.EndItems(a, idxs);
    EveryNodeVisitedOnce(a);
    ArenaDfs.EndItemsOfAll(a, idxs);
  }

  /** From the root the nodes come out in non-decreasing order of their own values. */
  lemma WalkNodeValuesSorted(a: seq<ArenaNode>, pattern: Option<seq<Option<Key>>>)
    requires WellFormed(a) && Monotone(a) && PatternOk(pattern)
    ensures HeapOk(a, pattern, Initial(a, 0))
    ensures InRange(a, HeapIndices(Walk(a, pattern, Initial(a, 0))))
    ensures ArenaDfs.NodesByValue(a, HeapIndices(Walk(a, pattern, Initial(a, 0))))
  {
    var w := Walk(a, pattern, Initial(a, 0));
    TraversalSorted(a, pattern, 0);
    WalkExact(a, pattern, Initial(a, 0));
    ExactSortedNodes(a, pattern, w);
  }

  /** Items that carry their own node's values and come in order of value name
      nodes in order of value. */
  lemma ExactSortedNodes(a: seq<ArenaNode>, pattern: Option<seq<Option<Key>>>, w: seq<HeapItem>)
    requires HeapOk(a, pattern, w) && Exact(a, pattern, w) && SortedByValue(w)
    ensures InRange(a, HeapIndices(w)) && ArenaDfs.NodesByValue(a, HeapIndices(w))
  {
    var idxs := HeapIndices(w);
    forall x, y | 0 <= x < y < |idxs| ensures a[idxs[x]].value <= a[idxs[y]].value {
      assert w[x].value <= w[y].value;
    }
  }
}
