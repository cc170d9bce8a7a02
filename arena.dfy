/** The index-addressed trie the two arena traversals walk. Only its interface is
    modelled: a sequence of nodes, each with a key, a value, the indices of its
    children and the index of its parent, the root at index 0. A node is stored
    after its parent, so every child index is larger than its parent's. */
module Arena {
  import opened Wrappers
  import opened SentinelNode

  datatype ArenaNode = ArenaNode(key: Key, value: int, children: seq<nat>, parent: Option<nat>)

  /** The root, when there is one, has the `Start` key and no parent. */
  predicate RootOk(a: seq<ArenaNode>)
  {
    |a| > 0 ==> a[0].parent.None? && a[0].key == Start
  }

  /** Every child index lies after its parent and names that parent back. */
  predicate ChildrenOk(a: seq<ArenaNode>)
  {
    forall i, x :: 0 <= i < |a| && 0 <= x < |a[i].children| ==>
      i < a[i].children[x] < |a| && a[a[i].children[x]].parent == Some(i)
  }

  /** Every other node has an earlier parent that lists it among its children. */
  predicate ParentsOk(a: seq<ArenaNode>)
  {
    forall j {:trigger a[j].parent} :: 0 < j < |a| ==>
      a[j].parent.Some? && a[j].parent.value < j && j in a[a[j].parent.value].children
  }

  /** Siblings carry pairwise distinct keys. */
  predicate KeysDistinct(a: seq<ArenaNode>)
    requires ChildrenOk(a)
  {
    forall i, x, y {:trigger a[a[i].children[x]].key, a[a[i].children[y]].key} :: 0 <= i < |a| && 0 <= x < y < |a[i].children| ==>
      a[a[i].children[x]].key != a[a[i].children[y]].key
  }

  predicate WellFormed(a: seq<ArenaNode>)
  {
    RootOk(a) && ChildrenOk(a) && ParentsOk(a) && KeysDistinct(a)
  }

  /** Values never decrease from a parent to its children. */
  predicate Monotone(a: seq<ArenaNode>)
    requires ChildrenOk(a)
  {
    forall i, x :: 0 <= i < |a| && 0 <= x < |a[i].children| ==> a[i].value <= a[a[i].children[x]].value
  }

  /** `Trie::get_child_index`: the child of `i` with key `k`, if any. The arena's
      own search is not part of this model; this one scans the children. */
  function GetChildIndex(a: seq<ArenaNode>, i: nat, k: Key): (r: Option<nat>)
    requires ChildrenOk(a) && i < |a|
    ensures r.Some? ==> r.value in a[i].children && a[r.value].key == k
    ensures r.None? <==> forall c :: c in a[i].children ==> a[c].key != k
  {
    FindKey(a, a[i].children, k)
  }

  function FindKey(a: seq<ArenaNode>, cs: seq<nat>, k: Key): (r: Option<nat>)
    requires InRange(a, cs)
    ensures r.Some? ==> r.value in cs && a[r.value].key == k
    ensures r.None? <==> forall c :: c in cs ==> a[c].key != k
  {
    if cs == [] then None
    else if a[cs[0]].key == k then Some(cs[0])
    else FindKey(a, cs[1..], k)
  }

  /** The number of nodes under `i`, itself included. */
  function Size(a: seq<ArenaNode>, i: nat): nat
    requires ChildrenOk(a) && i < |a|
    decreases |a| - i, 1
  {
    1 + SizeOfFirst(a, i, |a[i].children|)
  }

  /** The sizes of the first `k` children of `i`, added up. */
  function SizeOfFirst(a: seq<ArenaNode>, i: nat, k: nat): nat
    requires ChildrenOk(a) && i < |a| && k <= |a[i].children|
    decreases |a| - i, 0, k
  {
    if k == 0 then 0
    else
      assert a[i].children[k - 1] in a[i].children;
      SizeOfFirst(a, i, k - 1) + Size(a, a[i].children[k - 1])
  }

  /** The indices under `i`, listed from `i` down, children in order. */
  function Subtree(a: seq<ArenaNode>, i: nat): seq<nat>
    requires ChildrenOk(a) && i < |a|
    decreases |a| - i, 1
  {
    [i] + SubtreeOfFirst(a, i, |a[i].children|)
  }

  function SubtreeOfFirst(a: seq<ArenaNode>, i: nat, k: nat): seq<nat>
    requires ChildrenOk(a) && i < |a| && k <= |a[i].children|
    decreases |a| - i, 0, k
  {
    if k == 0 then []
    else
      assert a[i].children[k - 1] in a[i].children;
      SubtreeOfFirst(a, i, k - 1) + Subtree(a, a[i].children[k - 1])
  }

  predicate InRange(a: seq<ArenaNode>, idxs: seq<nat>)
  {
    forall k :: 0 <= k < |idxs| ==> idxs[k] < |a|
  }

  /** The sizes of the subtrees under a list of indices, added up. */
  function Weight(a: seq<ArenaNode>, idxs: seq<nat>): nat
    requires ChildrenOk(a) && InRange(a, idxs)
  {
    if idxs == [] then 0 else Weight(a, idxs[..|idxs| - 1]) + Size(a, idxs[|idxs| - 1])
  }

  lemma {:induction false} WeightAppend(a: seq<ArenaNode>, x: seq<nat>, y: seq<nat>)
    requires ChildrenOk(a) && InRange(a, x) && InRange(a, y)
    ensures InRange(a, x + y) && Weight(a, x + y) == Weight(a, x) + Weight(a, y)
    decreases |y|
  {
    if y == [] {
      assert x + y == x;
    } else {
      assert (x + y)[..|x + y| - 1] == x + y[..|y| - 1];
      WeightAppend(a, x, y[..|y| - 1]);
    }
  }

  lemma {:induction false} WeightOfChildren(a: seq<ArenaNode>, i: nat, k: nat)
    requires ChildrenOk(a) && i < |a| && k <= |a[i].children|
    ensures InRange(a, a[i].children[..k]) && Weight(a, a[i].children[..k]) == SizeOfFirst(a, i, k)
  {
    var cs := a[i].children;
    if k > 0 {
      assert cs[..k][..k - 1] == cs[..k - 1];
      WeightOfChildren(a, i, k - 1);
    }
  }

  lemma {:induction false} ChildIsSmaller(a: seq<ArenaNode>, i: nat, k: nat, x: nat)
    requires ChildrenOk(a) && i < |a| && x < k <= |a[i].children|
    ensures a[i].children[x] < |a| && Size(a, a[i].children[x]) <= SizeOfFirst(a, i, k)
  {
    assert a[i].children[x] in a[i].children;
    if x < k - 1 {
      ChildIsSmaller(a, i, k - 1, x);
    }
  }

  // ---------------------------------------------------------------------------
  // What a traversal pushes below a node.

  /** A pattern a traversal can use: none, or at least one entry. Entry `d`
      constrains the node at depth `d`: `None` admits any child, `Some(k)` only
      the child with key `k`. Entry 0 is never consulted. */
  predicate PatternOk(pattern: Option<seq<Option<Key>>>)
  {
    pattern.None? || |pattern.value| >= 1
  }

  /** A depth the pattern can be sliced at: `p[depth + 1..]` must not panic. */
  predicate DepthOk(pattern: Option<seq<Option<Key>>>, depth: nat)
  {
    pattern.Some? ==> depth + 1 <= |pattern.value|
  }

  /** The children of `i` that a traversal pushes when it pops `i` at `depth`:
      all of them when there is no pattern or the next entry is `None`, the one
      with the next entry's key if it exists, and none once the pattern is used
      up (vocab-tree/src/traversal.rs:44-65). */
  function Admitted(a: seq<ArenaNode>, pattern: Option<seq<Option<Key>>>, i: nat, depth: nat): (r: seq<nat>)
    requires ChildrenOk(a) && i < |a| && DepthOk(pattern, depth)
    ensures forall c :: c in r ==> c in a[i].children
    ensures r != [] ==> DepthOk(pattern, depth + 1)
    ensures pattern.None? ==> r == a[i].children
    ensures pattern.Some? && depth + 1 == |pattern.value| ==> r == []
    ensures pattern.Some? && depth + 1 < |pattern.value| && pattern.value[depth + 1].Some? ==>
      forall c :: c in r ==> a[c].key == pattern.value[depth + 1].value
  {
    if pattern.None? || (depth + 1 < |pattern.value| && pattern.value[depth + 1].None?) then
      a[i].children
    else if depth + 1 == |pattern.value| then []
    else
      match GetChildIndex(a, i, pattern.value[depth + 1].value)
      case Some(c) => [c]
      case None => []
  }

  /** Node `c` fits the pattern at depth `d`: there is no pattern, or `d` lies
      within it and its entry there is `None` or `c`'s key. */
  predicate Fits(a: seq<ArenaNode>, pattern: Option<seq<Option<Key>>>, c: nat, d: nat)
    requires c < |a|
  {
    pattern.None? || (d < |pattern.value| && (pattern.value[d].None? || a[c].key == pattern.value[d].value))
  }

  /** With distinct sibling keys, the children pushed below `i` are exactly
      those that fit the pattern one level deeper (vocab-tree/src/traversal.rs:44-65). */
  lemma AdmittedExactly(a: seq<ArenaNode>, pattern: Option<seq<Option<Key>>>, i: nat, depth: nat, c: nat)
    requires WellFormed(a) && i < |a| && DepthOk(pattern, depth)
    requires c in a[i].children
    ensures c < |a|
    ensures c in Admitted(a, pattern, i, depth) <==> Fits(a, pattern, c, depth + 1)
  {
    var cs := a[i].children;
    var x :| 0 <= x < |cs| && cs[x] == c;
    if pattern.Some? && depth + 1 < |pattern.value| && pattern.value[depth + 1].Some? {
      var k := pattern.value[depth + 1].value;
      match GetChildIndex(a, i, k)
      case Some(c0) =>
        if a[c].key == k {
          var y :| 0 <= y < |cs| && cs[y] == c0;
          assert x == y;
        }
      case None =>
    }
  }

  /** The pushed children weigh less than the popped node. */
  lemma AdmittedIsSmaller(a: seq<ArenaNode>, pattern: Option<seq<Option<Key>>>, i: nat, depth: nat)
    requires ChildrenOk(a) && i < |a| && DepthOk(pattern, depth)
    ensures InRange(a, Admitted(a, pattern, i, depth))
    ensures Weight(a, Admitted(a, pattern, i, depth)) < Size(a, i)
  {
    var cs := a[i].children;
    var r := Admitted(a, pattern, i, depth);
    if r == cs {
      WeightOfChildren(a, i, |cs|);
      assert cs[..|cs|] == cs;
    } else if r != [] {
      var x :| 0 <= x < |cs| && cs[x] == r[0];
      ChildIsSmaller(a, i, |cs|, x);
      assert r == [cs[x]] && r[..0] == [];
    }
  }

  // ---------------------------------------------------------------------------
  // Ancestry, and why every node sits exactly once under the root.

  /** `i` is `j` or one of its ancestors. */
  predicate Above(a: seq<ArenaNode>, i: nat, j: nat)
    requires ParentsOk(a) && j < |a|
    decreases j
  {
    j == i || (j > i && j > 0 && Above(a, i, a[j].parent.value))
  }

  lemma {:induction false} AboveBelow(a: seq<ArenaNode>, i: nat, j: nat)
    requires ParentsOk(a) && j < |a| && Above(a, i, j)
    ensures i <= j
  {
  }

  /** The root is above every node. */
  lemma {:induction false} RootAboveAll(a: seq<ArenaNode>, j: nat)
    requires ParentsOk(a) && j < |a|
    ensures Above(a, 0, j)
    decreases j
  {
    if j > 0 {
      RootAboveAll(a, a[j].parent.value);
    }
  }

  /** A node under a child of `i` is under `i`. */
  lemma {:induction false} AboveThroughChild(a: seq<ArenaNode>, i: nat, c: nat, j: nat)
    requires ParentsOk(a) && j < |a| && c < |a| && c > 0 && a[c].parent == Some(i)
    requires Above(a, c, j)
    ensures Above(a, i, j)
    decreases j
  {
    if j != c {
      AboveThroughChild(a, i, c, a[j].parent.value);
      AboveBelow(a, c, a[j].parent.value);
    }
  }

  /** A node strictly under `i` is under exactly one child of `i`, whose position
      among the children is unique when sibling keys are distinct. */
  lemma {:induction false} AboveSomeChild(a: seq<ArenaNode>, i: nat, j: nat) returns (x: nat)
    requires ChildrenOk(a) && ParentsOk(a) && i < j < |a| && Above(a, i, j)
    ensures x < |a[i].children| && Above(a, a[i].children[x], j)
    decreases j
  {
    var p := a[j].parent.value;
    if p == i {
      x :| 0 <= x < |a[i].children| && a[i].children[x] == j;
    } else {
      AboveBelow(a, i, p);
      x := AboveSomeChild(a, i, p);
      var c := a[i].children[x];
      assert c in a[i].children;
      AboveBelow(a, c, p);
    }
  }

  lemma {:induction false} AboveOneSibling(a: seq<ArenaNode>, c1: nat, c2: nat, j: nat)
    requires ParentsOk(a) && j < |a| && 0 < c1 < |a| && 0 < c2 < |a|
    requires a[c1].parent == a[c2].parent && Above(a, c1, j) && Above(a, c2, j)
    ensures c1 == c2
    decreases j
  {
    if j != c1 && j != c2 {
      AboveOneSibling(a, c1, c2, a[j].parent.value);
    } else if j == c1 && j != c2 {
      AboveBelow(a, c2, a[j].parent.value);
    } else if j == c2 && j != c1 {
      AboveBelow(a, c1, a[j].parent.value);
    }
  }

  lemma SiblingsDistinct(a: seq<ArenaNode>, i: nat, x: nat, y: nat)
    requires ChildrenOk(a) && KeysDistinct(a) && i < |a| && x < |a[i].children| && y < |a[i].children| && x != y
    ensures a[i].children[x] != a[i].children[y]
  {
    if x < y {
      assert a[a[i].children[x]].key != a[a[i].children[y]].key;
    } else {
      assert a[a[i].children[y]].key != a[a[i].children[x]].key;
    }
  }

  /** At most one child of a node is above any given node. */
  lemma OnlyOneChildAbove(a: seq<ArenaNode>, i: nat, x: nat, y: nat, j: nat)
    requires WellFormed(a) && i < |a| && x < |a[i].children| && y < |a[i].children| && j < |a|
    requires Above(a, a[i].children[x], j) && Above(a, a[i].children[y], j)
    ensures x == y
  {
    var cs := a[i].children;
    if x != y {
      SiblingsDistinct(a, i, x, y);
      AboveOneSibling(a, cs[x], cs[y], j);
    }
  }

  /** One of the first `k` children of `i` is above `j`. */
  predicate AboveInFirst(a: seq<ArenaNode>, i: nat, k: nat, j: nat)
    requires ParentsOk(a) && ChildrenOk(a) && i < |a| && k <= |a[i].children| && j < |a|
  {
    exists x :: 0 <= x < k && Above(a, a[i].children[x], j)
  }

  lemma AboveInFirstStep(a: seq<ArenaNode>, i: nat, k: nat, j: nat)
    requires WellFormed(a) && i < |a| && 0 < k <= |a[i].children| && j < |a|
    ensures AboveInFirst(a, i, k, j) <==> AboveInFirst(a, i, k - 1, j) || Above(a, a[i].children[k - 1], j)
    ensures Above(a, a[i].children[k - 1], j) ==> !AboveInFirst(a, i, k - 1, j)
  {
    if Above(a, a[i].children[k - 1], j) && AboveInFirst(a, i, k - 1, j) {
      var x :| 0 <= x < k - 1 && Above(a, a[i].children[x], j);
      OnlyOneChildAbove(a, i, x, k - 1, j);
    }
  }

  /** How often `j` occurs under the first `k` children of `i`: once if one of
      them is above it, never otherwise. */
  lemma {:induction false} CountUnderFirst(a: seq<ArenaNode>, i: nat, k: nat, j: nat)
    requires WellFormed(a) && i < |a| && k <= |a[i].children| && j < |a|
    ensures multiset(SubtreeOfFirst(a, i, k))[j] == if AboveInFirst(a, i, k, j) then 1 else 0
    decreases |a| - i, 0, k
  {
    if k > 0 {
      var c := a[i].children[k - 1];
      var before: seq<nat>, own: seq<nat> := SubtreeOfFirst(a, i, k - 1), Subtree(a, c);
      assert SubtreeOfFirst(a, i, k) == before + own;
      CountUnderFirst(a, i, k - 1, j);
      CountUnder(a, c, j);
      AboveInFirstStep(a, i, k, j);
      assert multiset(before + own)[j] == multiset(before)[j] + multiset(own)[j];
    }
  }

  /** `j` occurs under `i` exactly once if `i` is above it, never otherwise. */
  lemma {:induction false} CountUnder(a: seq<ArenaNode>, i: nat, j: nat)
    requires WellFormed(a) && i < |a| && j < |a|
    ensures multiset(Subtree(a, i))[j] == if Above(a, i, j) then 1 else 0
    decreases |a| - i, 1
  {
    var cs := a[i].children;
    CountUnderFirst(a, i, |cs|, j);
    if AboveInFirst(a, i, |cs|, j) {
      var x :| 0 <= x < |cs| && Above(a, cs[x], j);
      AboveThroughChild(a, i, cs[x], j);
      AboveBelow(a, cs[x], j);
    } else if Above(a, i, j) && i != j {
      var x := AboveSomeChild(a, i, j);
    }
  }

  /** Every node of a well-formed arena occurs exactly once under the root. */
  lemma EveryNodeOnceUnderRoot(a: seq<ArenaNode>, j: nat)
    requires WellFormed(a) && j < |a|
    ensures multiset(Subtree(a, 0))[j] == 1
  {
    RootAboveAll(a, j);
    CountUnder(a, 0, j);
  }

  /** Only nodes of the arena occur under a node. */
  lemma {:induction false} SubtreeInRange(a: seq<ArenaNode>, i: nat)
    requires ChildrenOk(a) && i < |a|
    ensures InRange(a, Subtree(a, i)) && i in Subtree(a, i)
    decreases |a| - i, 1
  {
    SubtreeOfFirstInRange(a, i, |a[i].children|);
  }

  lemma {:induction false} SubtreeOfFirstInRange(a: seq<ArenaNode>, i: nat, k: nat)
    requires ChildrenOk(a) && i < |a| && k <= |a[i].children|
    ensures InRange(a, SubtreeOfFirst(a, i, k))
    decreases |a| - i, 0, k
  {
    if k > 0 {
      assert a[i].children[k - 1] in a[i].children;
      SubtreeOfFirstInRange(a, i, k - 1);
      SubtreeInRange(a, a[i].children[k - 1]);
    }
  }

  /** The subtrees under a list of indices, counted with repetition. */
  function Subtrees(a: seq<ArenaNode>, idxs: seq<nat>): multiset<nat>
    requires ChildrenOk(a) && InRange(a, idxs)
  {
    if idxs == [] then multiset{}
    else Subtrees(a, idxs[..|idxs| - 1]) + multiset(Subtree(a, idxs[|idxs| - 1]))
  }

  lemma {:induction false} SubtreesAppend(a: seq<ArenaNode>, x: seq<nat>, y: seq<nat>)
    requires ChildrenOk(a) && InRange(a, x) && InRange(a, y)
    ensures InRange(a, x + y) && Subtrees(a, x + y) == Subtrees(a, x) + Subtrees(a, y)
    decreases |y|
  {
    if y == [] {
      assert x + y == x;
    } else {
      assert (x + y)[..|x + y| - 1] == x + y[..|y| - 1];
      SubtreesAppend(a, x, y[..|y| - 1]);
    }
  }

  lemma {:induction false} SubtreesOfChildren(a: seq<ArenaNode>, i: nat, k: nat)
    requires ChildrenOk(a) && i < |a| && k <= |a[i].children|
    ensures InRange(a, a[i].children[..k])
    ensures Subtrees(a, a[i].children[..k]) == multiset(SubtreeOfFirst(a, i, k))
  {
    var cs := a[i].children;
    if k > 0 {
      var pre := cs[..k];
      var c := cs[k - 1];
      SubtreesOfChildren(a, i, k - 1);
      assert pre[..k - 1] == cs[..k - 1] && pre[k - 1] == c;
      assert Subtrees(a, pre) == Subtrees(a, cs[..k - 1]) + multiset(Subtree(a, c));
      assert SubtreeOfFirst(a, i, k) == SubtreeOfFirst(a, i, k - 1) + Subtree(a, c);
    }
  }

  /** The children's subtrees and the node itself make up the node's subtree. */
  lemma SubtreesOfAllChildren(a: seq<ArenaNode>, i: nat)
    requires ChildrenOk(a) && i < |a|
    ensures InRange(a, a[i].children)
    ensures Subtrees(a, a[i].children) + multiset{i} == multiset(Subtree(a, i))
  {
    var cs := a[i].children;
    SubtreesOfChildren(a, i, |cs|);
    assert cs[..|cs|] == cs;
  }

  lemma SubtreesSnoc(a: seq<ArenaNode>, init: seq<nat>, i: nat)
    requires ChildrenOk(a) && InRange(a, init) && i < |a|
    ensures InRange(a, init + [i])
    ensures Subtrees(a, init + [i]) == Subtrees(a, init) + multiset(Subtree(a, i))
  {
    assert (init + [i])[..|init|] == init;
  }

  lemma SubtreesOne(a: seq<ArenaNode>, i: nat)
    requires ChildrenOk(a) && i < |a|
    ensures InRange(a, [i]) && Subtrees(a, [i]) == multiset(Subtree(a, i))
  {
    SubtreesSnoc(a, [], i);
    assert [] + [i] == [i];
  }

  /** Replacing a node by its children in a list trades the node for their subtrees. */
  lemma SubtreesSplice(a: seq<ArenaNode>, init: seq<nat>, i: nat)
    requires ChildrenOk(a) && InRange(a, init) && i < |a|
    ensures InRange(a, init + a[i].children) && InRange(a, init + [i])
    ensures Subtrees(a, init + a[i].children) + multiset{i} == Subtrees(a, init + [i])
  {
    SubtreesOfAllChildren(a, i);
    SubtreesAppend(a, init, a[i].children);
    SubtreesSnoc(a, init, i);
  }
}
