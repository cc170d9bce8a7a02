/** The depth-first traversal over the arena trie, whose stack holds
    (index, depth) pairs, and the value listing built on it. */
module ArenaDfs {
  import opened Wrappers
  import opened SentinelNode
  import opened Arena

  type Entry = (nat, nat)

  function Indices(s: seq<Entry>): (r: seq<nat>)
    ensures |r| == |s| && forall k :: 0 <= k < |s| ==> r[k] == s[k].0
  {
    seq(|s|, k requires 0 <= k < |s| => s[k].0)
  }

  lemma IndicesAppend(x: seq<Entry>, y: seq<Entry>)
    ensures Indices(x + y) == Indices(x) + Indices(y)
  {
    assert forall k :: 0 <= k < |x + y| ==> Indices(x + y)[k] == (Indices(x) + Indices(y))[k];
  }

  /** The stack entries for `cs`, one level below `depth`. */
  function AtDepth(cs: seq<nat>, depth: nat): (r: seq<Entry>)
    ensures |r| == |cs| && forall k :: 0 <= k < |cs| ==> r[k] == (cs[k], depth)
  {
    seq(|cs|, k requires 0 <= k < |cs| => (cs[k], depth))
  }

  /** Every entry names a node and a depth the pattern can be sliced at. */
  predicate StackOk(a: seq<ArenaNode>, pattern: Option<seq<Option<Key>>>, s: seq<Entry>)
  {
    forall k :: 0 <= k < |s| ==> s[k].0 < |a| && DepthOk(pattern, s[k].1)
  }

  /** The stack after popping the top entry and pushing what the pattern admits below it. */
  function Step(a: seq<ArenaNode>, pattern: Option<seq<Option<Key>>>, s: seq<Entry>): (r: seq<Entry>)
    requires ChildrenOk(a) && StackOk(a, pattern, s) && s != []
    ensures StackOk(a, pattern, r)
  {
    var (i, d) := s[|s| - 1];
    var pushed := AtDepth(Admitted(a, pattern, i, d), d + 1);
    var r := s[..|s| - 1] + pushed;
    assert forall k :: 0 <= k < |r| ==> r[k] == if k < |s| - 1 then s[k] else pushed[k - (|s| - 1)];
    r
  }

  /** A step keeps all but the top entry and pushes the admitted children, one level deeper. */
  lemma StepIs(a: seq<ArenaNode>, pattern: Option<seq<Option<Key>>>, s: seq<Entry>)
    requires ChildrenOk(a) && StackOk(a, pattern, s) && s != []
    ensures Step(a, pattern, s)
      == s[..|s| - 1] + AtDepth(Admitted(a, pattern, s[|s| - 1].0, s[|s| - 1].1), s[|s| - 1].1 + 1)
  {
  }

  /** The indices of a stepped stack: the rest, then the admitted children. */
  lemma StepIndices(a: seq<ArenaNode>, pattern: Option<seq<Option<Key>>>, s: seq<Entry>)
    requires ChildrenOk(a) && StackOk(a, pattern, s) && s != []
    ensures Indices(s) == Indices(s[..|s| - 1]) + [s[|s| - 1].0]
    ensures Indices(Step(a, pattern, s))
      == Indices(s[..|s| - 1]) + Admitted(a, pattern, s[|s| - 1].0, s[|s| - 1].1)
  {
    var (i, d) := s[|s| - 1];
    var adm := Admitted(a, pattern, i, d);
    IndicesAppend(s[..|s| - 1], AtDepth(adm, d + 1));
    assert Indices(AtDepth(adm, d + 1)) == adm;
    assert s == s[..|s| - 1] + [s[|s| - 1]];
    IndicesAppend(s[..|s| - 1], [s[|s| - 1]]);
  }

  lemma StepShrinks(a: seq<ArenaNode>, pattern: Option<seq<Option<Key>>>, s: seq<Entry>)
    requires ChildrenOk(a) && StackOk(a, pattern, s) && s != []
    ensures InRange(a, Indices(Step(a, pattern, s))) && InRange(a, Indices(s))
    ensures Weight(a, Indices(Step(a, pattern, s))) < Weight(a, Indices(s))
  {
    var (i, d) := s[|s| - 1];
    var init := Indices(s[..|s| - 1]);
    var adm := Admitted(a, pattern, i, d);
    AdmittedIsSmaller(a, pattern, i, d);
    StepIndices(a, pattern, s);
    WeightAppend(a, init, adm);
    assert (init + [i])[..|init|] == init;
  }

  /** The measure that bounds what is left to visit. */
  function Pending(a: seq<ArenaNode>, pattern: Option<seq<Option<Key>>>, s: seq<Entry>): nat
    requires ChildrenOk(a) && StackOk(a, pattern, s)
  {
    Weight(a, Indices(s))
  }

  /** Every entry the traversal pops from stack `s` on, in order (the top is the last entry). */
  function Walk(a: seq<ArenaNode>, pattern: Option<seq<Option<Key>>>, s: seq<Entry>): (r: seq<Entry>)
    requires ChildrenOk(a) && StackOk(a, pattern, s)
    ensures StackOk(a, pattern, r)
    decreases Pending(a, pattern, s)
  {
    if s == [] then []
    else
      StepShrinks(a, pattern, s);
      var rest := Walk(a, pattern, Step(a, pattern, s));
      var r := [s[|s| - 1]] + rest;
      assert forall k :: 0 < k < |r| ==> r[k] == rest[k - 1];
      r
  }

  lemma WalkUnfold(a: seq<ArenaNode>, pattern: Option<seq<Option<Key>>>, s: seq<Entry>)
    requires ChildrenOk(a) && StackOk(a, pattern, s) && s != []
    ensures Walk(a, pattern, s) == [s[|s| - 1]] + Walk(a, pattern, Step(a, pattern, s))
  {
  }

  /** The stack the traversal starts with (vocab-tree/src/traversal.rs:23-33). */
  function Initial(start: nat): (r: seq<Entry>)
    ensures r == [(start, 0)]
  {
    [(start, 0)]
  }

  /** Pushes each of `cs` in turn, one level at `depth`, onto `base`. */
  method PushAll(base: seq<Entry>, cs: seq<nat>, depth: nat) returns (st: seq<Entry>)
    ensures st == base + AtDepth(cs, depth)
  {
    st := base;
    var k := 0;
    while k < |cs|
      invariant 0 <= k <= |cs|
      invariant st == base + AtDepth(cs[..k], depth)
    {
      assert AtDepth(cs[..k + 1], depth) == AtDepth(cs[..k], depth) + [(cs[k], depth)];
      st := st + [(cs[k], depth)];
      k := k + 1;
    }
    assert cs[..k] == cs;
  }

  /** Pops the top entry of `s` and pushes the children the pattern admits
      below it, one level deeper. */
  method Pop(a: seq<ArenaNode>, pattern: Option<seq<Option<Key>>>, s: seq<Entry>) returns (top: Entry, st: seq<Entry>)
    requires ChildrenOk(a) && StackOk(a, pattern, s) && s != []
    ensures top == s[|s| - 1] && st == Step(a, pattern, s)
    ensures Walk(a, pattern, s) == [top] + Walk(a, pattern, st)
  {
    top := s[|s| - 1];
    var children := Admitted(a, pattern, top.0, top.1);
    st := PushAll(s[..|s| - 1], children, top.1 + 1);
    StepIs(a, pattern, s);
    WalkUnfold(a, pattern, s);
  }

  /** `TrieDfsTraversal`: a read-only view of the arena, a stack and a pattern. */
  class DfsTraversal {
    const trie: seq<ArenaNode>
    const pattern: Option<seq<Option<Key>>>
    var stack: seq<Entry>

    ghost predicate Valid()
      reads this
    {
      WellFormed(trie) && PatternOk(pattern) && StackOk(trie, pattern, stack)
    }

    /** The entries still to be popped, in order. */
    ghost function Remaining(): seq<Entry>
      reads this
      requires Valid()
    {
      Walk(trie, pattern, stack)
    }

    /** `TrieDfsTraversal::from_index` (vocab-tree/src/traversal.rs:23-33). */
    constructor FromIndex(trie: seq<ArenaNode>, start: nat, pattern: Option<seq<Option<Key>>>)
      requires WellFormed(trie) && start < |trie| && PatternOk(pattern)
      ensures Valid() && this.trie == trie && this.pattern == pattern
      ensures stack == Initial(start)
    {
      this.trie := trie;
      this.pattern := pattern;
      stack := [(start, 0)];
    }

    /** `TrieDfsTraversal::from_root` (vocab-tree/src/traversal.rs:16-21). */
    constructor FromRoot(trie: seq<ArenaNode>, pattern: Option<seq<Option<Key>>>)
      requires WellFormed(trie) && |trie| > 0 && PatternOk(pattern)
      ensures Valid() && this.trie == trie && this.pattern == pattern
      ensures stack == Initial(0)
    {
      this.trie := trie;
      this.pattern := pattern;
      stack := [(0, 0)];
    }

    /** `TrieDfsTraversal::next`: pop the top entry, push the children the
        pattern admits one level deeper, and yield the popped node; `None` once
        the stack is empty (vocab-tree/src/traversal.rs:42-73). */
    method Next() returns (r: Option<ArenaNode>)
      requires Valid()
      modifies this
      ensures Valid()
      ensures old(Remaining()) == [] ==> r.None? && Remaining() == []
      ensures old(Remaining()) != [] ==>
        r == Some(trie[old(Remaining())[0].0]) && Remaining() == old(Remaining())[1..]
    {
      if stack == [] {
        return None;
      }
      var top, st := Pop(trie, pattern, stack);
      stack := st;
      r := Some(trie[top.0]);
    }
  }

  // ---------------------------------------------------------------------------
  // Which nodes are visited.

  /** Without a pattern one step trades the top node for its children's subtrees. */
  lemma StepSubtrees(a: seq<ArenaNode>, s: seq<Entry>)
    requires ChildrenOk(a) && StackOk(a, None, s) && s != []
    ensures InRange(a, Indices(s)) && InRange(a, Indices(Step(a, None, s)))
    ensures Subtrees(a, Indices(Step(a, None, s))) + multiset{s[|s| - 1].0} == Subtrees(a, Indices(s))
  {
    StepIndices(a, None, s);
    SubtreesSplice(a, Indices(s[..|s| - 1]), s[|s| - 1].0);
  }

  lemma WalkHead(a: seq<ArenaNode>, s: seq<Entry>)
    requires ChildrenOk(a) && StackOk(a, None, s) && s != []
    ensures multiset(Indices(Walk(a, None, s)))
      == multiset{s[|s| - 1].0} + multiset(Indices(Walk(a, None, Step(a, None, s))))
  {
    var top := s[|s| - 1];
    var rest := Walk(a, None, Step(a, None, s));
    WalkUnfold(a, None, s);
    IndicesAppend([top], rest);
    assert Indices([top]) == [top.0];
    assert Indices(Walk(a, None, s)) == [top.0] + Indices(rest);
  }

  /** With no pattern the traversal pops exactly the nodes under the stack's
      entries, each as often as it occurs there (vocab-tree/src/traversal.rs:49-53). */
  lemma {:induction false} WalkVisitsSubtrees(a: seq<ArenaNode>, s: seq<Entry>)
    requires ChildrenOk(a) && StackOk(a, None, s)
    ensures InRange(a, Indices(s)) && multiset(Indices(Walk(a, None, s))) == Subtrees(a, Indices(s))
    decreases Pending(a, None, s)
  {
    if s != [] {
      StepShrinks(a, None, s);
      WalkVisitsSubtrees(a, Step(a, None, s));
      StepSubtrees(a, s);
      WalkHead(a, s);
    } else {
      assert Indices(Walk(a, None, s)) == [];
    }
  }

  /** With no pattern, the traversal from the root visits the root's subtree. */
  lemma RootWalkIsSubtree(a: seq<ArenaNode>)
    requires WellFormed(a) && |a| > 0
    ensures multiset(Indices(Walk(a, None, Initial(0)))) == multiset(Subtree(a, 0))
  {
    var idxs := Indices(Initial(0));
    assert idxs == [0];
    WalkVisitsSubtrees(a, Initial(0));
    assert idxs[..0] == [];
    assert Subtrees(a, idxs) == Subtrees(a, []) + multiset(Subtree(a, 0));
  }

  /** With no pattern, the traversal from the root visits every node of the arena
      exactly once and nothing else (vocab-tree/src/traversal.rs:124-131). */
  lemma EveryNodeVisitedOnce(a: seq<ArenaNode>)
    requires WellFormed(a) && |a| > 0
    ensures forall j :: 0 <= j < |a| ==> multiset(Indices(Walk(a, None, Initial(0))))[j] == 1
    ensures forall e :: e in Walk(a, None, Initial(0)) ==> e.0 < |a|
  {
    RootWalkIsSubtree(a);
    forall j | 0 <= j < |a| ensures multiset(Indices(Walk(a, None, Initial(0))))[j] == 1 {
      EveryNodeOnceUnderRoot(a, j);
    }
  }

  /** A multiset holding each of `0..n` once and nothing else has `n` elements. */
  lemma {:induction false} OnceEachHasSize(m: multiset<nat>, n: nat)
    requires forall j :: 0 <= j < n ==> m[j] == 1
    requires forall x :: x in m ==> x < n
    ensures |m| == n
  {
    if n == 0 {
      assert m == multiset{};
    } else {
      var rest := m - multiset{n - 1};
      OnceEachHasSize(rest, n - 1);
      assert m == rest + multiset{n - 1};
    }
  }

  /** With no pattern, the traversal from the root yields as many nodes as the
      arena holds: nine for the trie of "car", "cat" and "carp", whose nodes
      are the root, c, a, r, t, p and three end markers
      (vocab-tree/src/traversal.rs:123-131). */
  lemma CountIsNodeCount(a: seq<ArenaNode>)
    requires WellFormed(a) && |a| > 0
    ensures |Walk(a, None, Initial(0))| == |a|
  {
    var w := Walk(a, None, Initial(0));
    EveryNodeVisitedOnce(a);
    var m := multiset(Indices(w));
    forall x | x in m ensures x < |a| {
      var k :| 0 <= k < |w| && Indices(w)[k] == x;
      assert w[k] in w;
    }
    OnceEachHasSize(m, |a|);
  }

  // ---------------------------------------------------------------------------
  // What a patterned traversal visits.

  /** An entry fits the pattern: its depth is within the pattern and, below the
      start node, its node has the key a `Some` entry names. */
  predicate EntryConforms(a: seq<ArenaNode>, pattern: Option<seq<Option<Key>>>, e: Entry)
    requires e.0 < |a|
  {
    pattern.Some? ==>
      && e.1 < |pattern.value|
      && (e.1 >= 1 && pattern.value[e.1].Some? ==> a[e.0].key == pattern.value[e.1].value)
  }

  predicate AllConform(a: seq<ArenaNode>, pattern: Option<seq<Option<Key>>>, s: seq<Entry>)
    requires StackOk(a, pattern, s)
  {
    forall k :: 0 <= k < |s| ==> EntryConforms(a, pattern, s[k])
  }

  lemma StepConforms(a: seq<ArenaNode>, pattern: Option<seq<Option<Key>>>, s: seq<Entry>)
    requires ChildrenOk(a) && StackOk(a, pattern, s) && s != [] && AllConform(a, pattern, s)
    ensures AllConform(a, pattern, Step(a, pattern, s))
  {
    var (i, d) := s[|s| - 1];
    var adm := Admitted(a, pattern, i, d);
    var r := Step(a, pattern, s);
    forall k | 0 <= k < |r| ensures EntryConforms(a, pattern, r[k]) {
      if k >= |s| - 1 {
        assert r[k] == (adm[k - (|s| - 1)], d + 1);
        assert adm[k - (|s| - 1)] in adm;
      } else {
        assert r[k] == s[k];
      }
    }
  }

  /** Every node a patterned traversal pops sits no deeper than the pattern and
      carries the key of each `Some` entry at its depth
      (vocab-tree/src/traversal.rs:44-65). */
  lemma ConsConforms(a: seq<ArenaNode>, pattern: Option<seq<Option<Key>>>, s: seq<Entry>, rest: seq<Entry>)
    requires StackOk(a, pattern, s) && s != [] && AllConform(a, pattern, s)
    requires StackOk(a, pattern, rest) && AllConform(a, pattern, rest)
    ensures StackOk(a, pattern, [s[|s| - 1]] + rest) && AllConform(a, pattern, [s[|s| - 1]] + rest)
  {
    var r := [s[|s| - 1]] + rest;
    assert forall k :: 0 < k < |r| ==> r[k] == rest[k - 1];
  }

  lemma {:induction false} WalkConforms(a: seq<ArenaNode>, pattern: Option<seq<Option<Key>>>, s: seq<Entry>)
    requires ChildrenOk(a) && StackOk(a, pattern, s) && AllConform(a, pattern, s)
    ensures AllConform(a, pattern, Walk(a, pattern, s))
    decreases Pending(a, pattern, s)
  {
    if s != [] {
      var next := Step(a, pattern, s);
      assert Pending(a, pattern, next) < Pending(a, pattern, s) by {
        StepShrinks(a, pattern, s);
      }
      assert AllConform(a, pattern, next) by {
        StepConforms(a, pattern, s);
      }
      WalkConforms(a, pattern, next);
      WalkUnfold(a, pattern, s);
      ConsConforms(a, pattern, s, Walk(a, pattern, next));
    }
  }

  /** A traversal started at any node yields only entries that fit its pattern. */
  lemma TraversalConforms(a: seq<ArenaNode>, pattern: Option<seq<Option<Key>>>, start: nat)
    requires WellFormed(a) && start < |a| && PatternOk(pattern)
    ensures AllConform(a, pattern, Walk(a, pattern, Initial(start)))
  {
    WalkConforms(a, pattern, Initial(start));
  }

  /** Entry `e` lies on the pattern's path from `start`: at depth 0 it is the
      start itself, and deeper its node fits the pattern at its depth and its
      parent's entry, one level up, lies on the path too. */
  predicate Reaches(a: seq<ArenaNode>, pattern: Option<seq<Option<Key>>>, start: nat, e: Entry)
    decreases e.1
  {
    if e.1 == 0 then e.0 == start
    else
      && e.0 < |a|
      && a[e.0].parent.Some?
      && Fits(a, pattern, e.0, e.1)
      && Reaches(a, pattern, start, (a[e.0].parent.value, e.1 - 1))
  }

  /** What `Reaches` says about one entry: the start at depth 0, otherwise a
      fitting node whose parent's entry lies on the path. */
  lemma ReachesUnfold(a: seq<ArenaNode>, pattern: Option<seq<Option<Key>>>, start: nat, e: Entry)
    requires Reaches(a, pattern, start, e)
    ensures e.1 == 0 ==> e == (start, 0)
    ensures e.1 > 0 ==> e.0 < |a| && a[e.0].parent.Some? && Fits(a, pattern, e.0, e.1)
    ensures e.1 > 0 ==> Reaches(a, pattern, start, (a[e.0].parent.value, e.1 - 1))
  {
  }

  /** Every entry on the stack is popped at some point. */
  lemma {:induction false} StackInWalk(a: seq<ArenaNode>, pattern: Option<seq<Option<Key>>>, s: seq<Entry>, e: Entry)
    requires ChildrenOk(a) && StackOk(a, pattern, s) && e in s
    ensures e in Walk(a, pattern, s)
    decreases Pending(a, pattern, s)
  {
    var k :| 0 <= k < |s| && s[k] == e;
    WalkUnfold(a, pattern, s);
    if k < |s| - 1 {
      var next := Step(a, pattern, s);
      StepIs(a, pattern, s);
      assert next[k] == e;
      StepShrinks(a, pattern, s);
      StackInWalk(a, pattern, next, e);
    }
  }

  lemma PushedOnStack(a: seq<ArenaNode>, pattern: Option<seq<Option<Key>>>, s: seq<Entry>, c: nat)
    requires ChildrenOk(a) && StackOk(a, pattern, s) && s != []
    requires c in Admitted(a, pattern, s[|s| - 1].0, s[|s| - 1].1)
    ensures (c, s[|s| - 1].1 + 1) in Step(a, pattern, s)
  {
    var (i, d) := s[|s| - 1];
    StepIs(a, pattern, s);
    var adm := Admitted(a, pattern, i, d);
    var x :| 0 <= x < |adm| && adm[x] == c;
    assert Step(a, pattern, s)[|s| - 1 + x] == (c, d + 1);
  }

  /** What the pattern admits below the top entry is popped after the step. */
  lemma TopChildInWalk(a: seq<ArenaNode>, pattern: Option<seq<Option<Key>>>, s: seq<Entry>, e: Entry, c: nat)
    requires ChildrenOk(a) && StackOk(a, pattern, s) && s != [] && e == s[|s| - 1]
    requires c in Admitted(a, pattern, e.0, e.1)
    ensures (c, e.1 + 1) in Walk(a, pattern, Step(a, pattern, s))
  {
    PushedOnStack(a, pattern, s, c);
    StackInWalk(a, pattern, Step(a, pattern, s), (c, e.1 + 1));
  }

  /** Whatever is pushed when an entry is popped is popped later. */
  lemma {:induction false} WalkClosed(a: seq<ArenaNode>, pattern: Option<seq<Option<Key>>>, s: seq<Entry>, e: Entry, c: nat)
    requires ChildrenOk(a) && StackOk(a, pattern, s) && e in Walk(a, pattern, s)
    requires e.0 < |a| && DepthOk(pattern, e.1) && c in Admitted(a, pattern, e.0, e.1)
    ensures (c, e.1 + 1) in Walk(a, pattern, s)
    decreases Pending(a, pattern, s)
  {
    if s != [] {
      var next := Step(a, pattern, s);
      assert Walk(a, pattern, s) == [s[|s| - 1]] + Walk(a, pattern, next) by {
        WalkUnfold(a, pattern, s);
      }
      if e in Walk(a, pattern, next) {
        assert Pending(a, pattern, next) < Pending(a, pattern, s) by {
          StepShrinks(a, pattern, s);
        }
        WalkClosed(a, pattern, next, e, c);
      } else {
        TopChildInWalk(a, pattern, s, e, c);
      }
    }
  }

  lemma WalkEntryOk(a: seq<ArenaNode>, pattern: Option<seq<Option<Key>>>, s: seq<Entry>, e: Entry)
    requires ChildrenOk(a) && StackOk(a, pattern, s) && e in Walk(a, pattern, s)
    ensures e.0 < |a| && DepthOk(pattern, e.1)
  {
    var w := Walk(a, pattern, s);
    var k :| 0 <= k < |w| && w[k] == e;
  }

  /** A node with a parent is listed among that parent's children. */
  lemma ChildOfParent(a: seq<ArenaNode>, j: nat)
    requires WellFormed(a) && j < |a| && a[j].parent.Some?
    ensures a[j].parent.value < |a| && j in a[a[j].parent.value].children
  {
    assert j != 0;
  }

  /** The start entry is the first one popped. */
  lemma StartPopped(a: seq<ArenaNode>, pattern: Option<seq<Option<Key>>>, start: nat)
    requires ChildrenOk(a) && start < |a| && PatternOk(pattern)
    ensures (start, 0) in Walk(a, pattern, Initial(start))
  {
    WalkUnfold(a, pattern, Initial(start));
  }

  /** A node that fits the pattern one level below its parent is admitted there. */
  lemma ParentAdmits(a: seq<ArenaNode>, pattern: Option<seq<Option<Key>>>, j: nat, d: nat)
    requires WellFormed(a) && j < |a| && a[j].parent.Some? && Fits(a, pattern, j, d + 1)
    ensures a[j].parent.value < |a| && DepthOk(pattern, d)
    ensures j in Admitted(a, pattern, a[j].parent.value, d)
  {
    ChildOfParent(a, j);
    AdmittedExactly(a, pattern, a[j].parent.value, d, j);
  }

  /** Every entry admitted below an entry of `w` is in `w` too. */
  predicate Closed(a: seq<ArenaNode>, pattern: Option<seq<Option<Key>>>, w: seq<Entry>)
  {
    && ChildrenOk(a)
    && forall e, c {:trigger c in Admitted(a, pattern, e.0, e.1), e in w} ::
         (e in w && e.0 < |a| && DepthOk(pattern, e.1) && c in Admitted(a, pattern, e.0, e.1)) ==> (c, e.1 + 1) in w
  }

  /** The entries a traversal pops are closed under what the pattern admits. */
  lemma WalkIsClosed(a: seq<ArenaNode>, pattern: Option<seq<Option<Key>>>, s: seq<Entry>)
    requires ChildrenOk(a) && StackOk(a, pattern, s)
    ensures Closed(a, pattern, Walk(a, pattern, s))
  {
    var w := Walk(a, pattern, s);
    forall e, c | e in w && e.0 < |a| && DepthOk(pattern, e.1) && c in Admitted(a, pattern, e.0, e.1)
      ensures (c, e.1 + 1) in w
    {
      WalkClosed(a, pattern, s, e, c);
    }
  }

  /** Every entry on the pattern's path from the start is popped: the traversal
      misses nothing the pattern admits (vocab-tree/src/traversal.rs:44-65). */
  lemma WalkComplete(a: seq<ArenaNode>, pattern: Option<seq<Option<Key>>>, start: nat, e: Entry)
    requires WellFormed(a) && start < |a| && PatternOk(pattern)
    requires Reaches(a, pattern, start, e)
    ensures e in Walk(a, pattern, Initial(start))
  {
    StartPopped(a, pattern, start);
    WalkIsClosed(a, pattern, Initial(start));
    ClosedHoldsPath(a, pattern, Walk(a, pattern, Initial(start)), start, e);
  }

  /** A closed sequence holding the start entry holds every entry on the path from it. */
  lemma {:induction false} ClosedHoldsPath(a: seq<ArenaNode>, pattern: Option<seq<Option<Key>>>, w: seq<Entry>, start: nat, e: Entry)
    requires WellFormed(a) && Closed(a, pattern, w) && (start, 0) in w
    requires Reaches(a, pattern, start, e)
    ensures e in w
    decreases e.1
  {
    ReachesUnfold(a, pattern, start, e);
    if e.1 > 0 {
      var pe := (a[e.0].parent.value, e.1 - 1);
      assert pe in w by {
        ClosedHoldsPath(a, pattern, w, start, pe);
      }
      assert pe.0 < |a| && DepthOk(pattern, pe.1) && e.0 in Admitted(a, pattern, pe.0, pe.1) by {
        ParentAdmits(a, pattern, e.0, pe.1);
      }
      assert (e.0, pe.1 + 1) in w;
      assert e == (e.0, pe.1 + 1);
    }
  }

  /** Every entry pushed while all stacked entries lie on the path lies on it too. */
  lemma StepReaches(a: seq<ArenaNode>, pattern: Option<seq<Option<Key>>>, start: nat, s: seq<Entry>)
    requires WellFormed(a) && StackOk(a, pattern, s) && s != []
    requires forall k :: 0 <= k < |s| ==> Reaches(a, pattern, start, s[k])
    ensures forall k :: 0 <= k < |Step(a, pattern, s)| ==> Reaches(a, pattern, start, Step(a, pattern, s)[k])
  {
    var (i, d) := s[|s| - 1];
    var adm := Admitted(a, pattern, i, d);
    var r := Step(a, pattern, s);
    StepIs(a, pattern, s);
    forall k | 0 <= k < |r| ensures Reaches(a, pattern, start, r[k]) {
      if k >= |s| - 1 {
        var c := adm[k - (|s| - 1)];
        assert r[k] == (c, d + 1);
        AdmittedReaches(a, pattern, start, i, d, c);
      } else {
        assert r[k] == s[k];
      }
    }
  }

  /** A child admitted below an entry on the path lies on the path one level down. */
  lemma AdmittedReaches(a: seq<ArenaNode>, pattern: Option<seq<Option<Key>>>, start: nat, i: nat, d: nat, c: nat)
    requires WellFormed(a) && i < |a| && DepthOk(pattern, d) && Reaches(a, pattern, start, (i, d))
    requires c in Admitted(a, pattern, i, d)
    ensures Reaches(a, pattern, start, (c, d + 1))
  {
    var x :| 0 <= x < |a[i].children| && a[i].children[x] == c;
    AdmittedExactly(a, pattern, i, d, c);
  }

  lemma {:induction false} WalkReaches(a: seq<ArenaNode>, pattern: Option<seq<Option<Key>>>, start: nat, s: seq<Entry>, e: Entry)
    requires WellFormed(a) && StackOk(a, pattern, s)
    requires forall k :: 0 <= k < |s| ==> Reaches(a, pattern, start, s[k])
    requires e in Walk(a, pattern, s)
    ensures Reaches(a, pattern, start, e)
    decreases Pending(a, pattern, s)
  {
    WalkUnfold(a, pattern, s);
    if e != s[|s| - 1] {
      StepShrinks(a, pattern, s);
      StepReaches(a, pattern, start, s);
      WalkReaches(a, pattern, start, Step(a, pattern, s), e);
    }
  }

  /** A traversal from `start` pops exactly the entries on the pattern's path
      from it: sound and complete (vocab-tree/src/traversal.rs:23-73). */
  lemma TraversalExactly(a: seq<ArenaNode>, pattern: Option<seq<Option<Key>>>, start: nat, e: Entry)
    requires WellFormed(a) && start < |a| && PatternOk(pattern)
    ensures e in Walk(a, pattern, Initial(start)) <==> Reaches(a, pattern, start, e)
  {
    if Reaches(a, pattern, start, e) {
      WalkComplete(a, pattern, start, e);
    }
    if e in Walk(a, pattern, Initial(start)) {
      WalkReaches(a, pattern, start, Initial(start), e);
    }
  }

  // ---------------------------------------------------------------------------
  // Paths back to the root, and the value listing.

  /** The symbols `path_to_root` yields for node `j`: the keys of `j`'s ancestors
      from its parent upwards, stopping at the first one that is not `Internal`. */
  function UpKeys(a: seq<ArenaNode>, j: nat): (r: seq<char>)
    requires ParentsOk(a) && j < |a|
    decreases j
  {
    if j == 0 || a[j].parent.None? then []
    else
      var p := a[j].parent.value;
      match a[p].key
      case Internal(c) => [c] + UpKeys(a, p)
      case _ => []
  }

  /** `Trie::path_to_root`: walk a cursor up the parent links, collecting each
      parent's `Internal` symbol (vocab-tree/src/traversal.rs:99-116). */
  method PathToRoot(a: seq<ArenaNode>, j: nat) returns (ks: seq<char>)
    requires WellFormed(a) && j < |a|
    ensures ks == UpKeys(a, j)
  {
    ks := [];
    var current: nat := j;
    while true
      invariant current < |a|
      invariant ks + UpKeys(a, current) == UpKeys(a, j)
      decreases current
    {
      if current == 0 || a[current].parent.None? {
        assert UpKeys(a, current) == [];
        assert ks + [] == ks;
        return;
      }
      var parent := a[current].parent.value;
      match a[parent].key
      case Internal(c) =>
        ks := ks + [c];
        current := parent;
      case _ =>
        assert ks + [] == ks;
        return;
    }
  }

  /** `w` from its last symbol to its first. */
  function Reverse(w: seq<char>): (r: seq<char>)
    ensures |r| == |w| && forall k :: 0 <= k < |w| ==> r[k] == w[|w| - 1 - k]
  {
    if w == [] then [] else [w[|w| - 1]] + Reverse(w[..|w| - 1])
  }

  /** The node reached from `i` by following `ks` through `get_child_index`. */
  function Follow(a: seq<ArenaNode>, i: nat, ks: seq<Key>): (r: Option<nat>)
    requires ChildrenOk(a) && i < |a|
    ensures r.Some? ==> r.value < |a|
  {
    if ks == [] then Some(i)
    else
      match Follow(a, i, ks[..|ks| - 1])
      case None => None
      case Some(j) => GetChildIndex(a, j, ks[|ks| - 1])
  }

  /** The `Internal` keys that spell `w`. */
  function Spelling(w: seq<char>): (r: seq<Key>)
    ensures |r| == |w| && forall k :: 0 <= k < |w| ==> r[k] == Internal(w[k])
  {
    seq(|w|, k requires 0 <= k < |w| => Internal(w[k]))
  }

  /** The symbols of `j` and its ancestors, up to the first key that is not `Internal`. */
  function KeysFrom(a: seq<ArenaNode>, j: nat): seq<char>
    requires ParentsOk(a) && j < |a|
  {
    match a[j].key
    case Internal(c) => [c] + UpKeys(a, j)
    case _ => []
  }

  /** The node a spelling leads to from the root reads that spelling back,
      last symbol first. */
  lemma {:induction false} SpellingReadsBack(a: seq<ArenaNode>, w: seq<char>, j: nat)
    requires WellFormed(a) && |a| > 0 && Follow(a, 0, Spelling(w)) == Some(j)
    ensures KeysFrom(a, j) == Reverse(w)
    decreases |w|
  {
    if w != [] {
      var init := w[..|w| - 1];
      assert Spelling(w)[..|w| - 1] == Spelling(init);
      var p := Follow(a, 0, Spelling(init)).value;
      assert j in a[p].children;
      SpellingReadsBack(a, init, p);
    }
  }

  /** `path_to_root` of the `End` node a word's path leads to yields the word's
      symbols from last to first, which the word-listing test reverses
      (vocab-tree/src/traversal.rs:99-116, 164-187). */
  lemma PathToRootSpellsWord(a: seq<ArenaNode>, w: seq<char>, e: nat)
    requires WellFormed(a) && |a| > 0 && Follow(a, 0, Spelling(w) + [End]) == Some(e)
    ensures UpKeys(a, e) == Reverse(w)
  {
    assert (Spelling(w) + [End])[..|w|] == Spelling(w);
    var j := Follow(a, 0, Spelling(w)).value;
    assert e in a[j].children;
    SpellingReadsBack(a, w, j);
  }

  /** The (path to root, value) pair of every `End` node among `idxs`, in order. */
  function EndItems(a: seq<ArenaNode>, idxs: seq<nat>): (r: seq<(seq<char>, int)>)
    requires ParentsOk(a) && InRange(a, idxs)
    ensures |r| <= |idxs|
  {
    if idxs == [] then []
    else
      var j := idxs[|idxs| - 1];
      EndItems(a, idxs[..|idxs| - 1]) + (if a[j].key == End then [(UpKeys(a, j), a[j].value)] else [])
  }

  /** `EndItems` lists exactly the `End` nodes among `idxs`, with their paths and values. */
  lemma {:induction false} EndItemsMembers(a: seq<ArenaNode>, idxs: seq<nat>)
    requires ParentsOk(a) && InRange(a, idxs)
    ensures forall x :: x in EndItems(a, idxs) ==>
      exists k :: 0 <= k < |idxs| && a[idxs[k]].key == End && x == (UpKeys(a, idxs[k]), a[idxs[k]].value)
    ensures forall k :: 0 <= k < |idxs| && a[idxs[k]].key == End ==>
      (UpKeys(a, idxs[k]), a[idxs[k]].value) in EndItems(a, idxs)
  {
    if idxs != [] {
      var init := idxs[..|idxs| - 1];
      assert forall k :: 0 <= k < |init| ==> init[k] == idxs[k];
      EndItemsMembers(a, init);
    }
  }

  /** The nodes `idxs` names come in non-decreasing order of value. */
  predicate NodesByValue(a: seq<ArenaNode>, idxs: seq<nat>)
    requires InRange(a, idxs)
  {
    forall x, y :: 0 <= x < y < |idxs| ==> a[idxs[x]].value <= a[idxs[y]].value
  }

  /** Listing `End` nodes in an order of non-decreasing value keeps the values
      non-decreasing. */
  lemma {:induction false} EndItemsSorted(a: seq<ArenaNode>, idxs: seq<nat>)
    requires ParentsOk(a) && InRange(a, idxs) && NodesByValue(a, idxs)
    ensures forall x, y :: 0 <= x < y < |EndItems(a, idxs)| ==> EndItems(a, idxs)[x].1 <= EndItems(a, idxs)[y].1
  {
    if idxs != [] {
      var j := idxs[|idxs| - 1];
      var init := idxs[..|idxs| - 1];
      assert forall k :: 0 <= k < |init| ==> init[k] == idxs[k];
      EndItemsSorted(a, init);
      var r := EndItems(a, idxs);
      var before := EndItems(a, init);
      if a[j].key == End {
        EndItemsMembers(a, init);
        forall x | 0 <= x < |before| ensures before[x].1 <= a[j].value {
          assert before[x] in before;
        }
        assert r == before + [(UpKeys(a, j), a[j].value)];
      } else {
        assert r == before;
      }
    }
  }

  /** `Trie::iter_values_unordered`: the depth-first traversal from the root,
      keeping the `End` nodes with their paths to the root and their values
      (vocab-tree/src/traversal.rs:81-97). */
  function IterValuesUnordered(a: seq<ArenaNode>, pattern: Option<seq<Option<Key>>>): (r: seq<(seq<char>, int)>)
    requires WellFormed(a) && |a| > 0 && PatternOk(pattern)
  {
    var walk := Walk(a, pattern, Initial(0));
    assert InRange(a, Indices(walk));
    EndItems(a, Indices(walk))
  }

  /** A listing of indices that names every node lists every `End` node's
      item, and lists nothing but `End` nodes' items. */
  lemma EndItemsOfAll(a: seq<ArenaNode>, idxs: seq<nat>)
    requires ParentsOk(a) && InRange(a, idxs)
    requires forall j :: 0 <= j < |a| ==> j in multiset(idxs)
    ensures forall j :: 0 <= j < |a| && a[j].key == End ==> (UpKeys(a, j), a[j].value) in EndItems(a, idxs)
    ensures forall x :: x in EndItems(a, idxs) ==>
      exists j :: 0 <= j < |a| && a[j].key == End && x == (UpKeys(a, j), a[j].value)
  {
    EndItemsMembers(a, idxs);
    forall j | 0 <= j < |a| && a[j].key == End
      ensures (UpKeys(a, j), a[j].value) in EndItems(a, idxs)
    {
      assert j in multiset(idxs);
      var k :| 0 <= k < |idxs| && idxs[k] == j;
    }
  }

  /** Without a pattern, every `End` node of the arena is listed with its path
      and value, and nothing but `End` nodes is listed. */
  lemma ValuesListEveryEnd(a: seq<ArenaNode>)
    requires WellFormed(a) && |a| > 0
    ensures forall j :: 0 <= j < |a| && a[j].key == End ==> (UpKeys(a, j), a[j].value) in IterValuesUnordered(a, None)
    ensures forall x :: x in IterValuesUnordered(a, None) ==>
      exists j :: 0 <= j < |a| && a[j].key == End && x == (UpKeys(a, j), a[j].value)
  {
    var idxs := Indices(Walk(a, None, Initial(0)));
    assert InRange(a, idxs) && IterValuesUnordered(a, None) == EndItems(a, idxs);
    EveryNodeVisitedOnce(a);
    EndItemsOfAll(a, idxs);
  }
}
