/** The depth-first traversal over sentinel-keyed nodes that keeps, on an explicit
    stack, the whole path from the start node to each pending node. An optional
    pattern constrains the children taken at each depth: entry `d` governs the
    node at depth `d` of a path (entry 0 is the start node's own and is never
    consulted). */
module PathTraversal {
  import opened Wrappers
  import opened SentinelNode

  /** One pattern entry: a required key, or any child. */
  datatype Query = Matches(key: Key) | Any

  /** What the traversal yields: the keys along the path, and its last node. */
  type Item = (seq<Option<char>>, Node)

  function Size(n: Node): nat
  {
    1 + SizeOfAll(n.children)
  }

  function SizeOfAll(cs: seq<Node>): nat
  {
    if cs == [] then 0 else SizeOfAll(cs[..|cs| - 1]) + Size(cs[|cs| - 1])
  }

  lemma {:induction false} SizeOfAllBounds(cs: seq<Node>, i: nat)
    requires i < |cs|
    ensures Size(cs[i]) <= SizeOfAll(cs)
  {
    if i < |cs| - 1 {
      SizeOfAllBounds(cs[..|cs| - 1], i);
    }
  }

  /** A pattern the traversal can start with: none, or at least one entry (an
      empty pattern makes the slice in the first step go out of bounds). */
  predicate PatternOk(pattern: Option<seq<Query>>)
  {
    pattern.None? || |pattern.value| >= 1
  }

  /** A stack entry: a non-empty path to a well-formed node, no longer than the pattern. */
  ghost predicate PathOk(pattern: Option<seq<Query>>, p: seq<Node>)
  {
    p != [] && ValidTree(p[|p| - 1]) && (pattern.Some? ==> |p| <= |pattern.value|)
  }

  function Keys(p: seq<Node>): (r: seq<Option<char>>)
    ensures |r| == |p| && forall i :: 0 <= i < |p| ==> r[i] == p[i].KeyOf()
  {
    seq(|p|, i requires 0 <= i < |p| => p[i].KeyOf())
  }

  /** The paths to each of `cs` through `p`, in the order `extend` pushes them. */
  function Extend(p: seq<Node>, cs: seq<Node>): (r: seq<seq<Node>>)
    ensures |r| == |cs| && forall i :: 0 <= i < |cs| ==> r[i] == p + [cs[i]]
  {
    seq(|cs|, i requires 0 <= i < |cs| => p + [cs[i]])
  }

  /** The paths one step of the traversal pushes after popping `p`: every child
      when there is no pattern or the next entry is `Any`, the child with the key
      a `Matches` entry names if there is one, and nothing once the pattern is
      used up. */
  function Pushed(pattern: Option<seq<Query>>, p: seq<Node>): (r: seq<seq<Node>>)
    requires PathOk(pattern, p)
    ensures forall i :: 0 <= i < |r| ==> PathOk(pattern, r[i])
  {
    var node := p[|p| - 1];
    if pattern.None? || (|p| < |pattern.value| && pattern.value[|p|].Any?) then
      Extend(p, node.children)
    else if |p| == |pattern.value| then []
    else
      match Get(node.children, pattern.value[|p|].key)
      case Some(c) => [p + [c]]
      case None => []
  }

  /** The size of the subtree under the last node of a path. */
  function SizeUnder(p: seq<Node>): nat
  {
    if p == [] then 0 else Size(p[|p| - 1])
  }

  function SumSize(s: seq<seq<Node>>): nat
  {
    if s == [] then 0 else SumSize(s[..|s| - 1]) + SizeUnder(s[|s| - 1])
  }

  lemma {:induction false} SumSizeExtend(p: seq<Node>, cs: seq<Node>)
    ensures SumSize(Extend(p, cs)) == SizeOfAll(cs)
  {
    if cs != [] {
      assert Extend(p, cs)[..|cs| - 1] == Extend(p, cs[..|cs| - 1]);
      SumSizeExtend(p, cs[..|cs| - 1]);
    }
  }

  lemma PushedIsSmaller(pattern: Option<seq<Query>>, p: seq<Node>)
    requires PathOk(pattern, p)
    ensures SumSize(Pushed(pattern, p)) < Size(p[|p| - 1])
  {
    var node := p[|p| - 1];
    if pattern.None? || (|p| < |pattern.value| && pattern.value[|p|].Any?) {
      SumSizeExtend(p, node.children);
    } else if |p| < |pattern.value| {
      match Get(node.children, pattern.value[|p|].key)
      case Some(c) =>
        var i :| 0 <= i < |node.children| && node.children[i].contents == pattern.value[|p|].key;
        SizeOfAllBounds(node.children, i);
        assert SumSize([p + [c]]) == Size(c);
      case None =>
    }
  }

  lemma {:induction false} SumSizeAppend(a: seq<seq<Node>>, b: seq<seq<Node>>)
    ensures SumSize(a + b) == SumSize(a) + SumSize(b)
    decreases |b|
  {
    if b == [] {
      assert a + b == a;
    } else {
      assert (a + b)[..|a + b| - 1] == a + b[..|b| - 1];
      SumSizeAppend(a, b[..|b| - 1]);
    }
  }

  /** Every entry of a stack is a usable path. */
  ghost predicate AllOk(pattern: Option<seq<Query>>, s: seq<seq<Node>>)
  {
    forall i :: 0 <= i < |s| ==> PathOk(pattern, s[i])
  }

  lemma StepStaysOk(pattern: Option<seq<Query>>, s: seq<seq<Node>>)
    requires AllOk(pattern, s) && s != []
    ensures AllOk(pattern, s[..|s| - 1] + Pushed(pattern, s[|s| - 1]))
  {
    var init, pushed := s[..|s| - 1], Pushed(pattern, s[|s| - 1]);
    var r := init + pushed;
    forall i | 0 <= i < |r| ensures PathOk(pattern, r[i]) {
      if i < |init| {
        assert r[i] == s[i];
      } else {
        assert r[i] == pushed[i - |init|];
      }
    }
  }

  lemma StepShrinks(pattern: Option<seq<Query>>, s: seq<seq<Node>>)
    requires AllOk(pattern, s) && s != []
    ensures SumSize(s[..|s| - 1] + Pushed(pattern, s[|s| - 1])) < SumSize(s)
  {
    var init, top := s[..|s| - 1], s[|s| - 1];
    PushedIsSmaller(pattern, top);
    SumSizeAppend(init, Pushed(pattern, top));
  }

  /** The stack after popping the top path and pushing what the pattern admits below it. */
  function Step(pattern: Option<seq<Query>>, s: seq<seq<Node>>): (r: seq<seq<Node>>)
    requires AllOk(pattern, s) && s != []
    ensures AllOk(pattern, r)
    ensures SumSize(r) < SumSize(s)
  {
    StepStaysOk(pattern, s);
    StepShrinks(pattern, s);
    s[..|s| - 1] + Pushed(pattern, s[|s| - 1])
  }

  /** The item yielded when `p` is popped: its keys and its last node. */
  function ItemOf(p: seq<Node>): Item
    requires p != []
  {
    (Keys(p), p[|p| - 1])
  }

  /** Everything the traversal yields from stack `s` on (the top is the last entry). */
  function ItemsWalk(pattern: Option<seq<Query>>, s: seq<seq<Node>>): (r: seq<Item>)
    requires AllOk(pattern, s)
    ensures |r| >= |s|
    decreases SumSize(s)
  {
    if s == [] then []
    else [ItemOf(s[|s| - 1])] + ItemsWalk(pattern, Step(pattern, s))
  }

  /** The stack after one step pushes the paths the pattern admits below
      `prefix` on top of `rest` (vocab-tree/src/traversals.rs:38-60). */
  method PushAdmitted(pattern: Option<seq<Query>>, rest: seq<seq<Node>>, prefix: seq<Node>)
    returns (st: seq<seq<Node>>)
    requires PathOk(pattern, prefix)
    ensures st == rest + Pushed(pattern, prefix)
  {
    ghost var pushed := Pushed(pattern, prefix);
    st := rest;
    var node := prefix[|prefix| - 1];
    var remaining: Option<seq<Query>> := if pattern.None? then None else Some(pattern.value[|prefix|..]);
    if remaining.None? || (remaining.value != [] && remaining.value[0].Any?) {
      assert pushed == Extend(prefix, node.children);
      var i := 0;
      while i < |node.children|
        invariant 0 <= i <= |node.children|
        invariant st == rest + pushed[..i]
      {
        assert pushed[..i + 1] == pushed[..i] + [prefix + [node.children[i]]];
        st := st + [prefix + [node.children[i]]];
        i := i + 1;
      }
      assert pushed[..i] == pushed;
    } else if remaining.value != [] {
      match Get(node.children, remaining.value[0].key)
      case Some(child) =>
        st := st + [prefix + [child]];
      case None =>
    }
  }

  class DfsTraversal {
    var stack: seq<seq<Node>>
    const pattern: Option<seq<Query>>

    ghost predicate Valid()
      reads this
    {
      PatternOk(pattern) && AllOk(pattern, stack)
    }

    /** The items the traversal has still to yield, in order. */
    ghost function Remaining(): seq<Item>
      reads this
      requires Valid()
    {
      ItemsWalk(pattern, stack)
    }

    /** `DfsTraversal::new`: a single path holding the start node
        (vocab-tree/src/traversals.rs:18-26). */
    constructor New(root: Node, pattern: Option<seq<Query>>)
      requires ValidTree(root) && PatternOk(pattern)
      ensures Valid() && this.pattern == pattern && stack == [[root]]
      ensures Remaining() == ItemsWalk(pattern, [[root]])
    {
      this.pattern := pattern;
      stack := [[root]];
    }

    /** `DfsTraversal::next`: pop the top path, push the paths the pattern
        admits, and yield the popped path's keys with its last node; `None` once
        the stack is empty (vocab-tree/src/traversals.rs:34-67). */
    method Next() returns (r: Option<Item>)
      requires Valid()
      modifies this
      ensures Valid()
      ensures old(Remaining()) == [] ==> r.None? && Remaining() == []
      ensures old(Remaining()) != [] ==> r == Some(old(Remaining())[0]) && Remaining() == old(Remaining())[1..]
    {
      if stack == [] {
        return None;
      }
      var prefix := stack[|stack| - 1];
      var st := PushAdmitted(pattern, stack[..|stack| - 1], prefix);
      assert st == Step(pattern, stack);
      stack := st;
      r := Some((Keys(prefix), prefix[|prefix| - 1]));
    }
  }

  // ---------------------------------------------------------------------------
  // What the traversal yields.

  /** The symbol a pattern key stands for in the yielded key list. */
  function KeySymbol(k: Key): Option<char>
  {
    match k
    case Internal(c) => Some(c)
    case _ => None
  }

  /** A path fits the pattern: each node below the start has the key its entry names. */
  ghost predicate PathConforms(pattern: Option<seq<Query>>, p: seq<Node>)
  {
    pattern.Some? ==> forall d :: 1 <= d < |p| && d < |pattern.value| && pattern.value[d].Matches? ==>
      p[d].contents == pattern.value[d].key
  }

  /** An item fits the pattern: no longer than it, with the named symbol at every
      `Matches` entry and, when its last entry is a `Matches`, a node with that key. */
  predicate ItemConforms(pattern: Option<seq<Query>>, it: Item)
  {
    pattern.Some? ==>
      && |it.0| <= |pattern.value|
      && (forall d :: 1 <= d < |it.0| && pattern.value[d].Matches? ==> it.0[d] == KeySymbol(pattern.value[d].key))
      && (2 <= |it.0| && pattern.value[|it.0| - 1].Matches? ==> it.1.contents == pattern.value[|it.0| - 1].key)
  }

  lemma PushedConforms(pattern: Option<seq<Query>>, p: seq<Node>)
    requires PathOk(pattern, p) && PathConforms(pattern, p)
    ensures forall i :: 0 <= i < |Pushed(pattern, p)| ==> PathConforms(pattern, Pushed(pattern, p)[i])
  {
    var pushed := Pushed(pattern, p);
    forall i | 0 <= i < |pushed| ensures PathConforms(pattern, pushed[i]) {
      if pattern.Some? && |p| < |pattern.value| && pattern.value[|p|].Matches? {
        var c := Get(p[|p| - 1].children, pattern.value[|p|].key).value;
        assert pushed[i] == p + [c];
      }
    }
  }

  lemma ItemOfConforms(pattern: Option<seq<Query>>, p: seq<Node>)
    requires PathOk(pattern, p) && PathConforms(pattern, p)
    ensures ItemConforms(pattern, ItemOf(p))
  {
    var it := ItemOf(p);
    if pattern.Some? {
      forall d | 1 <= d < |it.0| && pattern.value[d].Matches?
        ensures it.0[d] == KeySymbol(pattern.value[d].key)
      {
        assert p[d].contents == pattern.value[d].key;
      }
    }
  }

  /** One step keeps every path of the stack fitting the pattern. */
  lemma StepConforms(pattern: Option<seq<Query>>, s: seq<seq<Node>>)
    requires AllOk(pattern, s) && s != []
    requires forall i :: 0 <= i < |s| ==> PathConforms(pattern, s[i])
    ensures forall i :: 0 <= i < |Step(pattern, s)| ==> PathConforms(pattern, Step(pattern, s)[i])
  {
    var top, next := s[|s| - 1], Step(pattern, s);
    PushedConforms(pattern, top);
    var pushed := Pushed(pattern, top);
    forall i | 0 <= i < |next| ensures PathConforms(pattern, next[i]) {
      if i < |s| - 1 {
        assert next[i] == s[i];
      } else {
        assert next[i] == pushed[i - (|s| - 1)];
      }
    }
  }

  /** Every item yielded from a stack of paths that fit the pattern fits it too:
      a `Matches` entry admits only its key, and nothing deeper than the pattern
      is visited (vocab-tree/src/traversals.rs:38-62). */
  lemma {:induction false} ItemsWalkConforms(pattern: Option<seq<Query>>, s: seq<seq<Node>>)
    requires AllOk(pattern, s)
    requires forall i :: 0 <= i < |s| ==> PathConforms(pattern, s[i])
    ensures forall it :: it in ItemsWalk(pattern, s) ==> ItemConforms(pattern, it)
    decreases SumSize(s)
  {
    if s != [] {
      var top := s[|s| - 1];
      StepConforms(pattern, s);
      ItemsWalkConforms(pattern, Step(pattern, s));
      ItemOfConforms(pattern, top);
      assert ItemsWalk(pattern, s) == [ItemOf(top)] + ItemsWalk(pattern, Step(pattern, s));
    }
  }

  /** Started from a path that fits the pattern, the traversal yields only items
      that fit it (vocab-tree/src/traversals.rs:18-62). */
  lemma TraversalConforms(pattern: Option<seq<Query>>, root: Node)
    requires ValidTree(root) && PatternOk(pattern)
    ensures forall it :: it in ItemsWalk(pattern, [[root]]) ==> ItemConforms(pattern, it)
  {
    ItemsWalkConforms(pattern, [[root]]);
  }

  /** Node `c` fits the pattern at depth `d`: there is no pattern, or `d` lies
      within it and its entry there is `Any` or `c`'s key. */
  predicate FitsAt(pattern: Option<seq<Query>>, c: Node, d: nat)
  {
    pattern.None? || (d < |pattern.value| && (pattern.value[d].Any? || c.contents == pattern.value[d].key))
  }

  /** `p` is a path down from `root` along which every node below the root
      fits the pattern at its depth. */
  predicate Descends(pattern: Option<seq<Query>>, root: Node, p: seq<Node>)
  {
    && p != [] && p[0] == root
    && forall d :: 1 <= d < |p| ==> p[d] in p[d - 1].children && FitsAt(pattern, p[d], d)
  }

  lemma ItemsWalkUnfold(pattern: Option<seq<Query>>, s: seq<seq<Node>>)
    requires AllOk(pattern, s) && s != []
    ensures ItemsWalk(pattern, s) == [ItemOf(s[|s| - 1])] + ItemsWalk(pattern, Step(pattern, s))
  {
  }

  /** A step keeps every path below the top where it was. */
  lemma StepKeeps(pattern: Option<seq<Query>>, s: seq<seq<Node>>, k: nat)
    requires AllOk(pattern, s) && k < |s| - 1
    ensures Step(pattern, s)[k] == s[k]
  {
  }

  /** Every path on the stack is popped and its item yielded. */
  lemma {:induction false} StackYields(pattern: Option<seq<Query>>, s: seq<seq<Node>>, k: nat)
    requires AllOk(pattern, s) && k < |s|
    ensures ItemOf(s[k]) in ItemsWalk(pattern, s)
    decreases SumSize(s)
  {
    var next := Step(pattern, s);
    ItemsWalkUnfold(pattern, s);
    if k < |s| - 1 {
      StepKeeps(pattern, s, k);
      StackYields(pattern, next, k);
    }
  }

  /** A child that fits the pattern one level below a path is pushed when the
      path is popped. */
  lemma PushedHasChild(pattern: Option<seq<Query>>, p: seq<Node>, c: Node)
    requires PathOk(pattern, p) && c in p[|p| - 1].children && FitsAt(pattern, c, |p|)
    ensures p + [c] in Pushed(pattern, p)
  {
    var node := p[|p| - 1];
    var i :| 0 <= i < |node.children| && node.children[i] == c;
    if pattern.None? || pattern.value[|p|].Any? {
      assert Pushed(pattern, p)[i] == p + [c];
    } else {
      assert Get(node.children, pattern.value[|p|].key) == Some(c);
    }
  }

  /** A fitting child of the top path's last node is yielded after the top is popped. */
  lemma TopChildYielded(pattern: Option<seq<Query>>, s: seq<seq<Node>>, c: Node)
    requires AllOk(pattern, s) && s != []
    requires c in s[|s| - 1][|s[|s| - 1]| - 1].children && FitsAt(pattern, c, |s[|s| - 1]|)
    ensures ItemOf(s[|s| - 1] + [c]) in ItemsWalk(pattern, Step(pattern, s))
  {
    var top := s[|s| - 1];
    var next := Step(pattern, s);
    PushedHasChild(pattern, top, c);
    var pushed := Pushed(pattern, top);
    var x :| 0 <= x < |pushed| && pushed[x] == top + [c];
    assert next[|s| - 1 + x] == top + [c];
    StackYields(pattern, next, |s| - 1 + x);
  }

  /** Extending a path by one node extends its keys by that node's key. */
  lemma ItemOfSnoc(p: seq<Node>, c: Node)
    requires p != []
    ensures ItemOf(p + [c]) == (ItemOf(p).0 + [c.KeyOf()], c)
  {
    assert Keys(p + [c]) == Keys(p) + [c.KeyOf()];
  }

  /** The item of a fitting child is yielded after the item of its parent path. */
  lemma {:induction false} ItemsWalkClosed(pattern: Option<seq<Query>>, s: seq<seq<Node>>, it: Item, c: Node)
    requires AllOk(pattern, s) && it in ItemsWalk(pattern, s)
    requires c in it.1.children && FitsAt(pattern, c, |it.0|)
    ensures (it.0 + [c.KeyOf()], c) in ItemsWalk(pattern, s)
    decreases SumSize(s)
  {
    if s != [] {
      var top := s[|s| - 1];
      var next := Step(pattern, s);
      ItemsWalkUnfold(pattern, s);
      if it == ItemOf(top) {
        TopChildYielded(pattern, s, c);
        ItemOfSnoc(top, c);
      } else {
        assert it in ItemsWalk(pattern, next);
        ItemsWalkClosed(pattern, next, it, c);
      }
    }
  }

  /** The item of every path down from the start node that fits the pattern is
      yielded: the traversal misses nothing the pattern admits
      (vocab-tree/src/traversals.rs:38-62). */
  lemma {:induction false} ItemsWalkComplete(pattern: Option<seq<Query>>, root: Node, p: seq<Node>)
    requires ValidTree(root) && PatternOk(pattern) && Descends(pattern, root, p)
    ensures ItemOf(p) in ItemsWalk(pattern, [[root]])
    decreases |p|
  {
    assert AllOk(pattern, [[root]]);
    if |p| == 1 {
      assert p == [root];
      StackYields(pattern, [[root]], 0);
    } else {
      var q := p[..|p| - 1];
      var c := p[|p| - 1];
      DescendsInit(pattern, root, p);
      ItemsWalkComplete(pattern, root, q);
      ItemsWalkClosed(pattern, [[root]], ItemOf(q), c);
    }
  }

  /** A descending path of two nodes or more is a shorter descending path and
      one fitting child of its last node. */
  lemma DescendsInit(pattern: Option<seq<Query>>, root: Node, p: seq<Node>)
    requires Descends(pattern, root, p) && |p| >= 2
    ensures Descends(pattern, root, p[..|p| - 1])
    ensures p[|p| - 1] in p[|p| - 2].children && FitsAt(pattern, p[|p| - 1], |p| - 1)
    ensures ItemOf(p) == (Keys(p[..|p| - 1]) + [p[|p| - 1].KeyOf()], p[|p| - 1])
  {
    var q := p[..|p| - 1];
    assert Keys(p) == Keys(q) + [p[|p| - 1].KeyOf()];
  }

  /** A path that descends from a valid start node ends in a valid node. */
  lemma {:induction false} DescendsValid(pattern: Option<seq<Query>>, root: Node, p: seq<Node>)
    requires ValidTree(root) && Descends(pattern, root, p)
    ensures ValidTree(p[|p| - 1])
    decreases |p|
  {
    if |p| > 1 {
      var q := p[..|p| - 1];
      assert Descends(pattern, root, q);
      DescendsValid(pattern, root, q);
      var node := q[|q| - 1];
      var i :| 0 <= i < |node.children| && node.children[i] == p[|p| - 1];
    }
  }

  lemma DescendsSnoc(pattern: Option<seq<Query>>, root: Node, p: seq<Node>, c: Node)
    requires Descends(pattern, root, p) && c in p[|p| - 1].children && FitsAt(pattern, c, |p|)
    ensures Descends(pattern, root, p + [c])
  {
    var q := p + [c];
    forall d | 1 <= d < |q| ensures q[d] in q[d - 1].children && FitsAt(pattern, q[d], d) {
      if d < |p| {
        assert q[d] == p[d] && q[d - 1] == p[d - 1];
      }
    }
  }

  /** The paths one step pushes below a descending path descend too. */
  lemma PushedDescends(pattern: Option<seq<Query>>, root: Node, p: seq<Node>)
    requires PathOk(pattern, p) && Descends(pattern, root, p)
    ensures forall i :: 0 <= i < |Pushed(pattern, p)| ==> Descends(pattern, root, Pushed(pattern, p)[i])
  {
    var node := p[|p| - 1];
    var pushed := Pushed(pattern, p);
    forall i | 0 <= i < |pushed| ensures Descends(pattern, root, pushed[i]) {
      if pattern.None? || (|p| < |pattern.value| && pattern.value[|p|].Any?) {
        var c := node.children[i];
        assert pushed[i] == p + [c];
        DescendsSnoc(pattern, root, p, c);
      } else {
        var key := pattern.value[|p|].key;
        var c := Get(node.children, key).value;
        var j :| 0 <= j < |node.children| && node.children[j].contents == key;
        assert c == node.children[j];
        assert pushed[i] == p + [c];
        DescendsSnoc(pattern, root, p, c);
      }
    }
  }

  /** One step keeps every path of the stack descending. */
  lemma StepDescends(pattern: Option<seq<Query>>, root: Node, s: seq<seq<Node>>)
    requires AllOk(pattern, s) && s != []
    requires forall k :: 0 <= k < |s| ==> Descends(pattern, root, s[k])
    ensures forall k :: 0 <= k < |Step(pattern, s)| ==> Descends(pattern, root, Step(pattern, s)[k])
  {
    var top, next := s[|s| - 1], Step(pattern, s);
    var pushed := Pushed(pattern, top);
    PushedDescends(pattern, root, top);
    forall k | 0 <= k < |next| ensures Descends(pattern, root, next[k]) {
      if k >= |s| - 1 {
        assert next[k] == pushed[k - (|s| - 1)];
      } else {
        assert next[k] == s[k];
      }
    }
  }

  /** Every item yielded from a stack of descending paths is the item of a
      descending path. */
  lemma {:induction false} ItemsWalkDescends(pattern: Option<seq<Query>>, root: Node, s: seq<seq<Node>>, it: Item)
    requires AllOk(pattern, s) && it in ItemsWalk(pattern, s)
    requires forall k :: 0 <= k < |s| ==> Descends(pattern, root, s[k])
    ensures exists p :: Descends(pattern, root, p) && ItemOf(p) == it
    decreases SumSize(s)
  {
    if s != [] {
      var top := s[|s| - 1];
      var next := Step(pattern, s);
      assert ItemsWalk(pattern, s) == [ItemOf(top)] + ItemsWalk(pattern, next);
      if it == ItemOf(top) {
        assert Descends(pattern, root, top);
      } else {
        StepDescends(pattern, root, s);
        ItemsWalkDescends(pattern, root, next, it);
      }
    }
  }

  /** The traversal from a start node yields exactly the items of the paths
      down from it that fit the pattern: sound and complete
      (vocab-tree/src/traversals.rs:18-62). */
  lemma TraversalExactly(pattern: Option<seq<Query>>, root: Node, it: Item)
    requires ValidTree(root) && PatternOk(pattern)
    ensures it in ItemsWalk(pattern, [[root]]) <==> exists p :: Descends(pattern, root, p) && ItemOf(p) == it
  {
    if it in ItemsWalk(pattern, [[root]]) {
      ItemsWalkDescends(pattern, root, [[root]], it);
    }
    if exists p :: Descends(pattern, root, p) && ItemOf(p) == it {
      var p :| Descends(pattern, root, p) && ItemOf(p) == it;
      ItemsWalkComplete(pattern, root, p);
    }
  }

  /** The subtree below `n` listed from the node down, children in order. */
  function Subtree(n: Node): (r: seq<Node>)
  {
    [n] + SubtreeOfAll(n.children)
  }

  function SubtreeOfAll(cs: seq<Node>): seq<Node>
  {
    if cs == [] then [] else SubtreeOfAll(cs[..|cs| - 1]) + Subtree(cs[|cs| - 1])
  }

  function NodesOf(items: seq<Item>): (r: seq<Node>)
    ensures |r| == |items| && forall i :: 0 <= i < |items| ==> r[i] == items[i].1
  {
    seq(|items|, i requires 0 <= i < |items| => items[i].1)
  }

  lemma NodesOfCons(it: Item, rest: seq<Item>)
    ensures NodesOf([it] + rest) == [it.1] + NodesOf(rest)
  {
    var l, r := NodesOf([it] + rest), [it.1] + NodesOf(rest);
    assert |l| == |r|;
    forall i | 0 <= i < |l| ensures l[i] == r[i] {
      if i > 0 {
        assert ([it] + rest)[i] == rest[i - 1];
      }
    }
  }

  /** The nodes under all the paths of a stack, counted with repetition. */
  function SubtreesUnder(s: seq<seq<Node>>): multiset<Node>
  {
    if s == [] then multiset{}
    else if s[|s| - 1] == [] then SubtreesUnder(s[..|s| - 1])
    else SubtreesUnder(s[..|s| - 1]) + multiset(Subtree(s[|s| - 1][|s[|s| - 1]| - 1]))
  }

  lemma {:induction false} SubtreesUnderAppend(a: seq<seq<Node>>, b: seq<seq<Node>>)
    ensures SubtreesUnder(a + b) == SubtreesUnder(a) + SubtreesUnder(b)
    decreases |b|
  {
    if b == [] {
      assert a + b == a;
    } else {
      assert (a + b)[..|a + b| - 1] == a + b[..|b| - 1];
      SubtreesUnderAppend(a, b[..|b| - 1]);
    }
  }

  lemma {:induction false} SubtreesUnderExtend(p: seq<Node>, cs: seq<Node>)
    ensures SubtreesUnder(Extend(p, cs)) == multiset(SubtreeOfAll(cs))
  {
    if cs != [] {
      assert Extend(p, cs)[..|cs| - 1] == Extend(p, cs[..|cs| - 1]);
      SubtreesUnderExtend(p, cs[..|cs| - 1]);
    }
  }

  /** Without a pattern one step trades the top node for its children's subtrees. */
  lemma StepSubtrees(s: seq<seq<Node>>)
    requires AllOk(None, s) && s != []
    ensures SubtreesUnder(Step(None, s)) + multiset{s[|s| - 1][|s[|s| - 1]| - 1]} == SubtreesUnder(s)
  {
    var init, top := s[..|s| - 1], s[|s| - 1];
    var node := top[|top| - 1];
    assert Pushed(None, top) == Extend(top, node.children);
    SubtreesUnderAppend(init, Extend(top, node.children));
    SubtreesUnderExtend(top, node.children);
    assert multiset(Subtree(node)) == multiset{node} + multiset(SubtreeOfAll(node.children));
  }

  /** The first node yielded from a non-empty stack is its top path's last node. */
  lemma WalkHead(s: seq<seq<Node>>)
    requires AllOk(None, s) && s != []
    ensures multiset(NodesOf(ItemsWalk(None, s)))
      == multiset{s[|s| - 1][|s[|s| - 1]| - 1]} + multiset(NodesOf(ItemsWalk(None, Step(None, s))))
  {
    var top := s[|s| - 1];
    var rest := ItemsWalk(None, Step(None, s));
    assert ItemsWalk(None, s) == [ItemOf(top)] + rest;
    NodesOfCons(ItemOf(top), rest);
  }

  /** With no pattern, the traversal from a stack yields exactly the nodes under
      its paths, each as often as it occurs there (vocab-tree/src/traversals.rs:43-49). */
  lemma {:induction false} ItemsWalkVisitsOnce(s: seq<seq<Node>>)
    requires AllOk(None, s)
    ensures multiset(NodesOf(ItemsWalk(None, s))) == SubtreesUnder(s)
    decreases SumSize(s)
  {
    if s != [] {
      ItemsWalkVisitsOnce(Step(None, s));
      StepSubtrees(s);
      WalkHead(s);
    } else {
      assert ItemsWalk(None, s) == [];
      assert NodesOf([]) == [];
    }
  }

  /** With no pattern, every node of the subtree is yielded exactly once
      (vocab-tree/src/traversals.rs:43-49). */
  lemma TraversalVisitsSubtreeOnce(root: Node)
    requires ValidTree(root)
    ensures multiset(NodesOf(ItemsWalk(None, [[root]]))) == multiset(Subtree(root))
  {
    ItemsWalkVisitsOnce([[root]]);
    assert [[root]][..0] == [];
  }
}
