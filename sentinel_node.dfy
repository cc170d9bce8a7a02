/** The third generation of the word index: a trie whose paths begin with a `Start`
    key and end with an `End` key, whose children are kept sorted by key and found
    by binary search, and whose every node carries the smallest value pushed
    through it. Symbols are characters and values are integers. */
module SentinelNode {
  import opened Wrappers

  /** Path keys; the derived order puts `Start` first, `End` last and orders the
      internal keys by their symbol. */
  datatype Key = Start | Internal(sym: char) | End

  function Rank(k: Key): nat
  {
    match k
    case Start => 0
    case Internal(_) => 1
    case End => 2
  }

  /** The strict order Rust derives for `Key`. */
  predicate Below(a: Key, b: Key)
  {
    Rank(a) < Rank(b) || (a.Internal? && b.Internal? && a.sym < b.sym)
  }

  /** `Below` is a strict total order with `Start` least and `End` greatest
      (vocab-tree/src/node.rs:13-18). */
  lemma KeyOrder(a: Key, b: Key, c: Key)
    ensures !Below(a, a)
    ensures a != b ==> (Below(a, b) <==> !Below(b, a))
    ensures Below(a, b) && Below(b, c) ==> Below(a, c)
    ensures a != Start ==> Below(Start, a)
    ensures a != End ==> Below(a, End)
  {
  }

  datatype Node = Node(contents: Key, children: seq<Node>, minDescendent: Option<int>) {

    /** The symbol of an `Internal` node (vocab-tree/src/node.rs:36-41). */
    function KeyOf(): (r: Option<char>)
      ensures r.Some? <==> contents.Internal?
      ensures r.Some? ==> contents == Internal(r.value)
    {
      match contents
      case Internal(k) => Some(k)
      case _ => None
    }

    /** The value of a terminal node: its aggregate, and nothing on any other
        node (vocab-tree/src/node.rs:43-49). */
    function Value(): (r: Option<int>)
      ensures r.Some? ==> contents.End? && r == minDescendent
      ensures contents.End? ==> r == minDescendent
    {
      match contents
      case End => minDescendent
      case _ => None
    }

    /** Record `v` along `suffix`, creating the missing nodes; every node on the
        way keeps the smaller of its aggregate and `v`. */
    function Push(suffix: seq<Key>, v: int): (r: Node)
      requires ValidTree(this)
      ensures r.contents == contents
      ensures r.minDescendent == Some(Join(minDescendent, v))
      ensures ValidTree(r)
      decreases |suffix|
    {
      var least := Some(Join(minDescendent, v));
      if suffix == [] then
        this.(minDescendent := least)
      else
        var (cs, i) := GetOrCreate(children, suffix[0]);
        var child := cs[i].Push(suffix[1..], v);
        var updated := cs[i := child];
        assert forall j :: 0 <= j < |cs| ==> updated[j].contents == cs[j].contents;
        assert forall j :: 0 <= j < |cs| && j != i ==> updated[j] in children;
        this.(minDescendent := least, children := updated)
    }

    /** The node at address `suffix` below this one, if the whole path exists. */
    function FindDescendent(suffix: seq<Key>): (r: Option<Node>)
      requires ValidTree(this)
      ensures r.Some? ==> ValidTree(r.value)
      ensures suffix != [] && r.Some? ==> r.value.contents == suffix[|suffix| - 1] && r.value.minDescendent.Some?
      decreases |suffix|
    {
      if suffix == [] then Some(this)
      else
        match Get(children, suffix[0])
        case Some(c) => c.FindDescendent(suffix[1..])
        case None => None
    }
  }

  /** `Node::new` and `Node::with_contents` (vocab-tree/src/node.rs:24-34). */
  function WithContents(k: Key): (r: Node)
    ensures r.contents == k && r.children == [] && r.minDescendent.None?
  {
    Node(k, [], None)
  }

  function New(): (r: Node)
    ensures r.contents == Start && ValidTree(r) && r.minDescendent.None?
  {
    WithContents(Start)
  }

  /** The aggregate after recording `v`: `v` when there was none, else the smaller. */
  function Join(m: Option<int>, v: int): (r: int)
    ensures r <= v && (m.Some? ==> r <= m.value)
    ensures r == v || (m.Some? && r == m.value)
  {
    match m
    case None => v
    case Some(held) => if v < held then v else held
  }

  predicate Sorted(cs: seq<Node>)
  {
    forall i, j :: 0 <= i < j < |cs| ==> Below(cs[i].contents, cs[j].contents)
  }

  /** Children strictly sorted at every level, every non-root node already
      holding an aggregate, and every aggregate no larger than its children's:
      the least value recorded anywhere below. */
  ghost predicate ValidTree(n: Node)
  {
    && Sorted(n.children)
    && forall i :: 0 <= i < |n.children| ==>
         && n.children[i].minDescendent.Some?
         && n.minDescendent.Some?
         && n.minDescendent.value <= n.children[i].minDescendent.value
         && ValidTree(n.children[i])
  }

  // ---------------------------------------------------------------------------
  // `Children`: binary search over the sorted list.

  datatype Probe = Found(index: nat) | Missing(index: nat)

  /** `binary_search_by_key` on a strictly sorted list: the index of the key, or
      the position where it would have to be inserted. */
  function Locate(cs: seq<Node>, key: Key): (r: Probe)
    requires Sorted(cs)
    ensures r.Found? ==> r.index < |cs| && cs[r.index].contents == key
    ensures r.Missing? ==> (r.index <= |cs|
      && (forall j :: 0 <= j < r.index ==> Below(cs[j].contents, key))
      && (forall j :: r.index <= j < |cs| ==> Below(key, cs[j].contents)))
  {
    Bisect(cs, key, 0, |cs|)
  }

  function Bisect(cs: seq<Node>, key: Key, lo: nat, hi: nat): (r: Probe)
    requires Sorted(cs) && lo <= hi <= |cs|
    requires forall j :: 0 <= j < lo ==> Below(cs[j].contents, key)
    requires forall j :: hi <= j < |cs| ==> Below(key, cs[j].contents)
    ensures r.Found? ==> r.index < |cs| && cs[r.index].contents == key
    ensures r.Missing? ==> (r.index <= |cs|
      && (forall j :: 0 <= j < r.index ==> Below(cs[j].contents, key))
      && (forall j :: r.index <= j < |cs| ==> Below(key, cs[j].contents)))
    decreases hi - lo
  {
    if lo == hi then Missing(lo)
    else
      var mid := (lo + hi) / 2;
      if cs[mid].contents == key then Found(mid)
      else if Below(cs[mid].contents, key) then Bisect(cs, key, mid + 1, hi)
      else Bisect(cs, key, lo, mid)
  }

  /** In a strictly sorted list the search finds each present key at its own index. */
  lemma LocatePresent(cs: seq<Node>, j: nat)
    requires Sorted(cs) && j < |cs|
    ensures Locate(cs, cs[j].contents) == Found(j)
  {
  }

  /** `Children::get`: `Some` exactly when a child has the key, and then that
      child (vocab-tree/src/node.rs:105-114). */
  function Get(cs: seq<Node>, key: Key): (r: Option<Node>)
    requires Sorted(cs)
    ensures r.Some? <==> exists i :: 0 <= i < |cs| && cs[i].contents == key
    ensures forall i :: 0 <= i < |cs| && cs[i].contents == key ==> r == Some(cs[i])
  {
    forall i | 0 <= i < |cs| && cs[i].contents == key ensures Locate(cs, key) == Found(i) {
      LocatePresent(cs, i);
    }
    match Locate(cs, key)
    case Found(i) => Some(cs[i])
    case Missing(_) => None
  }

  /** `Children::get_or_create`: the list afterwards and the index of the child
      with the key. An existing child is returned and nothing is added; otherwise
      a blank child is inserted where the search says, keeping the list sorted
      (vocab-tree/src/node.rs:116-134). */
  function GetOrCreate(cs: seq<Node>, key: Key): (r: (seq<Node>, nat))
    requires Sorted(cs)
    ensures Sorted(r.0) && r.1 < |r.0| && r.1 <= |cs| && r.0[r.1].contents == key
    ensures (exists j :: 0 <= j < |cs| && cs[j].contents == key) ==> r.0 == cs
    ensures (forall j :: 0 <= j < |cs| ==> cs[j].contents != key) ==>
      r.0 == cs[..r.1] + [WithContents(key)] + cs[r.1..]
    ensures (forall j :: 0 <= j < |cs| ==> cs[j].contents != key) ==> r.0[r.1] == WithContents(key)
    ensures forall j :: 0 <= j < |r.0| && j != r.1 ==> r.0[j] in cs
  {
    match Locate(cs, key)
    case Found(i) => (cs, i)
    case Missing(i) =>
      var ds := cs[..i] + [WithContents(key)] + cs[i..];
      forall j | 0 <= j < |cs| ensures cs[j].contents != key {
        KeyOrder(key, key, key);
      }
      InsertSorted(cs, i, WithContents(key));
      assert forall j :: 0 <= j < |ds| && j != i ==> ds[j] == if j < i then cs[j] else cs[j - 1];
      (ds, i)
  }

  /** Inserting a node at the position the search names keeps the list strictly sorted. */
  lemma InsertSorted(cs: seq<Node>, i: nat, x: Node)
    requires Sorted(cs) && i <= |cs|
    requires forall j :: 0 <= j < i ==> Below(cs[j].contents, x.contents)
    requires forall j :: i <= j < |cs| ==> Below(x.contents, cs[j].contents)
    ensures Sorted(cs[..i] + [x] + cs[i..])
  {
    var ds := cs[..i] + [x] + cs[i..];
    assert forall j :: 0 <= j < |ds| ==> ds[j] == if j < i then cs[j] else if j == i then x else cs[j - 1];
    forall a, b | 0 <= a < b < |ds| ensures Below(ds[a].contents, ds[b].contents) {
      if b < i {
        assert ds[a] == cs[a] && ds[b] == cs[b];
      } else if b == i {
        assert ds[a] == cs[a];
      } else if a == i {
        assert ds[b] == cs[b - 1];
      } else if a < i {
        assert ds[a] == cs[a] && ds[b] == cs[b - 1];
      } else {
        assert ds[a] == cs[a - 1] && ds[b] == cs[b - 1];
      }
    }
  }

  // ---------------------------------------------------------------------------
  // Properties of `push` and `find_descendent`.

  /** The aggregate a node addressed by `p` held, or `None` when there was none. */
  function MinAt(n: Node, p: seq<Key>): Option<int>
    requires ValidTree(n)
  {
    match n.FindDescendent(p)
    case Some(m) => m.minDescendent
    case None => None
  }

  lemma {:induction false} BlankHasNothing(n: Node, p: seq<Key>)
    requires n.children == [] && n.minDescendent.None?
    ensures MinAt(n, p).None?
    ensures p != [] ==> n.FindDescendent(p).None?
  {
  }

  /** After `push(s, v)` every node along `s` exists, and its aggregate is the
      smaller of what it held and `v`, or `v` when it held nothing
      (vocab-tree/src/node.rs:63-79). */
  lemma {:induction false} PushSetsMinAlongPath(n: Node, s: seq<Key>, v: int, i: nat)
    requires ValidTree(n) && i <= |s|
    ensures n.Push(s, v).FindDescendent(s[..i]).Some?
    ensures MinAt(n.Push(s, v), s[..i]) == Some(Join(MinAt(n, s[..i]), v))
    decreases |s|
  {
    if i > 0 {
      var (cs, j) := GetOrCreate(n.children, s[0]);
      var child := cs[j].Push(s[1..], v);
      var r := n.Push(s, v);
      assert r.children == cs[j := child];
      assert r.children[j] == child && child.contents == s[0];
      assert Get(r.children, s[0]) == Some(child);
      assert s[..i][0] == s[0] && s[..i][1..] == s[1..][..i - 1];
      PushSetsMinAlongPath(cs[j], s[1..], v, i - 1);
      assert r.FindDescendent(s[..i]) == child.FindDescendent(s[1..][..i - 1]);
      if Get(n.children, s[0]).Some? {
        assert cs == n.children;
        assert n.FindDescendent(s[..i]) == cs[j].FindDescendent(s[1..][..i - 1]);
      } else {
        assert cs[j] == WithContents(s[0]);
        BlankHasNothing(cs[j], s[1..][..i - 1]);
        assert n.FindDescendent(s[..i]).None?;
      }
    }
  }

  lemma GetAfterUpdate(cs: seq<Node>, j: nat, x: Node, key: Key)
    requires Sorted(cs) && j < |cs| && x.contents == cs[j].contents != key
    ensures Sorted(cs[j := x]) && Get(cs[j := x], key) == Get(cs, key)
  {
    var ds := cs[j := x];
    assert forall k :: 0 <= k < |cs| ==> ds[k].contents == cs[k].contents;
    if exists k :: 0 <= k < |cs| && cs[k].contents == key {
      var k :| 0 <= k < |cs| && cs[k].contents == key;
      assert ds[k] == cs[k];
    }
  }

  lemma GetAfterInsert(cs: seq<Node>, i: nat, x: Node, key: Key)
    requires i <= |cs| && Sorted(cs) && Sorted(cs[..i] + [x] + cs[i..]) && x.contents != key
    ensures Get(cs[..i] + [x] + cs[i..], key) == Get(cs, key)
  {
    var ds := cs[..i] + [x] + cs[i..];
    if exists k :: 0 <= k < |cs| && cs[k].contents == key {
      var k :| 0 <= k < |cs| && cs[k].contents == key;
      var e := if k < i then k else k + 1;
      assert ds[e] == cs[k];
      assert Get(ds, key) == Some(ds[e]);
    } else {
      forall m | 0 <= m < |ds| ensures ds[m].contents != key {
        if m < i {
          assert ds[m] == cs[m];
        } else if m > i {
          assert ds[m] == cs[m - 1];
        }
      }
    }
  }

  /** Pushing along `s` leaves the child under any other first key as it was. */
  lemma PushKeepsSiblings(n: Node, s: seq<Key>, v: int, key: Key)
    requires ValidTree(n) && s != [] && key != s[0]
    ensures Get(n.Push(s, v).children, key) == Get(n.children, key)
  {
    var (cs, j) := GetOrCreate(n.children, s[0]);
    var child := cs[j].Push(s[1..], v);
    assert n.Push(s, v).children == cs[j := child];
    GetAfterUpdate(cs, j, child, key);
    if !exists k :: 0 <= k < |n.children| && n.children[k].contents == s[0] {
      GetAfterInsert(n.children, j, WithContents(s[0]), key);
    }
  }

  /** `push(s, v)` leaves every node whose address does not begin `s` as it was,
      so other words keep their values (vocab-tree/src/node.rs:72-78). */
  lemma {:induction false} PushLeavesOthers(n: Node, s: seq<Key>, v: int, q: seq<Key>)
    requires ValidTree(n) && !IsPrefix(q, s)
    ensures n.Push(s, v).FindDescendent(q) == n.FindDescendent(q)
    decreases |s|
  {
    var r := n.Push(s, v);
    if s != [] {
      if q[0] == s[0] {
        var (cs, j) := GetOrCreate(n.children, s[0]);
        var child := cs[j].Push(s[1..], v);
        assert r.children == cs[j := child];
        assert r.children[j] == child && child.contents == s[0];
        assert Get(r.children, q[0]) == Some(child);
        assert !IsPrefix(q[1..], s[1..]);
        PushLeavesOthers(cs[j], s[1..], v, q[1..]);
        if Get(n.children, s[0]).None? {
          assert cs[j] == WithContents(s[0]);
          assert q[1..] != [];
          BlankHasNothing(cs[j], q[1..]);
        } else {
          assert cs == n.children;
        }
      } else {
        PushKeepsSiblings(n, s, v, q[0]);
      }
    }
  }

  /** A node's aggregate is the least value held anywhere below it: no node it
      reaches holds a smaller one (the aggregate of vocab-tree/src/node.rs:9, kept
      by `push` at lines 63-79). */
  lemma {:induction false} AggregateBoundsBelow(n: Node, p: seq<Key>)
    requires ValidTree(n) && p != [] && n.FindDescendent(p).Some?
    ensures n.minDescendent.Some?
    ensures n.minDescendent.value <= n.FindDescendent(p).value.minDescendent.value
    decreases |p|
  {
    var c :| c in n.children && c.contents == p[0] && n.FindDescendent(p) == c.FindDescendent(p[1..]);
    if p[1..] != [] {
      AggregateBoundsBelow(c, p[1..]);
    }
  }

  /** `find_descendent` of the empty address is the node itself
      (vocab-tree/src/node.rs:83-91). */
  lemma FindSelf(n: Node)
    requires ValidTree(n)
    ensures n.FindDescendent([]) == Some(n)
  {
  }

  /** `find_descendent` succeeds exactly when every step of the address names a
      child, one level at a time (vocab-tree/src/node.rs:83-91). */
  lemma {:induction false} FindDescendentSteps(n: Node, p: seq<Key>, k: Key)
    requires ValidTree(n)
    ensures n.FindDescendent(p + [k]).Some? <==>
      n.FindDescendent(p).Some? && exists i :: 0 <= i < |n.FindDescendent(p).value.children| && n.FindDescendent(p).value.children[i].contents == k
    decreases |p|
  {
    if p == [] {
      assert p + [k] == [k] && [k][1..] == [];
    } else {
      assert (p + [k])[0] == p[0] && (p + [k])[1..] == p[1..] + [k];
      match Get(n.children, p[0])
      case Some(c) => FindDescendentSteps(c, p[1..], k);
      case None =>
    }
  }
}
