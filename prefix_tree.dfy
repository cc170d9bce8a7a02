/** The first generation of the word index: a recursive prefix tree whose lookups
    tell a stored key (`Value`) from a key that only leads somewhere (`Prefix`)
    and from a key that leads nowhere (`NotFound`). Children are kept in
    insertion order and found by a linear scan for the first match. */
module PrefixTree {
  import opened Wrappers

  /** The three-way answer of a lookup. */
  datatype QueryResult<V> = Value(value: V) | NotFound | Prefix

  /** A node owns its children; `component` is `None` only at the root. */
  datatype Node<K(==), V> = Node(component: Option<K>, value: Option<V>, children: seq<Node<K, V>>) {
    /** Follow `key` from this node, one component per level, and report what is there. */
    function Get(key: seq<K>): QueryResult<V>
      decreases |key|
    {
      if key == [] then
        (if value.Some? then Value(value.value) else Prefix)
      else
        match FindChild(children, key[0])
        case Some(i) => children[i].Get(key[1..])
        case None => NotFound
    }

    /** Store `v` under `key`: descend into the first matching child, or create a
        fresh child (pushed last) when none matches, and put the value at the end. */
    function Set(key: seq<K>, v: V): (r: Node<K, V>)
      ensures r.component == component
      ensures key != [] ==> r.value == value
      decreases |key|
    {
      if key == [] then
        this.(value := Some(v))
      else
        match FindChild(children, key[0])
        case None =>
          this.(children := children + [NewNode(Some(key[0]), None).Set(key[1..], v)])
        case Some(i) =>
          this.(children := children[i := children[i].Set(key[1..], v)])
    }
  }

  function NewNode<K(==), V>(component: Option<K>, value: Option<V>): Node<K, V>
  {
    Node(component, value, [])
  }

  /** The root of an empty tree: no component, no value, no children. */
  function EmptyRoot<K(==), V>(): Node<K, V>
  {
    NewNode(None, None)
  }

  /** Index of the first child whose component is `c`. */
  function FindChild<K(==), V>(cs: seq<Node<K, V>>, c: K): (r: Option<nat>)
    ensures r.Some? ==> r.value < |cs| && cs[r.value].component == Some(c)
    ensures r.Some? ==> forall j :: 0 <= j < r.value ==> cs[j].component != Some(c)
    ensures r.None? ==> forall j :: 0 <= j < |cs| ==> cs[j].component != Some(c)
  {
    if cs == [] then None
    else if cs[0].component == Some(c) then Some(0)
    else match FindChild(cs[1..], c)
      case None => None
      case Some(i) => Some(i + 1)
  }

  // ---------------------------------------------------------------------------
  // How the first-match scan sees a child list after the two edits `Set` makes.

  lemma {:induction false} FindChildAppend<K, V>(cs: seq<Node<K, V>>, x: Node<K, V>, c: K)
    ensures FindChild(cs + [x], c) ==
      if FindChild(cs, c).Some? then FindChild(cs, c)
      else if x.component == Some(c) then Some(|cs|)
      else None
  {
    if cs != [] {
      assert (cs + [x])[0] == cs[0];
      assert (cs + [x])[1..] == cs[1..] + [x];
      FindChildAppend(cs[1..], x, c);
    }
  }

  lemma FindChildUpdate<K, V>(cs: seq<Node<K, V>>, i: nat, x: Node<K, V>, c: K)
    requires i < |cs| && x.component == cs[i].component
    ensures FindChild(cs[i := x], c) == FindChild(cs, c)
  {
    var ds := cs[i := x];
    assert forall j :: 0 <= j < |cs| ==> ds[j].component == cs[j].component;
    match FindChild(ds, c)
    case None =>
    case Some(m) =>
      var k := FindChild(cs, c).value;
      assert !(k < m) && !(m < k);
  }

  /** Lookups in a node with no value and no children. */
  lemma GetNewNode<K, V>(c: Option<K>, q: seq<K>)
    ensures NewNode<K, V>(c, None).Get(q) == if q == [] then Prefix else NotFound
  {
  }

  // ---------------------------------------------------------------------------
  // The effect of one `set` on every lookup.

  /** After `set(key, v)`: `key` itself holds `v`; a proper prefix of `key` keeps
      its value if it had one and is otherwise a `Prefix`; every other lookup is
      unchanged (prefix-tree/src/lib.rs:53-113). */
  lemma {:induction false} SetGetEffect<K, V>(n: Node<K, V>, key: seq<K>, v: V, q: seq<K>)
    ensures (n.Set(key, v)).Get(q) ==
      if q == key then Value(v)
      else if IsPrefix(q, key) then (if n.Get(q).Value? then n.Get(q) else Prefix)
      else n.Get(q)
    decreases |key|
  {
    var r := n.Set(key, v);
    if key == [] {
      if q != [] {
        assert r.children == n.children;
      }
    } else if q == [] {
      assert IsPrefix(q, key);
    } else {
      assert q[0] == key[0] && q[1..] == key[1..] ==> q == key by {
        if q[0] == key[0] && q[1..] == key[1..] {
          assert q == [q[0]] + q[1..] && key == [key[0]] + key[1..];
        }
      }
      assert q[0] == key[0] ==> (IsPrefix(q, key) <==> IsPrefix(q[1..], key[1..]));
      assert q[0] != key[0] ==> q != key && !IsPrefix(q, key);
      match FindChild(n.children, key[0])
      case None =>
        var blank := NewNode<K, V>(Some(key[0]), None);
        var child := blank.Set(key[1..], v);
        FindChildAppend(n.children, child, q[0]);
        if q[0] == key[0] {
          SetGetEffect(blank, key[1..], v, q[1..]);
          GetNewNode<K, V>(Some(key[0]), q[1..]);
        }
      case Some(i) =>
        var child := n.children[i].Set(key[1..], v);
        FindChildUpdate(n.children, i, child, q[0]);
        if q[0] == key[0] {
          SetGetEffect(n.children[i], key[1..], v, q[1..]);
        }
    }
  }

  /** The round trip: after `set(key, v)`, `get(key)` is `Value(v)`
      (prefix-tree/src/lib.rs:153-155). */
  lemma SetThenGet<K, V>(n: Node<K, V>, key: seq<K>, v: V)
    ensures (n.Set(key, v)).Get(key) == Value(v)
  {
    SetGetEffect(n, key, v, key);
  }

  // ---------------------------------------------------------------------------
  // Shape: sibling components are distinct, and `set` adds no node on a known path.

  /** Sibling components are pairwise distinct and every non-root node has one. */
  ghost predicate Valid<K, V>(n: Node<K, V>)
  {
    && (forall i, j :: 0 <= i < j < |n.children| ==> n.children[i].component != n.children[j].component)
    && (forall i :: 0 <= i < |n.children| ==> n.children[i].component.Some? && Valid(n.children[i]))
  }

  /** `set` keeps sibling components distinct: a child is created only when no
      existing child matches (prefix-tree/src/lib.rs:64-80). */
  lemma {:induction false} SetKeepsValid<K, V>(n: Node<K, V>, key: seq<K>, v: V)
    requires Valid(n)
    ensures Valid(n.Set(key, v))
    decreases |key|
  {
    if key != [] {
      var cs := n.children;
      match FindChild(cs, key[0])
      case None =>
        var child := NewNode<K, V>(Some(key[0]), None).Set(key[1..], v);
        SetKeepsValid(NewNode<K, V>(Some(key[0]), None), key[1..], v);
        var ds := cs + [child];
        assert forall j :: 0 <= j < |cs| ==> ds[j] == cs[j];
      case Some(i) =>
        SetKeepsValid(cs[i], key[1..], v);
        var ds := cs[i := cs[i].Set(key[1..], v)];
        assert forall j :: 0 <= j < |cs| ==> ds[j].component == cs[j].component;
        assert forall j :: 0 <= j < |cs| && j != i ==> ds[j] == cs[j];
    }
  }

  function Size<K(==), V>(n: Node<K, V>): nat
  {
    1 + SizeOfAll(n.children)
  }

  function SizeOfAll<K(==), V>(cs: seq<Node<K, V>>): nat
  {
    if cs == [] then 0 else SizeOfAll(cs[..|cs| - 1]) + Size(cs[|cs| - 1])
  }

  lemma {:induction false} SizeOfAllUpdate<K, V>(cs: seq<Node<K, V>>, i: nat, x: Node<K, V>)
    requires i < |cs|
    ensures SizeOfAll(cs[i := x]) + Size(cs[i]) == SizeOfAll(cs) + Size(x)
  {
    var ds := cs[i := x];
    if i < |cs| - 1 {
      assert ds[..|ds| - 1] == cs[..|cs| - 1][i := x];
      SizeOfAllUpdate(cs[..|cs| - 1], i, x);
    } else {
      assert ds[..|ds| - 1] == cs[..|cs| - 1];
    }
  }

  /** `set` on a key whose path already exists (the lookup is not `NotFound`)
      overwrites in place and adds no node (prefix-tree/src/lib.rs:58-61, 73-79). */
  lemma {:induction false} SetOnKnownPathAddsNoNode<K, V>(n: Node<K, V>, key: seq<K>, v: V)
    requires n.Get(key) != NotFound
    ensures Size(n.Set(key, v)) == Size(n)
    decreases |key|
  {
    if key != [] {
      var i := FindChild(n.children, key[0]).value;
      SetOnKnownPathAddsNoNode(n.children[i], key[1..], v);
      SizeOfAllUpdate(n.children, i, n.children[i].Set(key[1..], v));
    }
  }

  // ---------------------------------------------------------------------------
  // What a tree built by a sequence of `set`s answers.

  /** The tree obtained from `n` by setting each entry in turn. */
  function SetAll<K(==), V>(n: Node<K, V>, entries: seq<(seq<K>, V)>): Node<K, V>
  {
    if entries == [] then n
    else
      var last := entries[|entries| - 1];
      (SetAll(n, entries[..|entries| - 1])).Set(last.0, last.1)
  }

  /** The value last stored under `key`, if any. */
  ghost function Stored<K, V>(entries: seq<(seq<K>, V)>, key: seq<K>): Option<V>
  {
    if entries == [] then None
    else if entries[|entries| - 1].0 == key then Some(entries[|entries| - 1].1)
    else Stored(entries[..|entries| - 1], key)
  }

  /** Some stored key starts with `key`. */
  ghost predicate Extended<K, V>(entries: seq<(seq<K>, V)>, key: seq<K>)
  {
    exists i :: 0 <= i < |entries| && IsPrefix(key, entries[i].0)
  }

  /** The answer the source promises for a tree built from `entries`. */
  ghost function Expected<K, V>(entries: seq<(seq<K>, V)>, key: seq<K>): QueryResult<V>
  {
    if Stored(entries, key).Some? then Value(Stored(entries, key).value)
    else if key == [] || Extended(entries, key) then Prefix
    else NotFound
  }

  /** A tree built from `entries` answers `Value` for a stored key (with its last
      value), `Prefix` for the empty key and for every other beginning of a
      stored key, and `NotFound` for a key that diverges from or extends past
      every stored key (prefix-tree/src/lib.rs:89-110, 153-158). */
  lemma {:induction false} GetAfterSets<K, V>(entries: seq<(seq<K>, V)>, key: seq<K>)
    ensures (SetAll(EmptyRoot(), entries)).Get(key) == Expected(entries, key)
  {
    if entries == [] {
      GetNewNode<K, V>(None, key);
    } else {
      var pre := entries[..|entries| - 1];
      var last := entries[|entries| - 1];
      GetAfterSets(pre, key);
      SetGetEffect(SetAll(EmptyRoot(), pre), last.0, last.1, key);
      if !IsPrefix(key, last.0) && Extended(entries, key) {
        var i :| 0 <= i < |entries| && IsPrefix(key, entries[i].0);
        assert i < |pre| && pre[i] == entries[i];
      }
      if Extended(pre, key) {
        var i :| 0 <= i < |pre| && IsPrefix(key, pre[i].0);
        assert entries[i] == pre[i];
      }
      if IsPrefix(key, last.0) {
        assert IsPrefix(key, entries[|entries| - 1].0);
      }
    }
  }

  lemma {:induction false} SetAllKeepsValid<K, V>(entries: seq<(seq<K>, V)>)
    ensures Valid(SetAll(EmptyRoot<K, V>(), entries))
  {
    if entries != [] {
      var last := entries[|entries| - 1];
      SetAllKeepsValid<K, V>(entries[..|entries| - 1]);
      SetKeepsValid(SetAll(EmptyRoot<K, V>(), entries[..|entries| - 1]), last.0, last.1);
    }
  }

  // ---------------------------------------------------------------------------
  // `PrefixTree<K, V>`: the owner of the root node.

  class Tree<K(==), V> {
    var root: Node<K, V>
    /** Every `set` so far, oldest first. */
    ghost var entries: seq<(seq<K>, V)>

    ghost predicate Valid()
      reads this
    {
      root == SetAll(EmptyRoot(), entries)
    }

    /** `PrefixTree::empty` (prefix-tree/src/lib.rs:15-17). */
    constructor Empty()
      ensures Valid() && entries == []
    {
      root := EmptyRoot();
      entries := [];
    }

    /** `PrefixTree::set` (prefix-tree/src/lib.rs:26-31). */
    method Set(key: seq<K>, value: V)
      requires Valid()
      modifies this
      ensures Valid() && entries == old(entries) + [(key, value)]
      ensures Get(key) == Value(value)
    {
      root := root.Set(key, value);
      entries := entries + [(key, value)];
      assert entries[..|entries| - 1] == old(entries);
      SetThenGet(old(root), key, value);
    }

    /** `PrefixTree::get` (prefix-tree/src/lib.rs:19-24). */
    function Get(key: seq<K>): (r: QueryResult<V>)
      reads this
      requires Valid()
      ensures r == Expected(entries, key)
    {
      GetAfterSets(entries, key);
      root.Get(key)
    }
  }

  // ---------------------------------------------------------------------------
  // `StringPrefixTree`: a set of strings on top of the tree.

  function Unit(words: seq<string>): (r: seq<(string, ())>)
    ensures |r| == |words| && forall i :: 0 <= i < |words| ==> r[i] == (words[i], ())
  {
    if words == [] then [] else Unit(words[..|words| - 1]) + [(words[|words| - 1], ())]
  }

  lemma {:induction false} StoredUnit(words: seq<string>, key: string)
    ensures Stored(Unit(words), key).Some? <==> key in words
  {
    if words != [] {
      var pre := words[..|words| - 1];
      assert Unit(words)[..|words| - 1] == Unit(pre);
      StoredUnit(pre, key);
      assert key in words <==> key in pre || key == words[|words| - 1] by {
        assert words == pre + [words[|words| - 1]];
      }
    }
  }

  lemma ExtendedUnit(words: seq<string>, key: string)
    ensures Extended(Unit(words), key) <==> exists w :: w in words && IsPrefix(key, w)
  {
    var es := Unit(words);
    if Extended(es, key) {
      var i :| 0 <= i < |es| && IsPrefix(key, es[i].0);
      assert words[i] in words;
    }
    if exists w :: w in words && IsPrefix(key, w) {
      var w :| w in words && IsPrefix(key, w);
      var i :| 0 <= i < |words| && words[i] == w;
      assert IsPrefix(key, es[i].0);
    }
  }

  class StringTree {
    var root: Node<char, ()>
    /** Every string added so far, oldest first. */
    ghost var words: seq<string>

    ghost predicate Valid()
      reads this
    {
      root == SetAll(EmptyRoot(), Unit(words))
    }

    /** `StringPrefixTree::empty` (prefix-tree/src/lib.rs:119-121). */
    constructor Empty()
      ensures Valid() && words == []
    {
      root := EmptyRoot();
      words := [];
    }

    /** `StringPrefixTree::add` (prefix-tree/src/lib.rs:137-139). */
    method Add(key: string)
      requires Valid()
      modifies this
      ensures Valid() && words == old(words) + [key]
    {
      root := root.Set(key, ());
      words := words + [key];
      assert Unit(words)[..|words| - 1] == Unit(old(words));
    }

    /** `contains` holds exactly for the added strings; in particular `""` is
        not contained until it is added (prefix-tree/src/lib.rs:123-128, 168-174). */
    function Contains(key: string): (r: bool)
      reads this
      requires Valid()
      ensures r <==> key in words
    {
      GetAfterSets(Unit(words), key);
      StoredUnit(words, key);
      match root.Get(key)
      case Value(_) => true
      case _ => false
    }

    /** `contains_prefix` holds exactly for the beginnings of added strings,
        and always for `""` (prefix-tree/src/lib.rs:130-135, 176-184). */
    function ContainsPrefix(key: string): (r: bool)
      reads this
      requires Valid()
      ensures r <==> key == [] || exists w :: w in words && IsPrefix(key, w)
    {
      GetAfterSets(Unit(words), key);
      StoredUnit(words, key);
      ExtendedUnit(words, key);
      assert key in words ==> IsPrefix(key, key);
      match root.Get(key)
      case NotFound => false
      case _ => true
    }
  }
}
