/** The second generation of the word index: a recursive trie with insertion that
    reports the value it replaces, removal that prunes emptied children, exact and
    prefix search, and a fixed-length wildcard search. */
module VocabTrie {
  import opened Wrappers

  /** A trie node; `key` is `None` only at the root. */
  datatype TrieNode<K(==), V> = TrieNode(key: Option<K>, value: Option<V>, children: seq<TrieNode<K, V>>) {

    /** Store `v` under `k`; the second component is the value it replaces. A
        missing child is created, filled and then pushed last. */
    function Insert(k: seq<K>, v: V): (r: (TrieNode<K, V>, Option<V>))
      ensures r.0.key == key
      ensures k == [] ==> r.0.value.Some?
      ensures k != [] ==> r.0.value == value && |r.0.children| > 0
      decreases |k|
    {
      if k == [] then
        (this.(value := Some(v)), value)
      else
        match FindChild(children, k[0])
        case Some(i) =>
          var (child, prev) := children[i].Insert(k[1..], v);
          (this.(children := children[i := child]), prev)
        case None =>
          var (child, prev) := TrieNode(Some(k[0]), None, []).Insert(k[1..], v);
          (this.(children := children + [child]), prev)
    }

    /** Take the value stored under `k` out; a child left with no value and no
        children is removed from its parent's list. */
    function Remove(k: seq<K>): (r: (TrieNode<K, V>, Option<V>))
      ensures r.0.key == key
      ensures k != [] ==> r.0.value == value
      decreases |k|
    {
      if k == [] then
        (this.(value := None), value)
      else
        match FindChild(children, k[0])
        case None => (this, None)
        case Some(pos) =>
          var (child, removed) := children[pos].Remove(k[1..]);
          (this.(children := ReplaceChild(children, pos, child)), removed)
    }

    /** The descendant addressed by `q`, if every step exists; a node reached by a
        non-empty address carries the address's last key. */
    function Search(q: seq<K>): (r: Option<TrieNode<K, V>>)
      ensures q == [] ==> r == Some(this)
      ensures r.Some? && q != [] ==> r.value.key == Some(q[|q| - 1])
      decreases |q|
    {
      if q == [] then Some(this)
      else
        match FindChild(children, q[0])
        case Some(i) => children[i].Search(q[1..])
        case None => None
    }

    /** The value stored under `q`: `Trie::get` is search followed by the value. */
    function Lookup(q: seq<K>): (r: Option<V>)
    {
      match Search(q)
      case Some(m) => m.value
      case None => None
    }

    /** The descendants reached by following `q`, where `None` admits any child,
        in the order the flat-mapped iterators yield them. */
    function SearchPattern(q: seq<Option<K>>): (r: seq<TrieNode<K, V>>)
      ensures q == [] ==> r == [this]
      decreases |q|, 1
    {
      if q == [] then [this] else MatchChildren(q, 0)
    }

    /** The nodes `SearchPattern` yields below the children from position `j` on. */
    function MatchChildren(q: seq<Option<K>>, j: nat): (r: seq<TrieNode<K, V>>)
      requires q != [] && j <= |children|
      ensures j == |children| ==> r == []
      decreases |q|, 0, |children| - j
    {
      if j == |children| then []
      else
        (if Admits(q[0], children[j]) then children[j].SearchPattern(q[1..]) else [])
        + MatchChildren(q, j + 1)
    }

    /** The key paths of the nodes `SearchPattern` yields, in the same order. */
    ghost function PatternKeys(q: seq<Option<K>>): seq<seq<K>>
      decreases |q|, 1
    {
      if q == [] then [[]] else ChildrenKeys(q, 0)
    }

    ghost function ChildrenKeys(q: seq<Option<K>>, j: nat): seq<seq<K>>
      requires q != [] && j <= |children|
      decreases |q|, 0, |children| - j
    {
      if j == |children| then []
      else
        (if Admits(q[0], children[j]) && children[j].key.Some? then
           Prepend(children[j].key.value, children[j].PatternKeys(q[1..]))
         else [])
        + ChildrenKeys(q, j + 1)
    }
  }

  /** A pattern entry admits a child when it is a wildcard or names the child's key. */
  predicate Admits<K(==), V>(p: Option<K>, c: TrieNode<K, V>)
  {
    p.None? || c.key == p
  }

  function Prepend<K>(k: K, paths: seq<seq<K>>): (r: seq<seq<K>>)
    ensures |r| == |paths| && forall i :: 0 <= i < |paths| ==> r[i] == [k] + paths[i]
  {
    if paths == [] then [] else [[k] + paths[0]] + Prepend(k, paths[1..])
  }

  /** Index of the first child whose key is `k`. */
  function FindChild<K(==), V>(cs: seq<TrieNode<K, V>>, k: K): (r: Option<nat>)
    ensures r.Some? ==> r.value < |cs| && cs[r.value].key == Some(k)
    ensures r.Some? ==> forall j :: 0 <= j < r.value ==> cs[j].key != Some(k)
    ensures r.None? ==> forall j :: 0 <= j < |cs| ==> cs[j].key != Some(k)
  {
    if cs == [] then None
    else if cs[0].key == Some(k) then Some(0)
    else match FindChild(cs[1..], k)
      case None => None
      case Some(i) => Some(i + 1)
  }

  function EmptyRoot<K(==), V>(): TrieNode<K, V>
  {
    TrieNode(None, None, [])
  }

  /** The shape `insert` and `remove` keep: every child has a key, siblings have
      distinct keys, and every non-root node holds a value or has a child. */
  ghost predicate ValidNode<K, V>(n: TrieNode<K, V>)
  {
    && (forall i, j :: 0 <= i < j < |n.children| ==> n.children[i].key != n.children[j].key)
    && (forall i :: 0 <= i < |n.children| ==>
          && n.children[i].key.Some?
          && (n.children[i].value.Some? || |n.children[i].children| > 0)
          && ValidNode(n.children[i]))
  }

  // ---------------------------------------------------------------------------
  // The first-match scan after the three edits insert and remove make.

  lemma {:induction false} FindChildAppend<K, V>(cs: seq<TrieNode<K, V>>, x: TrieNode<K, V>, k: K)
    ensures FindChild(cs + [x], k) ==
      if FindChild(cs, k).Some? then FindChild(cs, k)
      else if x.key == Some(k) then Some(|cs|)
      else None
  {
    if cs != [] {
      assert (cs + [x])[0] == cs[0];
      assert (cs + [x])[1..] == cs[1..] + [x];
      FindChildAppend(cs[1..], x, k);
    }
  }

  lemma FindChildUpdate<K, V>(cs: seq<TrieNode<K, V>>, i: nat, x: TrieNode<K, V>, k: K)
    requires i < |cs| && x.key == cs[i].key
    ensures FindChild(cs[i := x], k) == FindChild(cs, k)
  {
    var ds := cs[i := x];
    assert forall j :: 0 <= j < |cs| ==> ds[j].key == cs[j].key;
    match FindChild(ds, k)
    case None =>
    case Some(m) =>
      var n := FindChild(cs, k).value;
      assert !(n < m) && !(m < n);
  }

  lemma FindChildRemoveAt<K, V>(cs: seq<TrieNode<K, V>>, pos: nat, k: K)
    requires pos < |cs| && cs[pos].key != Some(k)
    ensures var ds := cs[..pos] + cs[pos + 1..];
      match FindChild(cs, k)
      case None => FindChild(ds, k).None?
      case Some(i) => FindChild(ds, k) == Some(if i < pos then i else i - 1)
  {
    var ds := cs[..pos] + cs[pos + 1..];
    assert forall j :: 0 <= j < |ds| ==> ds[j] == if j < pos then cs[j] else cs[j + 1];
    if FindChild(cs, k).Some? {
      var i := FindChild(cs, k).value;
      assert ds[if i < pos then i else i - 1] == cs[i];
    }
  }

  lemma FindChildRemoveSelf<K, V>(cs: seq<TrieNode<K, V>>, pos: nat, k: K)
    requires pos < |cs| && cs[pos].key == Some(k)
    requires forall i, j :: 0 <= i < j < |cs| ==> cs[i].key != cs[j].key
    ensures FindChild(cs[..pos] + cs[pos + 1..], k).None?
  {
    var ds := cs[..pos] + cs[pos + 1..];
    assert forall j :: 0 <= j < |ds| ==> ds[j] == if j < pos then cs[j] else cs[j + 1];
  }

  /** In a valid node the first match for a child's own key is that child. */
  lemma FindChildOfValid<K, V>(n: TrieNode<K, V>, j: nat)
    requires ValidNode(n) && j < |n.children|
    ensures FindChild(n.children, n.children[j].key.value) == Some(j)
  {
    var k := n.children[j].key.value;
    var m := FindChild(n.children, k).value;
    assert !(m < j) && !(j < m);
  }

  lemma {:induction false} LookupOfBlank<K, V>(n: TrieNode<K, V>, q: seq<K>)
    requires n.value.None? && n.children == []
    ensures n.Lookup(q).None?
  {
  }

  // ---------------------------------------------------------------------------
  // Insertion.

  /** `insert` returns the value it replaces (vocab-tree/src/lib.rs:13-45). */
  lemma {:induction false} InsertReturns<K, V>(n: TrieNode<K, V>, k: seq<K>, v: V)
    ensures n.Insert(k, v).1 == n.Lookup(k)
    decreases |k|
  {
    if k != [] {
      LookupStep(n, k);
      match FindChild(n.children, k[0])
      case Some(i) =>
        InsertReturns(n.children[i], k[1..], v);
      case None =>
        var blank: TrieNode<K, V> := TrieNode(Some(k[0]), None, []);
        InsertReturns(blank, k[1..], v);
        LookupOfBlank(blank, k[1..]);
    }
  }

  /** `insert` stores the new value under its key and leaves every other key's
      value alone (vocab-tree/src/lib.rs:13-45). */
  lemma {:induction false} InsertEffect<K, V>(n: TrieNode<K, V>, k: seq<K>, v: V, q: seq<K>)
    ensures n.Insert(k, v).0.Lookup(q) == if q == k then Some(v) else n.Lookup(q)
    decreases |k|
  {
    var r := n.Insert(k, v).0;
    if k == [] {
      if q != [] {
        LookupStep(n, q);
        LookupStep(r, q);
      }
    } else if q != [] {
      assert q[0] == k[0] && q[1..] == k[1..] ==> q == k by {
        if q[0] == k[0] && q[1..] == k[1..] {
          assert q == [q[0]] + q[1..] && k == [k[0]] + k[1..];
        }
      }
      LookupStep(n, q);
      LookupStep(r, q);
      match FindChild(n.children, k[0])
      case Some(i) =>
        var child := n.children[i].Insert(k[1..], v).0;
        assert r.children == n.children[i := child];
        FindChildUpdate(n.children, i, child, q[0]);
        InsertEffect(n.children[i], k[1..], v, q[1..]);
      case None =>
        var blank: TrieNode<K, V> := TrieNode(Some(k[0]), None, []);
        var child := blank.Insert(k[1..], v).0;
        assert r.children == n.children + [child];
        FindChildAppend(n.children, child, q[0]);
        InsertEffect(blank, k[1..], v, q[1..]);
        LookupOfBlank(blank, q[1..]);
    }
  }

  /** `insert` keeps the trie valid: a child is created only when none has the key,
      and the node it fills is never left empty (vocab-tree/src/lib.rs:24-41). */
  lemma {:induction false} InsertKeepsValid<K, V>(n: TrieNode<K, V>, k: seq<K>, v: V)
    requires ValidNode(n)
    ensures ValidNode(n.Insert(k, v).0)
    decreases |k|
  {
    if k != [] {
      var cs := n.children;
      match FindChild(cs, k[0])
      case Some(i) =>
        InsertKeepsValid(cs[i], k[1..], v);
        var ds := cs[i := cs[i].Insert(k[1..], v).0];
        assert forall j :: 0 <= j < |cs| ==> ds[j].key == cs[j].key;
        assert forall j :: 0 <= j < |cs| && j != i ==> ds[j] == cs[j];
      case None =>
        var blank: TrieNode<K, V> := TrieNode(Some(k[0]), None, []);
        InsertKeepsValid(blank, k[1..], v);
        var ds := cs + [blank.Insert(k[1..], v).0];
        assert forall j :: 0 <= j < |cs| ==> ds[j] == cs[j];
    }
  }

  // ---------------------------------------------------------------------------
  // Removal.

  /** The list after the child at `pos` is replaced by `child`, or dropped when
      `child` holds no value and has no children. */
  function ReplaceChild<K, V>(cs: seq<TrieNode<K, V>>, pos: nat, child: TrieNode<K, V>): (r: seq<TrieNode<K, V>>)
    requires pos < |cs|
    ensures child.value.None? && child.children == [] ==> |r| == |cs| - 1
    ensures !(child.value.None? && child.children == []) ==> |r| == |cs| && r[pos] == child
  {
    if child.value.None? && child.children == [] then cs[..pos] + cs[pos + 1..]
    else cs[pos := child]
  }

  /** A lookup below a non-empty address goes through the child with its first key. */
  lemma LookupStep<K, V>(n: TrieNode<K, V>, q: seq<K>)
    requires q != []
    ensures n.Lookup(q) == match FindChild(n.children, q[0])
      case Some(i) => n.children[i].Lookup(q[1..])
      case None => None
  {
  }

  /** Children whose keys are pairwise distinct. */
  predicate DistinctKeys<K, V>(cs: seq<TrieNode<K, V>>)
  {
    forall i, j :: 0 <= i < j < |cs| ==> cs[i].key != cs[j].key
  }

  /** Dropping one child hides its key and no other. */
  lemma LookupPruned<K, V>(n: TrieNode<K, V>, pos: nat, q: seq<K>)
    requires DistinctKeys(n.children) && pos < |n.children| && q != []
    ensures n.(children := n.children[..pos] + n.children[pos + 1..]).Lookup(q)
      == if n.children[pos].key == Some(q[0]) then None else n.Lookup(q)
  {
    var cs := n.children;
    var ds := cs[..pos] + cs[pos + 1..];
    LookupStep(n.(children := ds), q);
    LookupStep(n, q);
    if cs[pos].key == Some(q[0]) {
      FindChildRemoveSelf(cs, pos, q[0]);
    } else {
      FindChildRemoveAt(cs, pos, q[0]);
      if FindChild(cs, q[0]).Some? {
        var i := FindChild(cs, q[0]).value;
        assert ds[if i < pos then i else i - 1] == cs[i];
      }
    }
  }

  /** Replacing one child by another with the same key changes lookups through that key only. */
  lemma LookupUpdated<K, V>(n: TrieNode<K, V>, pos: nat, child: TrieNode<K, V>, q: seq<K>)
    requires DistinctKeys(n.children) && pos < |n.children| && child.key == n.children[pos].key && q != []
    ensures n.(children := n.children[pos := child]).Lookup(q)
      == if n.children[pos].key == Some(q[0]) then child.Lookup(q[1..]) else n.Lookup(q)
  {
    var cs := n.children;
    LookupStep(n.(children := cs[pos := child]), q);
    LookupStep(n, q);
    FindChildUpdate(cs, pos, child, q[0]);
    if cs[pos].key == Some(q[0]) {
      var i := FindChild(cs, q[0]).value;
      assert !(i < pos) && !(pos < i);
    }
  }

  /** Replacing (or pruning) one child changes lookups through that child only. */
  lemma LookupReplaceChild<K, V>(n: TrieNode<K, V>, pos: nat, child: TrieNode<K, V>, q: seq<K>)
    requires DistinctKeys(n.children) && pos < |n.children| && child.key == n.children[pos].key && q != []
    ensures n.(children := ReplaceChild(n.children, pos, child)).Lookup(q)
      == if n.children[pos].key == Some(q[0]) then child.Lookup(q[1..]) else n.Lookup(q)
  {
    if child.value.None? && child.children == [] {
      LookupPruned(n, pos, q);
      LookupOfBlank(child, q[1..]);
    } else {
      LookupUpdated(n, pos, child, q);
    }
  }

  /** `remove` returns the value stored under its key (vocab-tree/src/lib.rs:48-71). */
  lemma {:induction false} RemoveReturns<K, V>(n: TrieNode<K, V>, k: seq<K>)
    ensures n.Remove(k).1 == n.Lookup(k)
    decreases |k|
  {
    if k != [] {
      LookupStep(n, k);
      match FindChild(n.children, k[0])
      case None =>
      case Some(pos) =>
        RemoveReturns(n.children[pos], k[1..]);
    }
  }

  /** `remove` leaves nothing under its key and every other key's value alone
      (vocab-tree/src/lib.rs:48-71). */
  lemma {:induction false} RemoveEffect<K, V>(n: TrieNode<K, V>, k: seq<K>, q: seq<K>)
    requires ValidNode(n)
    ensures n.Remove(k).0.Lookup(q) == if q == k then None else n.Lookup(q)
    decreases |k|
  {
    if k == [] {
      if q != [] {
        LookupStep(n, q);
        LookupStep(n.Remove(k).0, q);
      }
    } else if q == [] {
    } else {
      assert q[0] == k[0] && q[1..] == k[1..] ==> q == k by {
        if q[0] == k[0] && q[1..] == k[1..] {
          assert q == [q[0]] + q[1..] && k == [k[0]] + k[1..];
        }
      }
      var cs := n.children;
      match FindChild(cs, k[0])
      case None =>
        LookupStep(n, k);
      case Some(pos) =>
        var child := cs[pos].Remove(k[1..]).0;
        assert n.Remove(k).0 == n.(children := ReplaceChild(cs, pos, child));
        RemoveEffect(cs[pos], k[1..], q[1..]);
        LookupReplaceChild(n, pos, child, q);
        LookupStep(n, q);
    }
  }

  /** `remove` keeps the trie valid: a child it empties is pruned
      (vocab-tree/src/lib.rs:59-64). */
  lemma {:induction false} RemoveKeepsValid<K, V>(n: TrieNode<K, V>, k: seq<K>)
    requires ValidNode(n)
    ensures ValidNode(n.Remove(k).0)
    decreases |k|
  {
    if k != [] {
      var cs := n.children;
      match FindChild(cs, k[0])
      case None =>
      case Some(pos) =>
        var child := cs[pos].Remove(k[1..]).0;
        RemoveKeepsValid(cs[pos], k[1..]);
        assert n.Remove(k).0 == n.(children := ReplaceChild(cs, pos, child));
        if child.value.None? && child.children == [] {
          PruneKeepsValid(n, pos);
        } else {
          UpdateKeepsValid(n, pos, child);
        }
    }
  }

  lemma PruneKeepsValid<K, V>(n: TrieNode<K, V>, pos: nat)
    requires ValidNode(n) && pos < |n.children|
    ensures ValidNode(n.(children := n.children[..pos] + n.children[pos + 1..]))
  {
    var cs := n.children;
    var ds := cs[..pos] + cs[pos + 1..];
    assert forall j :: 0 <= j < |ds| ==> ds[j] == if j < pos then cs[j] else cs[j + 1];
    forall i, j | 0 <= i < j < |ds| ensures ds[i].key != ds[j].key {
      var i' := if i < pos then i else i + 1;
      var j' := if j < pos then j else j + 1;
      assert i' < j';
    }
  }

  lemma UpdateKeepsValid<K, V>(n: TrieNode<K, V>, pos: nat, child: TrieNode<K, V>)
    requires ValidNode(n) && pos < |n.children| && child.key == n.children[pos].key
    requires ValidNode(child) && (child.value.Some? || |child.children| > 0)
    ensures ValidNode(n.(children := n.children[pos := child]))
  {
    var cs := n.children;
    var ds := cs[pos := child];
    assert forall j :: 0 <= j < |cs| ==> ds[j].key == cs[j].key;
    assert forall j :: 0 <= j < |cs| && j != pos ==> ds[j] == cs[j];
  }

  // ---------------------------------------------------------------------------
  // Emptiness and prefixes.

  /** A stored key below a valid node that holds a value or has a child. */
  ghost function SomeKey<K, V>(n: TrieNode<K, V>): (r: seq<K>)
    requires ValidNode(n) && (n.value.Some? || |n.children| > 0)
    ensures n.Lookup(r).Some?
    decreases n
  {
    if n.value.Some? then []
    else
      var c := n.children[0];
      var rest := SomeKey(c);
      assert FindChild(n.children, c.key.value) == Some(0);
      assert ([c.key.value] + rest)[1..] == rest;
      [c.key.value] + rest
  }

  /** A valid root has no children exactly when no non-empty key holds a value;
      so removing every inserted key makes `is_empty` true
      (vocab-tree/src/lib.rs:138-140, 225-235). */
  lemma NoChildrenIffNoKeys<K, V>(n: TrieNode<K, V>)
    requires ValidNode(n)
    ensures n.children == [] <==> forall q :: q != [] ==> n.Lookup(q).None?
  {
    if n.children != [] {
      var c := n.children[0];
      var q := [c.key.value] + SomeKey(c);
      assert FindChild(n.children, c.key.value) == Some(0);
      assert q[1..] == SomeKey(c);
      assert q != [] && n.Lookup(q).Some?;
    }
  }

  lemma {:induction false} SearchAppend<K, V>(n: TrieNode<K, V>, p: seq<K>, s: seq<K>)
    ensures n.Search(p + s) == match n.Search(p) case Some(m) => m.Search(s) case None => None
    decreases |p|
  {
    if p != [] {
      assert (p + s)[0] == p[0] && (p + s)[1..] == p[1..] + s;
      match FindChild(n.children, p[0])
      case Some(i) =>
        SearchAppend(n.children[i], p[1..], s);
        assert n.Search(p + s) == n.children[i].Search(p[1..] + s);
        assert n.Search(p) == n.children[i].Search(p[1..]);
      case None =>
        assert n.Search(p + s).None?;
    } else {
      assert p + s == s;
    }
  }

  /** Search reaches a node at every beginning of a key that holds a value. */
  lemma {:induction false} SearchPrefix<K, V>(n: TrieNode<K, V>, p: seq<K>, s: seq<K>)
    requires n.Search(p + s).Some?
    ensures n.Search(p).Some?
  {
    SearchAppend(n, p, s);
  }

  /** Nodes the search reaches by a non-empty key in a valid trie hold a value
      or have a child. */
  lemma {:induction false} SearchReachesNonEmpty<K, V>(n: TrieNode<K, V>, q: seq<K>)
    requires ValidNode(n) && q != [] && n.Search(q).Some?
    ensures ValidNode(n.Search(q).value)
    ensures n.Search(q).value.value.Some? || |n.Search(q).value.children| > 0
    decreases |q|
  {
    var i := FindChild(n.children, q[0]).value;
    if q[1..] != [] {
      SearchReachesNonEmpty(n.children[i], q[1..]);
    }
  }

  /** `contains_prefix(q)` holds exactly when `q` is empty or begins some stored
      key (vocab-tree/src/lib.rs:75-90, 174-179). */
  lemma SearchFindsExactlyPrefixes<K, V>(n: TrieNode<K, V>, q: seq<K>)
    requires ValidNode(n)
    ensures n.Search(q).Some? <==> q == [] || exists k :: IsPrefix(q, k) && n.Lookup(k).Some?
  {
    if q != [] && n.Search(q).Some? {
      var m := n.Search(q).value;
      SearchReachesNonEmpty(n, q);
      var s := SomeKey(m);
      SearchAppend(n, q, s);
      assert IsPrefix(q, q + s);
    }
    if exists k :: IsPrefix(q, k) && n.Lookup(k).Some? {
      var k :| IsPrefix(q, k) && n.Lookup(k).Some?;
      assert k == q + k[|q|..];
      SearchPrefix(n, q, k[|q|..]);
    }
  }

  // ---------------------------------------------------------------------------
  // Wildcard search.

  /** `ks` fits the pattern: same length, and equal wherever the pattern names a key. */
  predicate Conforms<K(==)>(ks: seq<K>, q: seq<Option<K>>)
  {
    |ks| == |q| && forall i :: 0 <= i < |q| && q[i].Some? ==> ks[i] == q[i].value
  }

  lemma {:induction false} ConformsCons<K>(k: K, ks: seq<K>, q: seq<Option<K>>)
    requires q != []
    ensures Conforms([k] + ks, q) <==> (q[0].None? || q[0].value == k) && Conforms(ks, q[1..])
  {
    var full := [k] + ks;
    if Conforms(full, q) {
      assert forall i :: 0 <= i < |q| - 1 ==> full[i + 1] == ks[i] && q[1..][i] == q[i + 1];
    }
    if (q[0].None? || q[0].value == k) && Conforms(ks, q[1..]) {
      forall i | 0 <= i < |q| && q[i].Some? ensures full[i] == q[i].value {
        if i > 0 { assert full[i] == ks[i - 1] && q[1..][i - 1] == q[i]; }
      }
    }
  }

  /** Every node `search_pattern` yields is the one search reaches by a key
      that fits the pattern (vocab-tree/src/lib.rs:95-116). */
  /** Each key path leads from `n` to the node at the same position, and conforms to `q`. */
  ghost predicate Located<K, V>(n: TrieNode<K, V>, keys: seq<seq<K>>, nodes: seq<TrieNode<K, V>>, q: seq<Option<K>>)
  {
    |keys| == |nodes|
    && forall i :: 0 <= i < |nodes| ==> Conforms(keys[i], q) && n.Search(keys[i]) == Some(nodes[i])
  }

  lemma LocatedAppend<K, V>(n: TrieNode<K, V>, k1: seq<seq<K>>, n1: seq<TrieNode<K, V>>,
                            k2: seq<seq<K>>, n2: seq<TrieNode<K, V>>, q: seq<Option<K>>)
    requires Located(n, k1, n1, q) && Located(n, k2, n2, q)
    ensures Located(n, k1 + k2, n1 + n2, q)
  {
    forall i | 0 <= i < |n1 + n2|
      ensures Conforms((k1 + k2)[i], q) && n.Search((k1 + k2)[i]) == Some((n1 + n2)[i])
    {
      if i >= |n1| {
        assert (k1 + k2)[i] == k2[i - |n1|];
        assert (n1 + n2)[i] == n2[i - |n1|];
      } else {
        assert (k1 + k2)[i] == k1[i];
        assert (n1 + n2)[i] == n1[i];
      }
    }
  }

  /** What a child admitted by the pattern's first entry reaches, `n` reaches one key further. */
  lemma LocatedUnderChild<K, V>(n: TrieNode<K, V>, j: nat, q: seq<Option<K>>)
    requires ValidNode(n) && q != [] && j < |n.children| && Admits(q[0], n.children[j])
    requires Located(n.children[j], n.children[j].PatternKeys(q[1..]), n.children[j].SearchPattern(q[1..]), q[1..])
    ensures Located(n, Prepend(n.children[j].key.value, n.children[j].PatternKeys(q[1..])),
                    n.children[j].SearchPattern(q[1..]), q)
  {
    var c := n.children[j];
    var nodes := c.SearchPattern(q[1..]);
    var keys := Prepend(c.key.value, c.PatternKeys(q[1..]));
    FindChildOfValid(n, j);
    forall i | 0 <= i < |nodes|
      ensures Conforms(keys[i], q) && n.Search(keys[i]) == Some(nodes[i])
    {
      ConformsCons(c.key.value, c.PatternKeys(q[1..])[i], q);
      assert keys[i][0] == c.key.value && keys[i][1..] == c.PatternKeys(q[1..])[i];
    }
  }

  lemma {:induction false} SearchPatternSound<K, V>(n: TrieNode<K, V>, q: seq<Option<K>>)
    requires ValidNode(n)
    ensures Located(n, n.PatternKeys(q), n.SearchPattern(q), q)
    decreases |q|, 1
  {
    if q != [] {
      MatchChildrenSound(n, q, 0);
    }
  }

  lemma {:induction false} MatchChildrenSound<K, V>(n: TrieNode<K, V>, q: seq<Option<K>>, j: nat)
    requires ValidNode(n) && q != [] && j <= |n.children|
    ensures Located(n, n.ChildrenKeys(q, j), n.MatchChildren(q, j), q)
    decreases |q|, 0, |n.children| - j
  {
    if j < |n.children| {
      MatchChildrenSound(n, q, j + 1);
      var c := n.children[j];
      if Admits(q[0], c) {
        SearchPatternSound(c, q[1..]);
        LocatedUnderChild(n, j, q);
        var nodes := c.SearchPattern(q[1..]);
        var keys := Prepend(c.key.value, c.PatternKeys(q[1..]));
        assert n.MatchChildren(q, j) == nodes + n.MatchChildren(q, j + 1);
        assert n.ChildrenKeys(q, j) == keys + n.ChildrenKeys(q, j + 1);
        LocatedAppend(n, keys, nodes, n.ChildrenKeys(q, j + 1), n.MatchChildren(q, j + 1), q);
      } else {
        assert n.MatchChildren(q, j) == n.MatchChildren(q, j + 1);
        assert n.ChildrenKeys(q, j) == n.ChildrenKeys(q, j + 1);
      }
    }
  }


  /** Every node search reaches by a key that fits the pattern is yielded by
      `search_pattern` (vocab-tree/src/lib.rs:95-116). */
  lemma {:induction false} SearchPatternComplete<K, V>(n: TrieNode<K, V>, q: seq<Option<K>>, ks: seq<K>)
    requires ValidNode(n) && Conforms(ks, q) && n.Search(ks).Some?
    ensures exists i :: 0 <= i < |n.SearchPattern(q)| && n.SearchPattern(q)[i] == n.Search(ks).value
    decreases |q|, 1
  {
    if q == [] {
      assert n.SearchPattern(q)[0] == n;
    } else {
      var j := FindChild(n.children, ks[0]).value;
      ConformsCons(ks[0], ks[1..], q);
      assert ks == [ks[0]] + ks[1..];
      assert n.Search(ks) == n.children[j].Search(ks[1..]);
      MatchChildrenComplete(n, q, ks, 0, j);
      assert n.SearchPattern(q) == n.MatchChildren(q, 0);
    }
  }

  lemma {:induction false} MatchChildrenComplete<K, V>(n: TrieNode<K, V>, q: seq<Option<K>>, ks: seq<K>, j0: nat, j: nat)
    requires ValidNode(n) && q != [] && Conforms(ks, q) && j0 <= j < |n.children|
    requires n.children[j].key == Some(ks[0]) && n.children[j].Search(ks[1..]).Some?
    ensures exists i :: 0 <= i < |n.MatchChildren(q, j0)| && n.MatchChildren(q, j0)[i] == n.children[j].Search(ks[1..]).value
    decreases |q|, 0, |n.children| - j0
  {
    var c := n.children[j0];
    var here := if Admits(q[0], c) then c.SearchPattern(q[1..]) else [];
    assert n.MatchChildren(q, j0) == here + n.MatchChildren(q, j0 + 1);
    if j0 < j {
      MatchChildrenComplete(n, q, ks, j0 + 1, j);
      var i :| 0 <= i < |n.MatchChildren(q, j0 + 1)| && n.MatchChildren(q, j0 + 1)[i] == n.children[j].Search(ks[1..]).value;
      assert n.MatchChildren(q, j0)[|here| + i] == n.MatchChildren(q, j0 + 1)[i];
    } else {
      ConformsCons(ks[0], ks[1..], q);
      assert ks == [ks[0]] + ks[1..];
      assert Admits(q[0], c);
      SearchPatternComplete(c, q[1..], ks[1..]);
      var i :| 0 <= i < |here| && here[i] == c.Search(ks[1..]).value;
      assert n.MatchChildren(q, j0)[i] == here[i];
    }
  }

  // ---------------------------------------------------------------------------
  // `Trie<K, V>`: the owner of the root node.

  function MapGet<K(==), V>(m: map<seq<K>, V>, k: seq<K>): Option<V>
  {
    if k in m then Some(m[k]) else None
  }

  /** The map a list of pairs inserted in order leaves behind. */
  function Assoc<K(==), V>(pairs: seq<(seq<K>, V)>): map<seq<K>, V>
  {
    if pairs == [] then map[]
    else Assoc(pairs[..|pairs| - 1])[pairs[|pairs| - 1].0 := pairs[|pairs| - 1].1]
  }

  class Trie<K(==,!new), V> {
    var root: TrieNode<K, V>
    /** The key/value pairs the trie holds. */
    ghost var contents: map<seq<K>, V>

    ghost predicate Valid()
      reads this
    {
      && root.key.None?
      && ValidNode(root)
      && forall q :: root.Lookup(q) == MapGet(contents, q)
    }

    /** `Trie::empty` (vocab-tree/src/lib.rs:128-136). */
    constructor Empty()
      ensures Valid() && contents == map[]
    {
      root := EmptyRoot();
      contents := map[];
      new;
      forall q ensures root.Lookup(q) == MapGet(contents, q) {
        LookupOfBlank(root, q);
      }
    }

    /** `Trie::new`: insert every pair in order (vocab-tree/src/lib.rs:156-166). */
    constructor New(pairs: seq<(seq<K>, V)>)
      ensures Valid() && contents == Assoc(pairs)
    {
      root := EmptyRoot();
      contents := map[];
      new;
      forall q ensures root.Lookup(q) == MapGet(contents, q) {
        LookupOfBlank(root, q);
      }
      var i := 0;
      while i < |pairs|
        invariant 0 <= i <= |pairs|
        invariant Valid() && contents == Assoc(pairs[..i])
      {
        var _ := Insert(pairs[i].0, pairs[i].1);
        assert pairs[..i + 1][..i] == pairs[..i];
        i := i + 1;
      }
      assert pairs[..i] == pairs;
    }

    /** `Trie::is_empty`: the root has no children, which happens exactly when no
        non-empty key holds a value (a value under the empty key does not count). */
    function IsEmpty(): (r: bool)
      reads this
      requires Valid()
      ensures r <==> forall q :: q in contents ==> q == []
    {
      NoChildrenIffNoKeys(root);
      assert forall q :: q != [] ==> (root.Lookup(q).None? <==> q !in contents);
      root.children == []
    }

    /** `Trie::insert`: returns the value replaced (vocab-tree/src/lib.rs:143-149). */
    method Insert(key: seq<K>, value: V) returns (replaced: Option<V>)
      requires Valid()
      modifies this
      ensures Valid() && contents == old(contents)[key := value]
      ensures replaced == MapGet(old(contents), key)
    {
      var r := root.Insert(key, value);
      InsertKeepsValid(root, key, value);
      forall q ensures r.0.Lookup(q) == MapGet(contents[key := value], q) {
        InsertEffect(root, key, value, q);
      }
      InsertReturns(root, key, value);
      root, replaced := r.0, r.1;
      contents := contents[key := value];
    }

    /** `Trie::remove`: returns the value taken out (vocab-tree/src/lib.rs:152-154). */
    method Remove(key: seq<K>) returns (removed: Option<V>)
      requires Valid()
      modifies this
      ensures Valid() && contents == old(contents) - {key}
      ensures removed == MapGet(old(contents), key)
    {
      var r := root.Remove(key);
      RemoveKeepsValid(root, key);
      forall q ensures r.0.Lookup(q) == MapGet(contents - {key}, q) {
        RemoveEffect(root, key, q);
      }
      RemoveReturns(root, key);
      root, removed := r.0, r.1;
      contents := contents - {key};
    }

    /** `Trie::get` (vocab-tree/src/lib.rs:168-172). */
    function Get(query: seq<K>): (r: Option<V>)
      reads this
      requires Valid()
      ensures r == MapGet(contents, query)
    {
      root.Lookup(query)
    }

    /** `Trie::contains_prefix` (vocab-tree/src/lib.rs:174-179). */
    function ContainsPrefix(query: seq<K>): (r: bool)
      reads this
      requires Valid()
      ensures r <==> query == [] || exists k :: k in contents && IsPrefix(query, k)
    {
      SearchFindsExactlyPrefixes(root, query);
      assert forall k :: root.Lookup(k).Some? <==> k in contents;
      root.Search(query).Some?
    }
  }
}
