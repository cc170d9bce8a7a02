/** The word-cost index built on the sentinel-keyed trie: a word is stored as the
    path `Internal(c)` for each of its characters followed by `End`, and the `End`
    node's aggregate is the word's cost. */
module CostTrie {
  import opened Wrappers
  import opened SentinelNode

  /** The path that addresses a word (vocab-tree/src/trie.rs:32-38). */
  function MakeQuery(w: seq<char>): (r: seq<Key>)
    ensures |r| == |w| + 1 && r[|w|] == End
    ensures forall i :: 0 <= i < |w| ==> r[i] == Internal(w[i])
  {
    seq(|w|, i requires 0 <= i < |w| => Internal(w[i])) + [End]
  }

  /** No word's path begins another word's path, because `End` closes every path
      and never occurs inside one. */
  lemma MakeQueryPrefixFree(a: seq<char>, b: seq<char>)
    requires IsPrefix(MakeQuery(a), MakeQuery(b))
    ensures a == b
  {
    var qa, qb := MakeQuery(a), MakeQuery(b);
    assert |a| == |b|;
    forall i | 0 <= i < |a| ensures a[i] == b[i] {
      assert qa[i] == qb[i];
    }
  }

  /** The least cost recorded for `w`, or `None` when `w` was never pushed. */
  function LeastCost(pushes: seq<(seq<char>, nat)>, w: seq<char>): (r: Option<int>)
    ensures r.Some? <==> exists i :: 0 <= i < |pushes| && pushes[i].0 == w
    ensures r.Some? ==> exists i :: 0 <= i < |pushes| && pushes[i].0 == w && r.value == pushes[i].1
    ensures r.Some? ==> forall i :: 0 <= i < |pushes| && pushes[i].0 == w ==> r.value <= pushes[i].1
  {
    if pushes == [] then None
    else
      var before := pushes[..|pushes| - 1];
      var last := pushes[|pushes| - 1];
      var r := LeastCost(before, w);
      assert forall i :: 0 <= i < |before| ==> before[i] == pushes[i];
      if last.0 == w then Some(Join(r, last.1)) else r
  }

  /** The least cost of any push, or `None` when nothing was pushed. */
  function LeastOfAll(pushes: seq<(seq<char>, nat)>): (r: Option<int>)
    ensures r.None? <==> pushes == []
    ensures r.Some? ==> exists i :: 0 <= i < |pushes| && r.value == pushes[i].1
    ensures r.Some? ==> forall i :: 0 <= i < |pushes| ==> r.value <= pushes[i].1
  {
    if pushes == [] then None
    else
      var before := pushes[..|pushes| - 1];
      var r := LeastOfAll(before);
      assert forall i :: 0 <= i < |before| ==> before[i] == pushes[i];
      Some(Join(r, pushes[|pushes| - 1].1))
  }

  /** Words pushed once each keep their own costs (vocab-tree/src/trie.rs:62-70). */
  lemma DistinctWordsKeepCosts(pushes: seq<(seq<char>, nat)>, i: nat)
    requires i < |pushes|
    requires forall a, b :: 0 <= a < b < |pushes| ==> pushes[a].0 != pushes[b].0
    ensures LeastCost(pushes, pushes[i].0) == Some(pushes[i].1)
  {
    var r := LeastCost(pushes, pushes[i].0);
    var j :| 0 <= j < |pushes| && pushes[j].0 == pushes[i].0 && r.value == pushes[j].1;
    assert !(j < i) && !(i < j);
  }

  class Trie {
    var root: Node
    /** The (word, cost) pairs pushed so far, in order. */
    ghost var pushes: seq<(seq<char>, nat)>

    ghost predicate Valid()
      reads this
    {
      && ValidTree(root)
      && root.contents == Start
      && root.minDescendent == LeastOfAll(pushes)
      && forall w :: MinAt(root, MakeQuery(w)) == LeastCost(pushes, w)
    }

    /** `Trie::new` (vocab-tree/src/trie.rs:15-17). */
    constructor New()
      ensures Valid() && pushes == []
    {
      root := SentinelNode.New();
      pushes := [];
      new;
      forall w ensures MinAt(root, MakeQuery(w)) == LeastCost(pushes, w) {
        BlankHasNothing(root, MakeQuery(w));
      }
    }

    /** `Trie::push`: record `cost` for `word` (vocab-tree/src/trie.rs:19-21). */
    method Push(word: seq<char>, cost: nat)
      requires Valid()
      modifies this
      ensures Valid() && pushes == old(pushes) + [(word, cost)]
    {
      var q := MakeQuery(word);
      var next := root.Push(q, cost);
      var after := pushes + [(word, cost)];
      assert forall i :: 0 <= i < |pushes| ==> after[i] == pushes[i];
      assert after[..|after| - 1] == pushes;
      PushSetsMinAlongPath(root, q, cost, 0);
      assert q[..0] == [];
      PushSetsMinAlongPath(root, q, cost, |q|);
      assert q[..|q|] == q;
      forall w ensures MinAt(next, MakeQuery(w)) == LeastCost(after, w) {
        if w != word {
          if IsPrefix(MakeQuery(w), q) {
            MakeQueryPrefixFree(w, word);
          }
          PushLeavesOthers(root, q, cost, MakeQuery(w));
        }
      }
      root := next;
      pushes := after;
    }

    /** `Trie::cost`: the least cost pushed for `word`, `None` for a word never
        pushed, including a strict prefix or an extension of a stored word
        (vocab-tree/src/trie.rs:23-30). */
    function Cost(word: seq<char>): (r: Option<int>)
      reads this
      requires Valid()
      ensures r == LeastCost(pushes, word)
    {
      assert MinAt(root, MakeQuery(word)) == LeastCost(pushes, word);
      match root.FindDescendent(MakeQuery(word))
      case Some(n) => Some(n.Value().value)
      case None => None
    }
  }
}
