/** The crossword vocabulary: a map from every partial word (each letter of a
    word either kept or blanked to the empty square) to the words it matches,
    in input order with duplicates kept. */
module PartialWordIndex {
  import opened Wrappers
  import opened Squares
  import opened Words

  /** The squares spelling a word of uppercase letters; each is what converting
      its byte gives (see `Words.FromBytesGivesSquares`). */
  function SquaresOf(w: Word): (r: seq<Square>)
    requires ValidWord(w)
    ensures |r| == |w.chars|
    ensures forall i :: 0 <= i < |r| ==> FromByte(w.chars[i]) == Ok(r[i]) && !IsEmpty(r[i])
  {
    seq(|w.chars|, i requires 0 <= i < |w.chars| => Square(w.chars[i]))
  }

  /** Puts `x` in front of every sequence of `ps`. */
  function Prefixed(x: Square, ps: seq<seq<Square>>): (r: seq<seq<Square>>)
    ensures |r| == |ps| && forall i :: 0 <= i < |ps| ==> r[i] == [x] + ps[i]
  {
    seq(|ps|, i requires 0 <= i < |ps| => [x] + ps[i])
  }

  /** The product of `[s, EMPTY]` over the squares of `s`, in lexicographic
      order with the first position varying slowest: every square kept comes
      before the same square blanked. */
  function Partials(s: seq<Square>): seq<seq<Square>>
  {
    if |s| == 0 then [[]]
    else Prefixed(s[0], Partials(s[1..])) + Prefixed(Empty, Partials(s[1..]))
  }

  /** `q` is `s` with some squares blanked. */
  predicate IsPartialOf(q: seq<Square>, s: seq<Square>)
  {
    |q| == |s| && forall i :: 0 <= i < |q| ==> q[i] == s[i] || IsEmpty(q[i])
  }

  function Pow2(n: nat): (r: nat)
    ensures r >= 1
  {
    if n == 0 then 1 else 2 * Pow2(n - 1)
  }

  /** A word of `n` squares has 2^n partials. */
  lemma {:induction false} PartialsCount(s: seq<Square>)
    ensures |Partials(s)| == Pow2(|s|)
  {
    if |s| > 0 {
      PartialsCount(s[1..]);
    }
  }

  /** Every partial of `s` is `s` with some squares blanked. */
  lemma {:induction false} PartialsSound(s: seq<Square>, q: seq<Square>)
    requires q in Partials(s)
    ensures IsPartialOf(q, s)
  {
    if |s| > 0 {
      var rest := Partials(s[1..]);
      var k :| 0 <= k < |Partials(s)| && Partials(s)[k] == q;
      var t := if k < |rest| then rest[k] else rest[k - |rest|];
      assert t in rest;
      assert q == [q[0]] + t;
      PartialsSound(s[1..], t);
      assert forall i :: 1 <= i < |q| ==> q[i] == t[i - 1];
    }
  }

  /** Every way of blanking squares of `s` is among its partials; `k` is
      where. */
  lemma {:induction false} PartialsComplete(s: seq<Square>, q: seq<Square>) returns (k: nat)
    requires IsPartialOf(q, s)
    ensures k < |Partials(s)| && Partials(s)[k] == q
  {
    if |s| == 0 {
      assert q == [];
      k := 0;
    } else {
      var rest := Partials(s[1..]);
      assert IsPartialOf(q[1..], s[1..]);
      var k' := PartialsComplete(s[1..], q[1..]);
      assert q == [q[0]] + q[1..];
      if q[0] == s[0] {
        k := k';
      } else {
        k := |rest| + k';
      }
    }
  }

  /** The partials of `s` are exactly the sequences that are `s` with some
      squares blanked. */
  lemma PartialsExactly(s: seq<Square>, q: seq<Square>)
    ensures q in Partials(s) <==> IsPartialOf(q, s)
  {
    if q in Partials(s) {
      PartialsSound(s, q);
    }
    if IsPartialOf(q, s) {
      var _ := PartialsComplete(s, q);
    }
  }

  /** No sequence occurs twice. */
  predicate Distinct<T(==)>(xs: seq<T>)
  {
    forall i, j :: 0 <= i < j < |xs| ==> xs[i] != xs[j]
  }

  /** When no square of `s` is empty, its partials are pairwise distinct. */
  lemma {:induction false} PartialsDistinct(s: seq<Square>)
    requires forall i :: 0 <= i < |s| ==> !IsEmpty(s[i])
    ensures Distinct(Partials(s))
  {
    if |s| > 0 {
      var rest := Partials(s[1..]);
      PartialsDistinct(s[1..]);
      var ps := Partials(s);
      forall i, j | 0 <= i < j < |ps| ensures ps[i] != ps[j] {
        if j < |rest| || |rest| <= i {
          var i', j' := if j < |rest| then i else i - |rest|, if j < |rest| then j else j - |rest|;
          assert ps[i][1..] == rest[i'] && ps[j][1..] == rest[j'];
        } else {
          assert ps[i][0] == s[0] && ps[j][0] == Empty;
        }
      }
    }
  }

  /** The vocabulary: partial word to matching words. */
  datatype Vocab = Vocab(index: map<seq<Square>, seq<Word>>)

  /** The list a map holds for a key, empty when the key is absent. */
  function Lookup(m: map<seq<Square>, seq<Word>>, q: seq<Square>): seq<Word>
  {
    if q in m then m[q] else []
  }

  /** `Vocab::matches`: the words stored for a partial word, or none when it
      was never built (crossword/src/vocab.rs:57-65). */
  function Matches(v: Vocab, q: seq<Square>): (r: seq<Word>)
    ensures q !in v.index ==> r == []
  {
    Lookup(v.index, q)
  }

  /** Appends `w` to the list of `q`, creating the list first if absent. */
  function Push(m: map<seq<Square>, seq<Word>>, q: seq<Square>, w: Word): map<seq<Square>, seq<Word>>
  {
    m[q := Lookup(m, q) + [w]]
  }

  /** Appends `w` to the list of every partial in `ps`, in order. */
  function PushAll(m: map<seq<Square>, seq<Word>>, ps: seq<seq<Square>>, w: Word): map<seq<Square>, seq<Word>>
  {
    if |ps| == 0 then m else Push(PushAll(m, ps[..|ps| - 1], w), ps[|ps| - 1], w)
  }

  /** The words of the first `n` strings that convert, in order; the others are
      silently dropped. */
  function Converted(list: seq<seq<byte>>, n: nat): seq<Word>
    requires n <= |list|
  {
    if n == 0 then []
    else
      match FromBytes(list[n - 1])
      case Ok(w) => Converted(list, n - 1) + [w]
      case Err(_) => Converted(list, n - 1)
  }

  /** Every converted word is valid, and a string is kept exactly when it
      converts. */
  lemma {:induction false} ConvertedWords(list: seq<seq<byte>>, n: nat, w: Word)
    requires n <= |list|
    ensures w in Converted(list, n) <==> exists i :: 0 <= i < n && FromBytes(list[i]) == Ok(w)
    ensures w in Converted(list, n) ==> ValidWord(w)
  {
    if n > 0 {
      ConvertedWords(list, n - 1, w);
      if FromBytes(list[n - 1]).Ok? {
        FromBytesGivesSquares(list[n - 1]);
      }
    }
  }

  /** `Vocab::new` unwraps the conversion of every byte of a kept word to a
      square (crossword/src/vocab.rs:41); it returns only when every string the
      written check keeps is made of letters. */
  predicate KeptAreLetters(list: seq<seq<byte>>)
  {
    forall i :: 0 <= i < |list| ==> FromBytesAsWritten(list[i]).Ok? ==> FromBytes(list[i]).Ok?
  }

  /** A list that breaks that condition holds a string the written check keeps
      and one of whose bytes is no square: the unwrap panics on it. */
  lemma PanicsOtherwise(list: seq<seq<byte>>) returns (i: nat, j: nat)
    requires !KeptAreLetters(list)
    ensures i < |list| && FromBytesAsWritten(list[i]).Ok?
    ensures j < |FromBytesAsWritten(list[i]).value.chars|
    ensures FromByte(FromBytesAsWritten(list[i]).value.chars[j]).Err?
  {
    i :| 0 <= i < |list| && FromBytesAsWritten(list[i]).Ok? && !FromBytes(list[i]).Ok?;
    j :| 0 <= j < |list[i]| && !IsAsciiUppercase(ToUpper(list[i][j]));
    assert FromBytesAsWritten(list[i]).value.chars[j] == ToUpper(list[i][j]);
  }

  /** On a list that does not panic, the written conversion and the corrected
      one agree on every string, so the words kept are exactly those the
      written check accepts. */
  lemma {:induction false} ConvertedAsWritten(list: seq<seq<byte>>, n: nat, w: Word)
    requires KeptAreLetters(list) && n <= |list|
    ensures forall i :: 0 <= i < |list| ==> FromBytesAsWritten(list[i]) == FromBytes(list[i])
    ensures w in Converted(list, n) <==> exists i :: 0 <= i < n && FromBytesAsWritten(list[i]) == Ok(w)
  {
    forall i | 0 <= i < |list| ensures FromBytesAsWritten(list[i]) == FromBytes(list[i]) {
      if FromBytes(list[i]).Ok? {
        WrittenAcceptsMore(list[i]);
      }
    }
    ConvertedWords(list, n, w);
  }

  /** The index built from the first `n` strings of the list. */
  function IndexOf(list: seq<seq<byte>>, n: nat): map<seq<Square>, seq<Word>>
    requires n <= |list|
  {
    if n == 0 then map[]
    else
      match FromBytes(list[n - 1])
      case Ok(w) =>
        FromBytesGivesSquares(list[n - 1]);
        PushAll(IndexOf(list, n - 1), Partials(SquaresOf(w)), w)
      case Err(_) => IndexOf(list, n - 1)
  }

  /** One more string either adds its word at the end of the converted words or nothing. */
  lemma ConvertedNext(list: seq<seq<byte>>, i: nat)
    requires i < |list|
    ensures FromBytes(list[i]).Ok? ==> Converted(list, i + 1) == Converted(list, i) + [FromBytes(list[i]).value]
    ensures FromBytes(list[i]).Err? ==> Converted(list, i + 1) == Converted(list, i)
  {
  }

  /** One more string either adds its word under each of its partials or nothing. */
  lemma IndexOfNext(list: seq<seq<byte>>, i: nat)
    requires i < |list|
    ensures FromBytes(list[i]).Ok? ==> ValidWord(FromBytes(list[i]).value)
    ensures FromBytes(list[i]).Ok? ==>
              IndexOf(list, i + 1) == PushAll(IndexOf(list, i), Partials(SquaresOf(FromBytes(list[i]).value)), FromBytes(list[i]).value)
    ensures FromBytes(list[i]).Err? ==> IndexOf(list, i + 1) == IndexOf(list, i)
  {
    if FromBytes(list[i]).Ok? {
      FromBytesGivesSquares(list[i]);
    }
  }

  lemma PushAllNext(m: map<seq<Square>, seq<Word>>, ps: seq<seq<Square>>, k: nat, w: Word)
    requires k < |ps|
    ensures PushAll(m, ps[..k + 1], w) == Push(PushAll(m, ps[..k], w), ps[k], w)
  {
    assert ps[..k + 1][..k] == ps[..k];
  }

  /** `Vocab::new`: converts each string, dropping those that fail, and
      appends every converted word to the list of each of its partials
      (crossword/src/vocab.rs:23-55). */
  method New(list: seq<seq<byte>>) returns (v: Vocab)
    requires KeptAreLetters(list)
    ensures v.index == IndexOf(list, |list|)
  {
    var m: map<seq<Square>, seq<Word>> := map[];
    var i := 0;
    while i < |list|
      invariant i <= |list|
      invariant m == IndexOf(list, i)
    {
      var conv := FromBytes(list[i]);
      IndexOfNext(list, i);
      if conv.Ok? {
        m := AddWord(m, conv.value);
      }
      i := i + 1;
    }
    v := Vocab(m);
  }

  /** The inner loop of `Vocab::new`: appends `w` to the list of each of its
      partials, creating the lists that are missing (crossword/src/vocab.rs:33-51). */
  method AddWord(m0: map<seq<Square>, seq<Word>>, w: Word) returns (m: map<seq<Square>, seq<Word>>)
    requires ValidWord(w)
    ensures m == PushAll(m0, Partials(SquaresOf(w)), w)
  {
    m := m0;
    var ps := Partials(SquaresOf(w));
    var k := 0;
    while k < |ps|
      invariant k <= |ps|
      invariant m == PushAll(m0, ps[..k], w)
    {
      PushAllNext(m0, ps, k, w);
      if ps[k] !in m {
        m := m[ps[k] := []];
      }
      m := m[ps[k] := m[ps[k]] + [w]];
      k := k + 1;
    }
    assert ps[..|ps|] == ps;
  }


  /** The reference meaning of a lookup: the words of `ws` that `q` is a
      partial of, in order, duplicates kept. */
  function Matching(ws: seq<Word>, q: seq<Square>): (r: seq<Word>)
    requires forall i :: 0 <= i < |ws| ==> ValidWord(ws[i])
    ensures forall i :: 0 <= i < |r| ==> r[i] in ws && IsPartialOf(q, SquaresOf(r[i]))
    ensures |r| <= |ws|
  {
    if |ws| == 0 then []
    else
      Matching(ws[..|ws| - 1], q) +
        (if IsPartialOf(q, SquaresOf(ws[|ws| - 1])) then [ws[|ws| - 1]] else [])
  }

  /** Every word of `ws` that `q` is a partial of is among the matches. */
  lemma {:induction false} MatchingComplete(ws: seq<Word>, q: seq<Square>, w: Word)
    requires forall i :: 0 <= i < |ws| ==> ValidWord(ws[i])
    requires w in ws && ValidWord(w) && IsPartialOf(q, SquaresOf(w))
    ensures w in Matching(ws, q)
  {
    var last := ws[|ws| - 1];
    if w != last {
      assert w in ws[..|ws| - 1] by { assert ws == ws[..|ws| - 1] + [last]; }
      MatchingComplete(ws[..|ws| - 1], q, w);
    }
  }

  /** A word added at the end is matched after all earlier matches. */
  lemma MatchingAppend(ws: seq<Word>, w: Word, q: seq<Square>)
    requires forall i :: 0 <= i < |ws| ==> ValidWord(ws[i])
    requires ValidWord(w)
    ensures Matching(ws + [w], q) == Matching(ws, q) + (if IsPartialOf(q, SquaresOf(w)) then [w] else [])
  {
    assert (ws + [w])[..|ws|] == ws;
  }

  /** The matches among three words, one at a time. */
  lemma MatchingThree(a: Word, b: Word, c: Word, q: seq<Square>)
    requires ValidWord(a) && ValidWord(b) && ValidWord(c)
    ensures Matching([a, b, c], q) ==
      (if IsPartialOf(q, SquaresOf(a)) then [a] else []) +
      (if IsPartialOf(q, SquaresOf(b)) then [b] else []) +
      (if IsPartialOf(q, SquaresOf(c)) then [c] else [])
  {
    MatchingAppend([], a, q);
    assert [] + [a] == [a];
    MatchingAppend([a], b, q);
    assert [a] + [b] == [a, b];
    MatchingAppend([a, b], c, q);
    assert [a, b] + [c] == [a, b, c];
  }

  /** Pushing `w` under distinct keys adds it once to each of those keys'
      lists and leaves every other list as it was. */
  lemma {:induction false} PushAllLookup(m: map<seq<Square>, seq<Word>>, ps: seq<seq<Square>>, w: Word, q: seq<Square>)
    requires Distinct(ps)
    ensures Lookup(PushAll(m, ps, w), q) == Lookup(m, q) + (if q in ps then [w] else [])
  {
    if |ps| > 0 {
      var init := ps[..|ps| - 1];
      assert Distinct(init);
      PushAllLookup(m, init, w, q);
      assert q in ps <==> q in init || q == ps[|ps| - 1];
      if q == ps[|ps| - 1] {
        assert q !in init;
      }
    }
  }

  /** Adding one word's partials appends it to exactly the lists of the
      partial words it matches. */
  lemma AddWordLookup(m: map<seq<Square>, seq<Word>>, w: Word, q: seq<Square>)
    requires ValidWord(w)
    ensures Lookup(PushAll(m, Partials(SquaresOf(w)), w), q) ==
      Lookup(m, q) + (if IsPartialOf(q, SquaresOf(w)) then [w] else [])
  {
    PartialsDistinct(SquaresOf(w));
    PartialsExactly(SquaresOf(w), q);
    PushAllLookup(m, Partials(SquaresOf(w)), w, q);
  }

  /** The lists of the index are the matching words of the converted list:
      in input order, duplicates kept, and nothing for a partial word that
      matches no word. */
  lemma {:induction false} IndexMeansMatching(list: seq<seq<byte>>, n: nat, q: seq<Square>)
    requires n <= |list|
    ensures forall i :: 0 <= i < |Converted(list, n)| ==> ValidWord(Converted(list, n)[i])
    ensures Lookup(IndexOf(list, n), q) == Matching(Converted(list, n), q)
  {
    forall i | 0 <= i < |Converted(list, n)| ensures ValidWord(Converted(list, n)[i]) {
      ConvertedWords(list, n, Converted(list, n)[i]);
    }
    if n > 0 {
      IndexMeansMatching(list, n - 1, q);
      var ws := Converted(list, n - 1);
      match FromBytes(list[n - 1])
      case Ok(w) =>
        FromBytesGivesSquares(list[n - 1]);
        AddWordLookup(IndexOf(list, n - 1), w, q);
        assert Converted(list, n) == ws + [w];
        assert Converted(list, n)[..|Converted(list, n)| - 1] == ws;
      case Err(_) =>
    }
  }

  /** Looking up the built vocabulary gives the matching converted words. */
  lemma MatchesAfterNew(list: seq<seq<byte>>, v: Vocab, q: seq<Square>)
    requires KeptAreLetters(list)
    requires v.index == IndexOf(list, |list|)
    ensures forall i :: 0 <= i < |Converted(list, |list|)| ==> ValidWord(Converted(list, |list|)[i])
    ensures Matches(v, q) == Matching(Converted(list, |list|), q)
  {
    IndexMeansMatching(list, |list|, q);
  }

  /** Every converted word is found under each of its partials. */
  lemma {:induction false} EveryPartialFindsWord(list: seq<seq<byte>>, n: nat, w: Word, q: seq<Square>)
    requires n <= |list| && w in Converted(list, n)
    ensures ValidWord(w)
    ensures q in Partials(SquaresOf(w)) ==> w in Lookup(IndexOf(list, n), q)
  {
    ConvertedWords(list, n, w);
    if q in Partials(SquaresOf(w)) {
      PartialsExactly(SquaresOf(w), q);
      IndexMeansMatching(list, n, q);
      MatchingComplete(Converted(list, n), q, w);
    }
  }

  /** A lookup only returns words that the query is a partial of, so they all
      have the query's length. */
  lemma MatchesHaveQueryLength(list: seq<seq<byte>>, q: seq<Square>, w: Word)
    requires w in Lookup(IndexOf(list, |list|), q)
    ensures ValidWord(w) && |w.chars| == |q|
    ensures q in Partials(SquaresOf(w))
  {
    IndexMeansMatching(list, |list|, q);
    var r := Matching(Converted(list, |list|), q);
    var k :| 0 <= k < |r| && r[k] == w;
    PartialsExactly(SquaresOf(w), q);
  }

  /** The bytes of an ASCII string. */
  function AsBytes(s: string): (r: seq<byte>)
    requires forall i :: 0 <= i < |s| ==> s[i] as int < 256
    ensures |r| == |s| && forall i :: 0 <= i < |s| ==> r[i] == s[i] as int
  {
    seq(|s|, i requires 0 <= i < |s| => s[i] as int)
  }

  /** A three-word list: hello, world, jello (crossword/src/vocab.rs:104-126). */
  function SampleList(): seq<seq<byte>>
  {
    [AsBytes("hello"), AsBytes("world"), AsBytes("jello")]
  }

  function Letter(c: char): Square
    requires 'A' <= c <= 'Z'
  {
    Square(c as int)
  }

  lemma SampleConverted()
    ensures Converted(SampleList(), 3) == [Word(AsBytes("HELLO")), Word(AsBytes("WORLD")), Word(AsBytes("JELLO"))]
  {
    assert UpperAll(AsBytes("hello")) == AsBytes("HELLO");
    assert UpperAll(AsBytes("world")) == AsBytes("WORLD");
    assert UpperAll(AsBytes("jello")) == AsBytes("JELLO");
  }

  lemma SampleSquares()
    ensures ValidWord(Word(AsBytes("HELLO"))) && SquaresOf(Word(AsBytes("HELLO"))) == [Letter('H'), Letter('E'), Letter('L'), Letter('L'), Letter('O')]
    ensures ValidWord(Word(AsBytes("WORLD"))) && SquaresOf(Word(AsBytes("WORLD"))) == [Letter('W'), Letter('O'), Letter('R'), Letter('L'), Letter('D')]
    ensures ValidWord(Word(AsBytes("JELLO"))) && SquaresOf(Word(AsBytes("JELLO"))) == [Letter('J'), Letter('E'), Letter('L'), Letter('L'), Letter('O')]
  {
  }

  function Hello(): Word { Word(AsBytes("HELLO")) }
  function World(): Word { Word(AsBytes("WORLD")) }
  function Jello(): Word { Word(AsBytes("JELLO")) }

  lemma MatchBlank()
    ensures ValidWord(Hello()) && ValidWord(World()) && ValidWord(Jello())
    ensures Matching([Hello(), World(), Jello()], [Empty, Empty, Empty, Empty, Empty]) == [Hello(), World(), Jello()]
  {
    var blank := [Empty, Empty, Empty, Empty, Empty];
    SampleSquares();
    assert IsPartialOf(blank, SquaresOf(Hello()));
    assert IsPartialOf(blank, SquaresOf(World()));
    assert IsPartialOf(blank, SquaresOf(Jello()));
    MatchingThree(Hello(), World(), Jello(), blank);
  }

  lemma MatchEllo()
    ensures ValidWord(Hello()) && ValidWord(World()) && ValidWord(Jello())
    ensures Matching([Hello(), World(), Jello()], [Empty, Letter('E'), Letter('L'), Letter('L'), Letter('O')]) == [Hello(), Jello()]
  {
    var ello := [Empty, Letter('E'), Letter('L'), Letter('L'), Letter('O')];
    SampleSquares();
    assert IsPartialOf(ello, SquaresOf(Hello()));
    assert !IsPartialOf(ello, SquaresOf(World())) by { assert ello[1] != SquaresOf(World())[1]; }
    assert IsPartialOf(ello, SquaresOf(Jello()));
    MatchingThree(Hello(), World(), Jello(), ello);
  }

  /** For that list the all-blank five-square query matches all three words
      and the query blank-E-L-L-O matches two (crossword/src/vocab.rs:104-126). */
  lemma SampleMatches(v: Vocab)
    requires v.index == IndexOf(SampleList(), 3)
    ensures KeptAreLetters(SampleList())
    ensures |Matches(v, [Empty, Empty, Empty, Empty, Empty])| == 3
    ensures |Matches(v, [Empty, Letter('E'), Letter('L'), Letter('L'), Letter('O')])| == 2
  {
    SampleConverted();
    MatchesAfterNew(SampleList(), v, [Empty, Empty, Empty, Empty, Empty]);
    MatchesAfterNew(SampleList(), v, [Empty, Letter('E'), Letter('L'), Letter('L'), Letter('O')]);
    MatchBlank();
    MatchEllo();
  }
}
