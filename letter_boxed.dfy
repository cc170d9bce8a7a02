/** Letter Boxed: twelve letters on the four sides of a square, three per
    side. A word is spelled by moving from letter to letter, each next letter
    on a different side from the current one; the puzzle is won once every
    letter has been used. This module holds the board, the move generators,
    the vocabulary loading and the neighbour rules the searches follow. */
module LetterBoxed {
  import opened Wrappers
  import PT = PrefixTree

  const SideCount: nat := 4
  const PerSide: nat := 3
  const VocabSize: nat := 50000
  const MinWordLen: nat := 3
  const MaxCost: nat := 1000

  /** `Position(side, index)`. */
  datatype Position = Position(side: nat, index: nat)

  predicate OnBoard(p: Position)
  {
    p.side < SideCount && p.index < PerSide
  }

  /** `Board<T>`: four sides of three cells each. */
  datatype Board<T> = Board(sides: seq<seq<T>>)

  /** The fixed 4 by 3 shape every board has. */
  predicate Shaped<T>(b: Board<T>)
  {
    |b.sides| == SideCount && forall i :: 0 <= i < SideCount ==> |b.sides[i]| == PerSide
  }

  /** A board with every cell set to `v` (the default board has the type's
      default in every cell). */
  function Filled<T>(v: T): (r: Board<T>)
    ensures Shaped(r) && forall p :: OnBoard(p) ==> At(r, p) == v
  {
    Board(seq(SideCount, i => seq(PerSide, j => v)))
  }

  /** `Index<Position>`: the cell `[side][index]`; a position off the board
      panics (letter-boxed/src/main.rs:37-43). */
  function At<T>(b: Board<T>, p: Position): T
    requires Shaped(b) && OnBoard(p)
  {
    b.sides[p.side][p.index]
  }

  /** `IndexMut<Position>` followed by an assignment: the board with one cell
      replaced (letter-boxed/src/main.rs:45-49). */
  function Update<T>(b: Board<T>, p: Position, v: T): (r: Board<T>)
    requires Shaped(b) && OnBoard(p)
    ensures Shaped(r) && At(r, p) == v
    ensures forall q :: OnBoard(q) && q != p ==> At(r, q) == At(b, q)
  {
    Board(b.sides[p.side := b.sides[p.side][p.index := v]])
  }

  /** Two shaped boards with the same cells are the same board. */
  lemma BoardsEqual<T>(a: Board<T>, b: Board<T>)
    requires Shaped(a) && Shaped(b)
    requires forall p :: OnBoard(p) ==> At(a, p) == At(b, p)
    ensures a == b
  {
    forall i | 0 <= i < SideCount ensures a.sides[i] == b.sides[i] {
      forall j | 0 <= j < PerSide ensures a.sides[i][j] == b.sides[i][j] {
        assert At(a, Position(i, j)) == At(b, Position(i, j));
      }
    }
  }

  // ---------------------------------------------------------------------------
  // Boolean boards: which letters have been used.

  /** The cellwise OR of two boards. */
  function Or(a: Board<bool>, b: Board<bool>): (r: Board<bool>)
    requires Shaped(a) && Shaped(b)
    ensures Shaped(r)
  {
    Board(seq(SideCount, i requires 0 <= i < SideCount =>
      seq(PerSide, j requires 0 <= j < PerSide => a.sides[i][j] || b.sides[i][j])))
  }

  /** A cell of the OR is set iff it is set in either board. */
  lemma OrAt(a: Board<bool>, b: Board<bool>, p: Position)
    requires Shaped(a) && Shaped(b) && OnBoard(p)
    ensures At(Or(a, b), p) <==> At(a, p) || At(b, p)
  {
  }

  /** `BitOr for &Board<bool>`: starts from the all-false board and sets each
      cell, side by side, to the OR of the two cells
      (letter-boxed/src/main.rs:51-62). */
  method BitOr(a: Board<bool>, b: Board<bool>) returns (output: Board<bool>)
    requires Shaped(a) && Shaped(b)
    ensures output == Or(a, b)
  {
    output := Filled(false);
    var i := 0;
    while i < SideCount
      invariant i <= SideCount && Shaped(output)
      invariant forall p :: OnBoard(p) ==>
        At(output, p) == (if p.side < i then At(a, p) || At(b, p) else false)
    {
      var j := 0;
      while j < PerSide
        invariant j <= PerSide && Shaped(output)
        invariant forall p :: OnBoard(p) ==>
          At(output, p) == (if p.side < i || (p.side == i && p.index < j) then At(a, p) || At(b, p) else false)
      {
        output := Update(output, Position(i, j), At(a, Position(i, j)) || At(b, Position(i, j)));
        j := j + 1;
      }
      i := i + 1;
    }
    forall p | OnBoard(p) ensures At(output, p) == At(Or(a, b), p) {
      OrAt(a, b, p);
    }
    BoardsEqual(output, Or(a, b));
  }

  /** OR is commutative. */
  lemma OrCommutes(a: Board<bool>, b: Board<bool>)
    requires Shaped(a) && Shaped(b)
    ensures Or(a, b) == Or(b, a)
  {
    forall p | OnBoard(p) ensures At(Or(a, b), p) == At(Or(b, a), p) {
      OrAt(a, b, p);
      OrAt(b, a, p);
    }
    BoardsEqual(Or(a, b), Or(b, a));
  }

  /** OR is idempotent. */
  lemma OrIdempotent(a: Board<bool>)
    requires Shaped(a)
    ensures Or(a, a) == a
  {
    forall p | OnBoard(p) ensures At(Or(a, a), p) == At(a, p) {
      OrAt(a, a, p);
    }
    BoardsEqual(Or(a, a), a);
  }

  /** The all-false board is the identity of OR. */
  lemma OrIdentity(a: Board<bool>)
    requires Shaped(a)
    ensures Or(Filled(false), a) == a && Or(a, Filled(false)) == a
  {
    forall p | OnBoard(p) ensures At(Or(Filled(false), a), p) == At(a, p) && At(Or(a, Filled(false)), p) == At(a, p) {
      OrAt(Filled(false), a, p);
      OrAt(a, Filled(false), p);
    }
    BoardsEqual(Or(Filled(false), a), a);
    BoardsEqual(Or(a, Filled(false)), a);
  }

  /** The cells of a board, side by side: what `into_iter().flatten()` yields. */
  function Flatten<T>(b: Board<T>): (r: seq<T>)
    requires Shaped(b)
    ensures |r| == SideCount * PerSide
  {
    b.sides[0] + b.sides[1] + b.sides[2] + b.sides[3]
  }

  /** Cell `k` of the flattened board is the cell at side `k / 3`, index `k % 3`. */
  lemma FlattenAt<T>(b: Board<T>, k: nat)
    requires Shaped(b) && k < SideCount * PerSide
    ensures OnBoard(Position(k / PerSide, k % PerSide))
    ensures Flatten(b)[k] == At(b, Position(k / PerSide, k % PerSide))
  {
  }

  /** `all_true` (letter-boxed/src/main.rs:65-67). */
  predicate AllTrue(b: Board<bool>)
    requires Shaped(b)
  {
    forall k :: 0 <= k < |Flatten(b)| ==> Flatten(b)[k]
  }

  /** `all_false` (letter-boxed/src/main.rs:69-71). */
  predicate AllFalse(b: Board<bool>)
    requires Shaped(b)
  {
    forall k :: 0 <= k < |Flatten(b)| ==> !Flatten(b)[k]
  }

  /** `all_true` and `all_false` hold iff every one of the twelve cells is
      true, respectively false. */
  lemma AllTrueAllFalseCells(b: Board<bool>)
    requires Shaped(b)
    ensures AllTrue(b) <==> forall p :: OnBoard(p) ==> At(b, p)
    ensures AllFalse(b) <==> forall p :: OnBoard(p) ==> !At(b, p)
  {
    forall k | 0 <= k < SideCount * PerSide
      ensures OnBoard(Position(k / PerSide, k % PerSide))
      ensures Flatten(b)[k] == At(b, Position(k / PerSide, k % PerSide))
    {
      FlattenAt(b, k);
    }
    forall p | OnBoard(p) ensures At(b, p) == Flatten(b)[p.side * PerSide + p.index] {
      FlattenAt(b, p.side * PerSide + p.index);
    }
  }

  /** Only the all-false board is all false; the all-true board is all true. */
  lemma AllFalseIsDefault(b: Board<bool>)
    requires Shaped(b)
    ensures AllFalse(b) <==> b == Filled(false)
    ensures AllTrue(Filled(true))
  {
    AllTrueAllFalseCells(b);
    AllTrueAllFalseCells(Filled(true));
    if AllFalse(b) {
      BoardsEqual(b, Filled(false));
    }
  }

  /** OR never clears a cell, so a won board stays won. */
  lemma OrKeepsAllTrue(a: Board<bool>, b: Board<bool>)
    requires Shaped(a) && Shaped(b) && AllTrue(a)
    ensures AllTrue(Or(a, b)) && AllTrue(Or(b, a))
  {
    AllTrueAllFalseCells(a);
    AllTrueAllFalseCells(Or(a, b));
    AllTrueAllFalseCells(Or(b, a));
    forall p | OnBoard(p) ensures At(Or(a, b), p) && At(Or(b, a), p) {
      OrAt(a, b, p);
      OrAt(b, a, p);
    }
  }

  // ---------------------------------------------------------------------------
  // Moves.

  /** The three positions of one side. */
  function SideMoves(i: nat): seq<Position>
  {
    [Position(i, 0), Position(i, 1), Position(i, 2)]
  }

  /** `all_moves`: the product of the sides and the indices, side-major
      (letter-boxed/src/main.rs:213-218). */
  function AllMoves(): (r: seq<Position>)
    ensures |r| == SideCount * PerSide
    ensures forall k :: 0 <= k < |r| ==> r[k] == Position(k / PerSide, k % PerSide)
  {
    SideMoves(0) + SideMoves(1) + SideMoves(2) + SideMoves(3)
  }

  /** Side-major order: position before position, lexicographically. */
  predicate Before(p: Position, q: Position)
  {
    p.side < q.side || (p.side == q.side && p.index < q.index)
  }

  /** `all_moves` lists each of the twelve positions exactly once, in
      side-major order. */
  lemma AllMovesExactly()
    ensures forall p :: p in AllMoves() <==> OnBoard(p)
    ensures forall k, l :: 0 <= k < l < |AllMoves()| ==> Before(AllMoves()[k], AllMoves()[l])
  {
    forall p | OnBoard(p) ensures p in AllMoves() {
      assert AllMoves()[p.side * PerSide + p.index] == p;
    }
  }

  /** The positions of `ps` not on side `side`, in order. */
  function OtherSides(ps: seq<Position>, side: nat): (r: seq<Position>)
    ensures |r| <= |ps|
  {
    if ps == [] then []
    else (if ps[0].side != side then [ps[0]] else []) + OtherSides(ps[1..], side)
  }

  /** Filtering keeps exactly the positions off the given side. */
  lemma {:induction false} OtherSidesMembers(ps: seq<Position>, side: nat)
    ensures forall q :: q in OtherSides(ps, side) <==> q in ps && q.side != side
  {
    if ps != [] {
      OtherSidesMembers(ps[1..], side);
      assert ps == [ps[0]] + ps[1..];
    }
  }

  /** `valid_moves`: every position whose side differs from the current one
      (letter-boxed/src/main.rs:220-224). */
  function ValidMoves(p: Position): (r: seq<Position>)
    ensures forall q :: q in r <==> OnBoard(q) && q.side != p.side
  {
    AllMovesExactly();
    OtherSidesMembers(AllMoves(), p.side);
    OtherSides(AllMoves(), p.side)
  }

  /** Every valid move is on the board. */
  lemma ValidMovesOnBoard(p: Position)
    ensures forall k :: 0 <= k < |ValidMoves(p)| ==> OnBoard(ValidMoves(p)[k]) && ValidMoves(p)[k].side != p.side
  {
    var ms := ValidMoves(p);
    forall k | 0 <= k < |ms| ensures OnBoard(ms[k]) && ms[k].side != p.side {
      assert ms[k] in ms;
    }
  }

  /** Filtering distributes over concatenation. */
  lemma {:induction false} OtherSidesAppend(a: seq<Position>, b: seq<Position>, side: nat)
    ensures OtherSides(a + b, side) == OtherSides(a, side) + OtherSides(b, side)
  {
    if a != [] {
      OtherSidesAppend(a[1..], b, side);
      assert (a + b)[1..] == a[1..] + b;
    } else {
      assert a + b == b;
    }
  }

  /** Filtering one side's positions keeps all of them or none. */
  lemma OtherSidesOfSide(i: nat, side: nat)
    ensures OtherSides(SideMoves(i), side) == if i == side then [] else SideMoves(i)
  {
    var ms := SideMoves(i);
    assert ms[1..] == [Position(i, 1), Position(i, 2)];
    assert ms[1..][1..] == [Position(i, 2)];
    assert ms[1..][1..][1..] == [];
    assert OtherSides(ms[1..][1..], side) == if i == side then [] else [Position(i, 2)];
    assert OtherSides(ms[1..], side) == if i == side then [] else [Position(i, 1), Position(i, 2)];
  }

  /** From a position on the board there are exactly nine valid moves, in
      side-major order. */
  lemma ValidMovesFromBoard(p: Position)
    requires OnBoard(p)
    ensures |ValidMoves(p)| == (SideCount - 1) * PerSide
    ensures forall k, l :: 0 <= k < l < |ValidMoves(p)| ==> Before(ValidMoves(p)[k], ValidMoves(p)[l])
  {
    ValidMovesCount(p.side);
    AllMovesExactly();
    SortedOtherSides(AllMoves(), p.side);
  }

  lemma ValidMovesCount(side: nat)
    requires side < SideCount
    ensures |OtherSides(AllMoves(), side)| == (SideCount - 1) * PerSide
  {
    OtherSidesAppend(SideMoves(0) + SideMoves(1) + SideMoves(2), SideMoves(3), side);
    OtherSidesAppend(SideMoves(0) + SideMoves(1), SideMoves(2), side);
    OtherSidesAppend(SideMoves(0), SideMoves(1), side);
    OtherSidesOfSide(0, side);
    OtherSidesOfSide(1, side);
    OtherSidesOfSide(2, side);
    OtherSidesOfSide(3, side);
  }

  /** Filtering keeps the side-major order. */
  lemma {:induction false} SortedOtherSides(ps: seq<Position>, side: nat)
    requires forall k, l :: 0 <= k < l < |ps| ==> Before(ps[k], ps[l])
    ensures forall k, l :: 0 <= k < l < |OtherSides(ps, side)| ==>
      Before(OtherSides(ps, side)[k], OtherSides(ps, side)[l])
  {
    if ps != [] {
      SortedOtherSides(ps[1..], side);
      var rest := OtherSides(ps[1..], side);
      OtherSidesMembers(ps[1..], side);
      forall q | q in rest ensures Before(ps[0], q) {
        var l :| 0 <= l < |ps[1..]| && ps[1..][l] == q;
        assert ps[l + 1] == q;
      }
    }
  }

  // ---------------------------------------------------------------------------
  // Building the game.

  /** `new`: puts the `j`-th char of side string `i` at cell `[i][j]`; other
      cells keep the default char. More than four sides, or more than three
      chars on a side, index out of bounds and panic
      (letter-boxed/src/main.rs:91-98). */
  method NewLetters(sides: seq<string>) returns (letters: Board<char>)
    requires |sides| <= SideCount
    requires forall i :: 0 <= i < |sides| ==> |sides[i]| <= PerSide
    ensures Shaped(letters)
    ensures forall p :: OnBoard(p) ==>
      At(letters, p) == (if p.side < |sides| && p.index < |sides[p.side]| then sides[p.side][p.index] else '\0')
  {
    letters := Filled('\0');
    var i := 0;
    while i < |sides|
      invariant i <= |sides| && Shaped(letters)
      invariant forall p :: OnBoard(p) ==>
        At(letters, p) == (if p.side < i && p.index < |sides[p.side]| then sides[p.side][p.index] else '\0')
    {
      var j := 0;
      while j < |sides[i]|
        invariant j <= |sides[i]| && Shaped(letters)
        invariant forall p :: OnBoard(p) ==>
          At(letters, p) == (if (p.side < i || (p.side == i && p.index < j)) && p.index < |sides[p.side]|
                             then sides[p.side][p.index] else '\0')
      {
        letters := Update(letters, Position(i, j), sides[i][j]);
        j := j + 1;
      }
      i := i + 1;
    }
  }

  /** The number of bytes `c` takes in UTF-8. */
  function Utf8Width(c: char): (r: nat)
    ensures 1 <= r <= 4
  {
    if c as int < 0x80 then 1
    else if c as int < 0x800 then 2
    else if c as int < 0x10000 then 3
    else 4
  }

  /** `str::len`: the length of a string in UTF-8 bytes. */
  function ByteLen(s: string): (r: nat)
    ensures |s| <= r <= 4 * |s|
  {
    if s == [] then 0 else ByteLen(s[..|s| - 1]) + Utf8Width(s[|s| - 1])
  }

  /** An ASCII string is as many bytes long as it has chars. */
  lemma {:induction false} AsciiByteLen(s: string)
    requires forall i :: 0 <= i < |s| ==> s[i] as int < 0x80
    ensures ByteLen(s) == |s|
  {
    if s != [] {
      AsciiByteLen(s[..|s| - 1]);
    }
  }

  predicate IsLower(c: char)
  {
    'a' <= c <= 'z'
  }

  /** Uppercasing of one char, ASCII letters only. */
  function UpperChar(c: char): (r: char)
    ensures !IsLower(r) && Utf8Width(r) == Utf8Width(c)
    ensures IsLower(c) ==> r as int == c as int - 32
    ensures !IsLower(c) ==> r == c
  {
    if IsLower(c) then (c as int - 32) as char else c
  }

  /** `str::to_uppercase` on ASCII letters. */
  function Upper(s: string): (r: string)
    ensures |r| == |s| && forall i :: 0 <= i < |s| ==> r[i] == UpperChar(s[i])
  {
    seq(|s|, i requires 0 <= i < |s| => UpperChar(s[i]))
  }

  /** Uppercasing keeps the UTF-8 length. */
  lemma {:induction false} UpperByteLen(s: string)
    ensures ByteLen(Upper(s)) == ByteLen(s)
  {
    if s != [] {
      UpperByteLen(s[..|s| - 1]);
      assert Upper(s)[..|s| - 1] == Upper(s[..|s| - 1]);
    }
  }

  /** Each line of the word list, once parsed: a word and its popularity. */
  type Line = (string, nat)

  /** What the loading loop does to each word before storing it: this
      program uppercases it, the second one keeps it as written. */
  datatype Casing = Uppercased | AsWritten

  function Cased(casing: Casing, s: string): (r: string)
    ensures ByteLen(r) == ByteLen(s)
    ensures casing == Uppercased ==> forall i :: 0 <= i < |r| ==> !IsLower(r[i])
  {
    match casing
    case Uppercased => UpperByteLen(s); Upper(s)
    case AsWritten => s
  }

  /** The entries the first `n` lines contribute before the cut at
      `VocabSize`: each word cased, those shorter than three bytes dropped,
      in order. */
  function Kept(list: seq<Line>, n: nat, casing: Casing): (r: seq<Line>)
    requires n <= |list|
    ensures |r| <= n
  {
    if n == 0 then []
    else
      var w := Cased(casing, list[n - 1].0);
      Kept(list, n - 1, casing) + (if ByteLen(w) >= MinWordLen then [(w, list[n - 1].1)] else [])
  }

  /** The entries stored: the long enough words, at most `VocabSize` of them. */
  function Selected(list: seq<Line>, casing: Casing): (r: seq<Line>)
    ensures |r| <= VocabSize
  {
    var ks := Kept(list, |list|, casing);
    if |ks| <= VocabSize then ks else ks[..VocabSize]
  }

  /** The kept entries of a shorter input start the kept entries of a longer one. */
  lemma {:induction false} KeptGrows(list: seq<Line>, m: nat, n: nat, casing: Casing)
    requires m <= n <= |list|
    ensures IsPrefix(Kept(list, m, casing), Kept(list, n, casing))
  {
    if m < n {
      KeptGrows(list, m, n - 1, casing);
    }
  }

  /** `load_vocabulary`: reads the parsed lines in order, uppercases each word,
      skips words shorter than three bytes, stops after `VocabSize` words and
      sets each word's popularity in a fresh prefix tree
      (letter-boxed/src/main.rs:127-146). The second program's loop is the
      same without the uppercasing (solver/src/main.rs:96-115). */
  method LoadVocabulary(list: seq<Line>, casing: Casing) returns (vocab: PT.Tree<char, nat>)
    ensures fresh(vocab) && vocab.Valid() && vocab.entries == Selected(list, casing)
  {
    vocab := new PT.Tree.Empty();
    var i := 0;
    var taken := 0;
    while i < |list| && taken < VocabSize
      invariant i <= |list| && vocab.Valid() && fresh(vocab)
      invariant vocab.entries == Kept(list, i, casing) && taken == |vocab.entries| <= VocabSize
    {
      var (raw, popularity) := list[i];
      var word := Cased(casing, raw);
      KeptNext(list, i, casing);
      if ByteLen(word) >= MinWordLen {
        vocab.Set(word, popularity);
        taken := taken + 1;
      }
      i := i + 1;
    }
    SelectedAtStop(list, i, casing);
  }

  lemma KeptNext(list: seq<Line>, i: nat, casing: Casing)
    requires i < |list|
    ensures Kept(list, i + 1, casing) == Kept(list, i, casing)
      + (if ByteLen(Cased(casing, list[i].0)) >= MinWordLen then [(Cased(casing, list[i].0), list[i].1)] else [])
  {
  }

  /** Once the input is used up or `VocabSize` words are kept, what is kept is what is stored. */
  lemma SelectedAtStop(list: seq<Line>, i: nat, casing: Casing)
    requires i <= |list| && |Kept(list, i, casing)| <= VocabSize
    requires i == |list| || |Kept(list, i, casing)| == VocabSize
    ensures Selected(list, casing) == Kept(list, i, casing)
  {
    KeptGrows(list, i, |list|, casing);
    if i < |list| {
      assert Kept(list, |list|, casing)[..VocabSize] == Kept(list, i, casing);
    }
  }

  /** Every stored entry is a cased input word of at least three bytes
      with that line's popularity; uppercased words hold no lowercase letter. */
  lemma {:induction false} KeptSound(list: seq<Line>, n: nat, k: nat, casing: Casing)
    requires n <= |list| && k < |Kept(list, n, casing)|
    ensures ByteLen(Kept(list, n, casing)[k].0) >= MinWordLen
    ensures casing == Uppercased ==>
      forall i :: 0 <= i < |Kept(list, n, casing)[k].0| ==> !IsLower(Kept(list, n, casing)[k].0[i])
    ensures exists i :: 0 <= i < n && Kept(list, n, casing)[k] == (Cased(casing, list[i].0), list[i].1)
  {
    if k < |Kept(list, n - 1, casing)| {
      KeptSound(list, n - 1, k, casing);
      var i :| 0 <= i < n - 1 && Kept(list, n - 1, casing)[k] == (Cased(casing, list[i].0), list[i].1);
      assert Kept(list, n, casing)[k] == Kept(list, n - 1, casing)[k];
    } else {
      assert Kept(list, n, casing)[k] == (Cased(casing, list[n - 1].0), list[n - 1].1);
    }
  }

  /** A long enough word is kept right after what the lines before it kept. */
  lemma KeptLong(list: seq<Line>, i: nat, casing: Casing)
    requires i < |list| && ByteLen(list[i].0) >= MinWordLen
    ensures Kept(list, i + 1, casing) == Kept(list, i, casing) + [(Cased(casing, list[i].0), list[i].1)]
  {
  }

  /** ... and stays at that place among the entries of the whole list. */
  lemma KeptAt(list: seq<Line>, i: nat, casing: Casing)
    requires i < |list| && ByteLen(list[i].0) >= MinWordLen
    ensures |Kept(list, i, casing)| < |Kept(list, |list|, casing)|
    ensures Kept(list, |list|, casing)[|Kept(list, i, casing)|] == (Cased(casing, list[i].0), list[i].1)
  {
    var k0 := Kept(list, i, casing);
    var next := Kept(list, i + 1, casing);
    KeptLong(list, i, casing);
    KeptGrows(list, i + 1, |list|, casing);
    PrefixAt(next, Kept(list, |list|, casing), |k0|);
  }

  lemma PrefixAt<T>(a: seq<T>, b: seq<T>, k: nat)
    requires |a| <= |b| && b[..|a|] == a && k < |a|
    ensures b[k] == a[k]
  {
    assert b[..|a|][k] == b[k];
  }

  /** The length filter runs before the cut: a long enough word is stored
      whenever fewer than `VocabSize` long enough words precede it. */
  lemma SelectedComplete(list: seq<Line>, i: nat, casing: Casing)
    requires i < |list| && ByteLen(list[i].0) >= MinWordLen
    requires |Kept(list, i, casing)| < VocabSize
    ensures |Kept(list, i, casing)| < |Selected(list, casing)|
    ensures Selected(list, casing)[|Kept(list, i, casing)|] == (Cased(casing, list[i].0), list[i].1)
  {
    KeptAt(list, i, casing);
    var ks := Kept(list, |list|, casing);
    if |ks| > VocabSize {
      assert Selected(list, casing) == ks[..VocabSize];
    }
  }

  /** The word list with its words uppercased. */
  function UpperLines(list: seq<Line>): (r: seq<Line>)
    ensures |r| == |list| && forall i :: 0 <= i < |list| ==> r[i] == (Upper(list[i].0), list[i].1)
  {
    seq(|list|, i requires 0 <= i < |list| => (Upper(list[i].0), list[i].1))
  }

  /** The two programs store the same vocabulary once the word list is
      uppercased: uppercasing keeps each word's byte length, so it commutes
      with the length filter. */
  lemma {:induction false} KeptUppercased(list: seq<Line>, n: nat)
    requires n <= |list|
    ensures Kept(list, n, Uppercased) == Kept(UpperLines(list), n, AsWritten)
  {
    if n > 0 {
      KeptUppercased(list, n - 1);
    }
  }

  lemma SelectedUppercased(list: seq<Line>)
    ensures Selected(list, Uppercased) == Selected(UpperLines(list), AsWritten)
  {
    KeptUppercased(list, |list|);
  }

  /** `LettersBoxedGame`: the letters and the vocabulary, fixed once built. */
  class Game {
    const letters: Board<char>
    const vocabulary: PT.Tree<char, nat>

    /** `LettersBoxedGame::new`, which always succeeds; the word list is the
        parsed lines of the bundled file (letter-boxed/src/main.rs:91-104). */
    constructor New(sides: seq<string>, list: seq<Line>)
      requires |sides| <= SideCount
      requires forall i :: 0 <= i < |sides| ==> |sides[i]| <= PerSide
      ensures Shaped(letters)
      ensures forall p :: OnBoard(p) ==>
        At(letters, p) == (if p.side < |sides| && p.index < |sides[p.side]| then sides[p.side][p.index] else '\0')
      ensures fresh(vocabulary) && vocabulary.Valid() && vocabulary.entries == Selected(list, Uppercased)
    {
      var ls := NewLetters(sides);
      var v := LoadVocabulary(list, Uppercased);
      letters := ls;
      vocabulary := v;
    }
  }

  // ---------------------------------------------------------------------------
  // Spelling words: the neighbour rule of the per-letter search.

  /** A word being spelled: the cell of its last letter, the letters so far
      and the cells used. */
  datatype Partial = Partial(pos: Position, word: string, used: Board<bool>)

  /** What holds of every partial word the search reaches: the last letter is
      the one at the current cell, which is marked used. */
  predicate Spelled(letters: Board<char>, s: Partial)
    requires Shaped(letters)
  {
    OnBoard(s.pos) && Shaped(s.used) && At(s.used, s.pos) &&
    |s.word| >= 1 && s.word[|s.word| - 1] == At(letters, s.pos)
  }

  /** The search's initial state from a starting cell: its letter alone, only
      that cell used (letter-boxed/src/main.rs:234-237). */
  function StartAt(letters: Board<char>, p: Position): (r: Partial)
    requires Shaped(letters) && OnBoard(p)
    ensures Spelled(letters, r) && r.word == [At(letters, p)]
    ensures forall q :: OnBoard(q) ==> (At(r.used, q) <==> q == p)
  {
    Partial(p, [At(letters, p)], Update(Filled(false), p, true))
  }

  /** The moves among `moves` that the vocabulary allows: each appends the
      letter at the next cell and marks that cell, and is kept unless the
      extended word leads nowhere in the prefix tree. */
  function Extensions(letters: Board<char>, vocab: PT.Node<char, nat>, s: Partial, moves: seq<Position>): (r: seq<Partial>)
    requires Shaped(letters) && Shaped(s.used)
    requires forall k :: 0 <= k < |moves| ==> OnBoard(moves[k])
    ensures |r| <= |moves|
    ensures forall k :: 0 <= k < |r| ==>
      r[k].pos in moves && OnBoard(r[k].pos) && r[k] == Extend(letters, s, r[k].pos)
      && vocab.Get(r[k].word) != PT.NotFound
  {
    if moves == [] then []
    else
      var next := Extend(letters, s, moves[0]);
      (if vocab.Get(next.word) != PT.NotFound then [next] else []) +
        Extensions(letters, vocab, s, moves[1..])
  }

  /** The move to `q`: its letter appended and its cell marked used. */
  function Extend(letters: Board<char>, s: Partial, q: Position): (r: Partial)
    requires Shaped(letters) && Shaped(s.used) && OnBoard(q)
  {
    Partial(q, s.word + [At(letters, q)], Update(s.used, q, true))
  }

  /** Every allowed move is taken; `k` is where. */
  lemma {:induction false} ExtensionsComplete(letters: Board<char>, vocab: PT.Node<char, nat>, s: Partial, moves: seq<Position>, q: Position)
    returns (k: nat)
    requires Shaped(letters) && Shaped(s.used)
    requires forall k :: 0 <= k < |moves| ==> OnBoard(moves[k])
    requires q in moves && vocab.Get(s.word + [At(letters, q)]) != PT.NotFound
    ensures k < |Extensions(letters, vocab, s, moves)| && Extensions(letters, vocab, s, moves)[k].pos == q
  {
    var head := ExtensionsUnfold(letters, vocab, s, moves);
    var rest := Extensions(letters, vocab, s, moves[1..]);
    if moves[0] == q {
      k := 0;
    } else {
      assert q in moves[1..] by {
        assert moves == [moves[0]] + moves[1..];
      }
      var k' := ExtensionsComplete(letters, vocab, s, moves[1..], q);
      k := |head| + k';
      assert (head + rest)[k] == rest[k'];
    }
  }

  /** The first move's extension, if the vocabulary allows it, then the rest. */
  lemma ExtensionsUnfold(letters: Board<char>, vocab: PT.Node<char, nat>, s: Partial, moves: seq<Position>)
    returns (head: seq<Partial>)
    requires Shaped(letters) && Shaped(s.used) && moves != []
    requires forall k :: 0 <= k < |moves| ==> OnBoard(moves[k])
    ensures |head| <= 1 && (head != [] ==> head[0].pos == moves[0])
    ensures vocab.Get(s.word + [At(letters, moves[0])]) != PT.NotFound ==> head != []
    ensures Extensions(letters, vocab, s, moves) == head + Extensions(letters, vocab, s, moves[1..])
  {
    var next := Extend(letters, s, moves[0]);
    head := if vocab.Get(next.word) != PT.NotFound then [next] else [];
  }

  /** The neighbour closure of the per-letter search: the allowed moves to
      cells on other sides (letter-boxed/src/main.rs:244-269). */
  function Neighbours(letters: Board<char>, vocab: PT.Node<char, nat>, s: Partial): (r: seq<Partial>)
    requires Shaped(letters) && Shaped(s.used)
    ensures |r| <= |ValidMoves(s.pos)|
    ensures forall k :: 0 <= k < |r| ==>
      OnBoard(r[k].pos) && r[k].pos.side != s.pos.side &&
      r[k].word == s.word + [At(letters, r[k].pos)] &&
      r[k].used == Update(s.used, r[k].pos, true) && vocab.Get(r[k].word) != PT.NotFound
  {
    ValidMovesOnBoard(s.pos);
    Extensions(letters, vocab, s, ValidMoves(s.pos))
  }

  /** Every neighbour is again a spelled word, one letter longer. */
  lemma NeighbourSpells(letters: Board<char>, vocab: PT.Node<char, nat>, s: Partial, k: nat)
    requires Shaped(letters) && Spelled(letters, s)
    requires k < |Neighbours(letters, vocab, s)|
    ensures Spelled(letters, Neighbours(letters, vocab, s)[k])
    ensures |Neighbours(letters, vocab, s)[k].word| == |s.word| + 1
  {
    var x := Neighbours(letters, vocab, s)[k];
    assert x.word[|x.word| - 1] == At(letters, x.pos);
  }

  /** Every cell on another side whose letter keeps the word on the tree's
      paths is a neighbour. */
  lemma NeighboursComplete(letters: Board<char>, vocab: PT.Node<char, nat>, s: Partial, q: Position)
    requires Shaped(letters) && Shaped(s.used)
    requires OnBoard(q) && q.side != s.pos.side && vocab.Get(s.word + [At(letters, q)]) != PT.NotFound
    ensures exists k :: 0 <= k < |Neighbours(letters, vocab, s)| && Neighbours(letters, vocab, s)[k].pos == q
  {
    var ms := ValidMoves(s.pos);
    assert q in ms;
    ValidMovesOnBoard(s.pos);
    assert Neighbours(letters, vocab, s) == Extensions(letters, vocab, s, ms);
    var k := ExtensionsComplete(letters, vocab, s, ms, q);
  }

  /** With the vocabulary built from `entries`, every word the search spells
      is the beginning of (or equal to) a stored word. */
  lemma NeighboursArePrefixes(letters: Board<char>, entries: seq<(string, nat)>, s: Partial, k: nat)
    requires Shaped(letters) && Shaped(s.used)
    requires k < |Neighbours(letters, PT.SetAll(PT.EmptyRoot(), entries), s)|
    ensures exists i ::
      0 <= i < |entries| && IsPrefix(Neighbours(letters, PT.SetAll(PT.EmptyRoot(), entries), s)[k].word, entries[i].0)
  {
    var w := Neighbours(letters, PT.SetAll(PT.EmptyRoot(), entries), s)[k].word;
    PT.GetAfterSets(entries, w);
    if PT.Stored(entries, w).Some? {
      StoredIsEntry(entries, w);
    }
  }

  /** A stored key is one of the entries. */
  lemma {:induction false} StoredIsEntry<V>(entries: seq<(string, V)>, key: string)
    requires PT.Stored(entries, key).Some?
    ensures exists i :: 0 <= i < |entries| && IsPrefix(key, entries[i].0)
  {
    if entries[|entries| - 1].0 == key {
      assert IsPrefix(key, entries[|entries| - 1].0);
    } else {
      StoredIsEntry(entries[..|entries| - 1], key);
      var i :| 0 <= i < |entries| - 1 && IsPrefix(key, entries[..|entries| - 1][i].0);
      assert entries[i] == entries[..|entries| - 1][i];
    }
  }

  /** The last filter of the per-letter search: only words the vocabulary
      stores a value for (letter-boxed/src/main.rs:272-280). */
  function Words(vocab: PT.Node<char, nat>, reached: seq<Partial>): (r: seq<Partial>)
    ensures forall x :: x in r <==> x in reached && vocab.Get(x.word).Value?
    ensures |r| <= |reached|
  {
    if reached == [] then []
    else
      (if vocab.Get(reached[0].word).Value? then [reached[0]] else []) + Words(vocab, reached[1..])
  }

  /** With the vocabulary built from `entries`, a reached word is kept iff it
      was set, however it is a prefix of other words. */
  lemma WordsAreStored(entries: seq<(string, nat)>, reached: seq<Partial>, x: Partial)
    ensures x in Words(PT.SetAll(PT.EmptyRoot(), entries), reached) <==>
      x in reached && PT.Stored(entries, x.word).Some?
  {
    PT.GetAfterSets(entries, x.word);
  }

  // ---------------------------------------------------------------------------
  // Chaining words: the neighbour rule of the whole-puzzle search.

  /** A state of the puzzle search; `moves` are the words played so far. */
  datatype GameState = GameState(pos: Position, used: Board<bool>, moves: seq<string>)

  /** The derived equality of a game state ignores the words played
      (letter-boxed/src/main.rs:74-83). */
  predicate SameState(a: GameState, b: GameState)
  {
    a.pos == b.pos && a.used == b.used
  }

  /** The default state the search starts from. */
  function Start(): (r: GameState)
    ensures Shaped(r.used) && AllFalse(r.used) && r.moves == []
  {
    AllFalseIsDefault(Filled(false));
    GameState(Position(0, 0), Filled(false), [])
  }

  /** A state is winning iff every letter has been used
      (letter-boxed/src/main.rs:206-210). */
  predicate Wins(s: GameState)
    requires Shaped(s.used)
  {
    AllTrue(s.used)
  }

  /** What the puzzle search needs of each legal word: an end cell on the
      board, a shaped used board and at most `MaxCost` bytes (a longer word
      would underflow the cost). */
  predicate EntryOk(e: Partial)
  {
    OnBoard(e.pos) && Shaped(e.used) && ByteLen(e.word) <= MaxCost
  }

  predicate AllOk(es: seq<Partial>)
  {
    forall k :: 0 <= k < |es| ==> EntryOk(es[k])
  }

  predicate LegalOk(legal: Board<seq<Partial>>)
  {
    Shaped(legal) && forall g :: 0 <= g < SideCount * PerSide ==> AllOk(Flatten(legal)[g])
  }

  function Concat<T>(xss: seq<seq<T>>): (r: seq<T>)
  {
    if xss == [] then [] else xss[0] + Concat(xss[1..])
  }

  lemma {:induction false} ConcatOk(xss: seq<seq<Partial>>)
    requires forall g :: 0 <= g < |xss| ==> AllOk(xss[g])
    ensures AllOk(Concat(xss))
  {
    if xss != [] {
      ConcatOk(xss[1..]);
    }
  }

  /** The cost of playing a word: 1000 minus its length in bytes. */
  function Cost(word: string): (r: nat)
    requires ByteLen(word) <= MaxCost
    ensures r + ByteLen(word) == MaxCost
  {
    MaxCost - ByteLen(word)
  }

  /** The first word: any legal word from any start, which becomes the only
      move (letter-boxed/src/main.rs:168-185). */
  function FirstMoves(es: seq<Partial>): (r: seq<(GameState, nat)>)
    requires AllOk(es)
    ensures |r| == |es|
    ensures forall k :: 0 <= k < |r| ==>
      r[k].0 == GameState(es[k].pos, es[k].used, [es[k].word]) && r[k].1 == Cost(es[k].word)
  {
    seq(|es|, k requires 0 <= k < |es| =>
      (GameState(es[k].pos, es[k].used, [es[k].word]), Cost(es[k].word)))
  }

  /** A later word: one starting where the previous one ended; its letters are
      ORed into those used and it is appended to the moves
      (letter-boxed/src/main.rs:186-202). */
  function NextMoves(s: GameState, es: seq<Partial>): (r: seq<(GameState, nat)>)
    requires AllOk(es) && Shaped(s.used)
    ensures |r| == |es|
    ensures forall k :: 0 <= k < |r| ==>
      r[k].0 == GameState(es[k].pos, Or(s.used, es[k].used), s.moves + [es[k].word]) && r[k].1 == Cost(es[k].word)
  {
    seq(|es|, k requires 0 <= k < |es| =>
      (GameState(es[k].pos, Or(s.used, es[k].used), s.moves + [es[k].word]), Cost(es[k].word)))
  }

  /** The neighbour closure of the puzzle search: from a state with no letter
      used, every legal word; otherwise the legal words from the current cell
      (letter-boxed/src/main.rs:162-203). */
  function Successors(legal: Board<seq<Partial>>, s: GameState): (r: seq<(GameState, nat)>)
    requires LegalOk(legal) && Shaped(s.used)
    requires !AllFalse(s.used) ==> OnBoard(s.pos)
    ensures forall k :: 0 <= k < |r| ==>
      OnBoard(r[k].0.pos) && Shaped(r[k].0.used) && |r[k].0.moves| >= 1 &&
      r[k].1 + ByteLen(r[k].0.moves[|r[k].0.moves| - 1]) == MaxCost
    ensures !AllFalse(s.used) ==> |r| == |At(legal, s.pos)| && forall k :: 0 <= k < |r| ==>
      |r[k].0.moves| == |s.moves| + 1 && r[k].0.moves[..|s.moves|] == s.moves &&
      forall p :: OnBoard(p) && At(s.used, p) ==> At(r[k].0.used, p)
    ensures AllFalse(s.used) ==> |r| == |Concat(Flatten(legal))| && forall k :: 0 <= k < |r| ==>
      |r[k].0.moves| == 1
  {
    if AllFalse(s.used) then
      ConcatOk(Flatten(legal));
      FirstMoves(Concat(Flatten(legal)))
    else
      FlattenAt(legal, s.pos.side * PerSide + s.pos.index);
      var r := NextMoves(s, At(legal, s.pos));
      forall k, p | 0 <= k < |r| && OnBoard(p) ensures At(s.used, p) ==> At(r[k].0.used, p) {
        OrAt(s.used, At(legal, s.pos)[k].used, p);
      }
      r
  }

  /** States equal up to their moves have successors equal up to their moves,
      at the same costs: ignoring the moves in equality loses no successor. */
  lemma SameStateSameSuccessors(legal: Board<seq<Partial>>, a: GameState, b: GameState)
    requires LegalOk(legal) && Shaped(a.used) && SameState(a, b)
    requires !AllFalse(a.used) ==> OnBoard(a.pos)
    ensures |Successors(legal, a)| == |Successors(legal, b)|
    ensures forall k :: 0 <= k < |Successors(legal, a)| ==>
      SameState(Successors(legal, a)[k].0, Successors(legal, b)[k].0) &&
      Successors(legal, a)[k].1 == Successors(legal, b)[k].1
  {
    if !AllFalse(a.used) {
      FlattenAt(legal, a.pos.side * PerSide + a.pos.index);
    } else {
      ConcatOk(Flatten(legal));
    }
  }

  /** A won state only leads to won states. */
  lemma WinsStayWon(legal: Board<seq<Partial>>, s: GameState, k: nat)
    requires LegalOk(legal) && Shaped(s.used) && OnBoard(s.pos) && Wins(s)
    requires k < |Successors(legal, s)|
    ensures Wins(Successors(legal, s)[k].0)
  {
    AllTrueAllFalseCells(s.used);
    assert !AllFalse(s.used) by {
      assert At(s.used, Position(0, 0));
    }
    FlattenAt(legal, s.pos.side * PerSide + s.pos.index);
    OrKeepsAllTrue(s.used, At(legal, s.pos)[k].used);
  }
}
