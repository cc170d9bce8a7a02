# nyt-games-bots: the word indexes and the puzzle rules, in Dafny

This project models the core of a set of bots for newspaper word games, and
proves properties of that model. The bots are Letter Boxed, its second solver
program, and a crossword filler.

**The word indexes.** There are three generations of the word index:
- `PrefixTree` is the first generation. It is a recursive prefix tree whose
  lookups return one of three results:
  - a stored value;
  - "prefix", for a key that only leads somewhere;
  - "not found".
- `VocabTrie` is the second generation. It is a trie with insertion that
  returns the replaced value and removal that prunes emptied children. It
  also has exact search, prefix search and fixed-length wildcard search.
- `SentinelNode` is the third generation. Its paths run from a `Start` key to
  an `End` key. Children are sorted and found by binary search, and every
  node keeps the least cost pushed through it.

Code built on the third generation:
- `CostTrie` is the word-cost index.
- `PathTraversal` is a depth-first walk that keeps whole paths.
- `Arena` is the index-addressed arena trie. Only its interface is modelled.
- `ArenaDfs` and `ArenaBestFirst` are the depth-first walk and the
  smallest-value-first walk over that arena.

**The crossword side:**
- `Squares`: a square is empty, blocked, or an uppercase letter.
- `Words`: an answer made of uppercase bytes.
- `Positions`: places on the board.
- `Clues`: a clue's direction, start and length.
- `CrosswordBoard`: the board in row-major order, and its text rendering.
- `PartialWordIndex`: the vocabulary that maps every partial word (each
  letter kept or blanked) to the words it matches.

**The Letter Boxed side.** `LetterBoxed` holds:
- the 4 by 3 board of letters and the OR of used-letter boards;
- the move generators;
- the loading of the vocabulary from a word list;
- the neighbour rules of the two searches: spelling a word from cell to cell,
  and chaining words into a solution.

`Solver` holds what the second program does differently: it is built from a
ready board, and its vocabulary keeps the words' case. The loading loop is
the same code in both programs and is modelled once, in `LetterBoxed`, with
the casing as a parameter.

How the source's code is modelled:
- A recursive tree the source owns and updates through `&mut` becomes a
  datatype value that is updated functionally.
- The structs callers mutate become classes, each with a ghost history of the
  calls made on it and a `Valid()` invariant. These are `Tree`, `StringTree`,
  the vocab-tree `Trie`, the cost `Trie` and the `Game`s.
- Each traversal iterator becomes a class. A specification function (`Walk`
  or `ItemsWalk`) gives the whole sequence the iterator still has to produce.
  `Next` is proved to return its head and to leave its tail.
- Loops in the source become methods with loop invariants. These are the
  `BitOr` fill, `Fmt`, `Vocab::new`, `load_vocabulary`, the stack and heap
  pops, and `path_to_root`.
- Panics (an `unwrap`, an index out of range, an unsigned underflow) become
  `requires` clauses.

## Model

| member | source | states |
|---|---|---|
| `Squares.FromByte` | crossword/src/square.rs:40-55 | a byte becomes a square exactly when it is 0, 1 or an ASCII uppercase letter, keeping the byte; otherwise the "Not a valid uppercase ASCII char." error |
| `Squares.FromChar` | crossword/src/square.rs:57-71 | a space gives the empty square, an uppercase letter itself, a lowercase letter its uppercase form; every other char is the same error |
| `Squares.Render` | crossword/src/square.rs:28-38 | the empty square shows as a space, the blocked square as `#`, a letter square as that letter |
| `Squares.RenderFromChar` | crossword/src/square.rs:28-71 | rendering a parsed char gives the char back, uppercased |
| `Squares.FromCharRender` | crossword/src/square.rs:28-71 | parsing the rendering of any valid square gives that square back |
| `Words.Len` | crossword/src/word.rs:11-13 | the length of a word is its number of bytes |
| `Words.ToUpper` | crossword/src/word.rs:30-32 | lowercase ASCII letters move to uppercase, every other byte is unchanged |
| `Words.UpperAll` | crossword/src/word.rs:30-32 | the copy made for the word is the input with each byte uppercased |
| `Words.FromBytesAsWritten` | crossword/src/word.rs:19-36 | as written: accepted iff every uppercased byte lies in decimal 41..=90; the word is then the uppercased bytes; otherwise the "Not valid ASCII." error |
| `Words.WrittenRangeAdmitsDigit` | crossword/src/word.rs:20-27 | the written check accepts "3", and the digit is then not a valid square |
| `Words.FromBytes` | crossword/src/word.rs:19-36 | corrected: accepted iff every uppercased byte is an uppercase letter; same copy and same error |
| `Words.FromBytesGivesSquares` | crossword/src/word.rs:19-36 | every byte of an accepted word converts to a letter square |
| `Words.FromBytesAcceptsLetters` | crossword/src/word.rs:19-36 | the corrected check accepts exactly the strings of ASCII letters of either case |
| `Words.WrittenAcceptsMore` | crossword/src/word.rs:19-36 | on inputs the corrected check accepts, the written check gives the same word |
| `Words.FromBytesIdempotent` | crossword/src/word.rs:19-36 | converting an accepted word's bytes again gives the same word |
| `Positions.Right` | crossword/src/main.rs:17-22 | one column to the right, same row |
| `Positions.Left` | crossword/src/main.rs:24-29 | one column to the left, same row; column 0 is excluded because the unsigned subtraction underflows |
| `Positions.Up` | crossword/src/main.rs:31-36 | one row up, same column; row 0 excluded for the same reason |
| `Positions.Down` | crossword/src/main.rs:38-43 | one row down, same column |
| `Positions.LeftRightInverse` | crossword/src/main.rs:17-29 | left undoes right, and right undoes left wherever left is defined |
| `Positions.UpDownInverse` | crossword/src/main.rs:31-43 | up undoes down, and down undoes up wherever up is defined |
| `Positions.MovesCommute` | crossword/src/main.rs:17-43 | a step right and a step down commute |
| `Clues.Len` | crossword/src/clue.rs:17-19 | a clue's length is the number of squares it declares |
| `Clues.PositionsAsWritten` | crossword/src/clue.rs:22-35 | as written: `length` squares, where an across clue's column comes from the start's row and a down clue's row from the start's column |
| `Clues.AsWrittenMissesStart` | crossword/src/clue.rs:24-31 | an across clue starting at (0, 2) does not cover its own start as written; the corrected positions do |
| `Clues.Positions` | crossword/src/clue.rs:22-35 | corrected: `length` squares from the start, rightwards for across and downwards for down |
| `Clues.PositionsAreConsecutive` | crossword/src/clue.rs:22-35 | the first corrected square is the start, and each next square is one step along the clue's direction |
| `Clues.PositionsDistinct` | crossword/src/clue.rs:22-35 | a clue's corrected squares are pairwise distinct |
| `Clues.AsWrittenAgreesOnDiagonal` | crossword/src/clue.rs:22-35 | with the start on the diagonal the written and corrected squares are the same; off it they differ at the first square of every non-empty clue |
| `CrosswordBoard.At` | crossword/src/board.rs:17-20 | an in-bounds position reads one of the board's squares; the row-major layout is stated by `IndexInjective` and `IndexOrder` |
| `CrosswordBoard.InBoundsIndexed` | crossword/src/board.rs:17-20 | an in-bounds position indexes inside the squares |
| `CrosswordBoard.IndexInjective` | crossword/src/board.rs:17-20 | two in-bounds positions with the same index are the same position |
| `CrosswordBoard.IndexOrder` | crossword/src/board.rs:17-20 | row-major order: an earlier row, or the same row and an earlier column, has a smaller index |
| `CrosswordBoard.PositionOf` | crossword/src/board.rs:17-20 | every index inside the grid is the index of a position within the columns (unique by `IndexInjective`) |
| `CrosswordBoard.IsFilledAtPositions` | crossword/src/board.rs:38-40 | a board is filled iff no in-bounds position holds the empty square |
| `CrosswordBoard.IsFilled` | crossword/src/board.rs:38-40 | no square is empty; `IsFilledAtPositions` restates it over positions |
| `CrosswordBoard.RowText` | crossword/src/board.rs:24-34 | a rendered row is `cols` rendered squares followed by a newline |
| `CrosswordBoard.Fmt` | crossword/src/board.rs:24-34 | the loop writes exactly the rendering of all rows in order |
| `CrosswordBoard.GridTextLength` | crossword/src/board.rs:24-34 | the rendering of n rows is n * (cols + 1) chars long |
| `CrosswordBoard.GridTextAt` | crossword/src/board.rs:24-34 | char i * (cols + 1) + j of the rendering is the newline when j == cols, and otherwise the rendering of the square at (i, j) |
| `PartialWordIndex.SquaresOf` | crossword/src/vocab.rs:38-43 | a valid word's bytes as letter squares, none of them empty |
| `PartialWordIndex.Partials` | crossword/src/vocab.rs:38-43 | the product of keeping or blanking each square, first square slowest; `PartialsCount`, `PartialsExactly` and `PartialsDistinct` state its count, its members and that none repeats |
| `PartialWordIndex.PartialsCount` | crossword/src/vocab.rs:38-43 | a word of n letters has 2^n partials |
| `PartialWordIndex.PartialsExactly` | crossword/src/vocab.rs:38-43 | the partials are exactly the same-length sequences that keep or blank each letter |
| `PartialWordIndex.PartialsDistinct` | crossword/src/vocab.rs:38-43 | no partial is produced twice |
| `PartialWordIndex.Matches` | crossword/src/vocab.rs:57-65 | a query the index does not hold matches nothing |
| `PartialWordIndex.New` | crossword/src/vocab.rs:23-55 | on a list where `new` does not panic, the loop builds the index of all accepted words of the list, in order |
| `PartialWordIndex.PanicsOtherwise` | crossword/src/vocab.rs:30-43 | on any other list some string passes the written check and has a byte that is no square, the unwrap that panics |
| `PartialWordIndex.ConvertedAsWritten` | crossword/src/vocab.rs:28-33 | on a list where `new` does not panic the written and the corrected conversion agree on every string, and the words kept are exactly those the written check accepts |
| `PartialWordIndex.AddWord` | crossword/src/vocab.rs:45-51 | the inner loop appends the word under each of its partials |
| `PartialWordIndex.ConvertedWords` | crossword/src/vocab.rs:30-33 | the words kept are exactly the list entries the conversion accepts, all valid |
| `PartialWordIndex.Matching` | crossword/src/vocab.rs:57-65 | the reference query: the words of a list of which the query is a partial, in order |
| `PartialWordIndex.MatchingComplete` | crossword/src/vocab.rs:57-65 | every listed word of which the query is a partial is in the reference answer |
| `PartialWordIndex.PushAllLookup` | crossword/src/vocab.rs:45-51 | pushing a word under a list of keys appends it under exactly those keys |
| `PartialWordIndex.AddWordLookup` | crossword/src/vocab.rs:45-51 | adding a word appends it under exactly the queries that are its partials |
| `PartialWordIndex.IndexMeansMatching` | crossword/src/vocab.rs:23-65 | the lookup of any query in the built index equals the reference answer over the accepted words |
| `PartialWordIndex.MatchesAfterNew` | crossword/src/vocab.rs:23-65 | `matches` on the vocabulary `new` builds (from a list it does not panic on) is the reference answer |
| `PartialWordIndex.EveryPartialFindsWord` | crossword/src/vocab.rs:23-55 | every accepted word is found under each of its partials |
| `PartialWordIndex.MatchesHaveQueryLength` | crossword/src/vocab.rs:23-65 | every word a query finds has the query's length and the query among its partials |
| `PartialWordIndex.MatchBlank` | crossword/src/vocab.rs:104-126 | among HELLO, WORLD and JELLO, five blanks match all three |
| `PartialWordIndex.MatchEllo` | crossword/src/vocab.rs:104-126 | among those words, a blank followed by ELLO matches HELLO and JELLO |
| `PartialWordIndex.SampleMatches` | crossword/src/vocab.rs:104-126 | `new` does not panic on that list, and on its vocabulary the two queries return 3 and 2 words |
| `PrefixTree.Node.Set` | prefix-tree/src/lib.rs:53-83 | keeps the node's component and, for a non-empty key, its own value (its whole effect is `SetGetEffect`) |
| `PrefixTree.Node.Get` | prefix-tree/src/lib.rs:85-113 | the lookup: a stored value, `Prefix` where the key only leads on, `NotFound` off the paths; its answers after sets are stated by `SetGetEffect` and `GetAfterSets` |
| `PrefixTree.FindChild` | prefix-tree/src/lib.rs:64-71 | the first child with the wanted component, or none when no child has it |
| `PrefixTree.FindChildAppend` | prefix-tree/src/lib.rs:73-79 | a child appended last is found only when no earlier child matched |
| `PrefixTree.GetNewNode` | prefix-tree/src/lib.rs:45-51 | a new empty node answers `Prefix` for the empty key and `NotFound` for any other |
| `PrefixTree.SetGetEffect` | prefix-tree/src/lib.rs:53-113 | after `set(key, v)`, `key` gives `v`; a proper prefix of `key` that was `NotFound` becomes `Prefix`; every other query is unchanged |
| `PrefixTree.SetThenGet` | prefix-tree/src/lib.rs:153-155 | the value just set is read back |
| `PrefixTree.SetKeepsValid` | prefix-tree/src/lib.rs:64-80 | setting keeps the children of every node distinct by component |
| `PrefixTree.SetOnKnownPathAddsNoNode` | prefix-tree/src/lib.rs:58-80 | setting a key whose path exists adds no node |
| `PrefixTree.GetAfterSets` | prefix-tree/src/lib.rs:85-113 | after any sequence of sets on the empty tree, a key gives its last value set, or `Prefix` if it starts some set key, or `NotFound` |
| `PrefixTree.SetAllKeepsValid` | prefix-tree/src/lib.rs:15-31 | a tree built by sets has distinct components among siblings |
| `PrefixTree.Tree.Empty` | prefix-tree/src/lib.rs:15-17 | the empty tree has had no entry set |
| `PrefixTree.Tree.Set` | prefix-tree/src/lib.rs:26-31 | records the entry in the tree's history and reads it back |
| `PrefixTree.Tree.Get` | prefix-tree/src/lib.rs:19-24 | the answer is the one the history of sets determines |
| `PrefixTree.StoredUnit` | prefix-tree/src/lib.rs:137-139 | a string tree stores exactly the added words |
| `PrefixTree.ExtendedUnit` | prefix-tree/src/lib.rs:130-139 | a string tree extends a key iff the key starts some added word |
| `PrefixTree.StringTree.Empty` | prefix-tree/src/lib.rs:119-121 | the new string tree holds no word |
| `PrefixTree.StringTree.Add` | prefix-tree/src/lib.rs:137-139 | adds the word to the tree's contents |
| `PrefixTree.StringTree.Contains` | prefix-tree/src/lib.rs:123-128 | true iff the key was added |
| `PrefixTree.StringTree.ContainsPrefix` | prefix-tree/src/lib.rs:130-135 | true iff the key is empty or starts some added word |
| `VocabTrie.TrieNode.Insert` | vocab-tree/src/lib.rs:13-45 | keeps the node's key; a non-empty key leaves the node's own value and leaves at least one child |
| `VocabTrie.TrieNode.Remove` | vocab-tree/src/lib.rs:47-72 | keeps the node's key, and its own value unless the key is empty |
| `VocabTrie.FindChild` | vocab-tree/src/lib.rs:24-30 | the first child with the wanted key, or none when no child has it |
| `VocabTrie.TrieNode.Search` | vocab-tree/src/lib.rs:74-90 | the empty address finds the node itself, and a node found by a non-empty address carries the address's last key |
| `VocabTrie.TrieNode.Lookup` | vocab-tree/src/lib.rs:168-172 | the empty key reads the node's own value; `LookupStep` states the step down, and `InsertEffect` and `RemoveEffect` the values after each change |
| `VocabTrie.LookupStep` | vocab-tree/src/lib.rs:74-90 | a lookup below a non-empty key is the lookup of the rest of the key in the child with the first key, and nothing when there is no such child |
| `VocabTrie.TrieNode.SearchPattern` | vocab-tree/src/lib.rs:92-116 | the empty pattern yields the node itself; the nodes yielded for a longer pattern are exactly those stated by `SearchPatternSound` and `SearchPatternComplete` |
| `VocabTrie.TrieNode.MatchChildren` | vocab-tree/src/lib.rs:99-113 | the scan past the last child yields nothing; what it yields before that is stated by `MatchChildrenSound` and `MatchChildrenComplete` |
| `VocabTrie.FindChildOfValid` | vocab-tree/src/lib.rs:24-30 | in a valid node each child is the one found for its own key |
| `VocabTrie.LookupOfBlank` | vocab-tree/src/lib.rs:127-136 | an empty node stores nothing |
| `VocabTrie.InsertReturns` | vocab-tree/src/lib.rs:13-45 | insertion returns the value the key had before |
| `VocabTrie.InsertEffect` | vocab-tree/src/lib.rs:13-45 | after insertion the key maps to the new value and every other key is unchanged |
| `VocabTrie.InsertKeepsValid` | vocab-tree/src/lib.rs:24-41 | insertion keeps sibling keys distinct and no stray empty child |
| `VocabTrie.ReplaceChild` | vocab-tree/src/lib.rs:59-64 | a child emptied by removal is dropped, and any other child is put back in place |
| `VocabTrie.RemoveReturns` | vocab-tree/src/lib.rs:47-72 | removal returns the value the key had |
| `VocabTrie.RemoveEffect` | vocab-tree/src/lib.rs:47-72 | after removal the key is absent and every other key is unchanged |
| `VocabTrie.RemoveKeepsValid` | vocab-tree/src/lib.rs:59-64 | removal, with its pruning, keeps the node valid |
| `VocabTrie.NoChildrenIffNoKeys` | vocab-tree/src/lib.rs:138-140 | in a valid trie, having no children means storing no non-empty key, and conversely |
| `VocabTrie.SearchAppend` | vocab-tree/src/lib.rs:74-90 | searching `p + s` is searching `p` and then `s` from the node reached |
| `VocabTrie.SearchPrefix` | vocab-tree/src/lib.rs:74-90 | if a key is reached, so is each of its prefixes |
| `VocabTrie.SearchReachesNonEmpty` | vocab-tree/src/lib.rs:74-90 | in a valid trie every node reached by a non-empty key stores a value or has a child |
| `VocabTrie.SearchFindsExactlyPrefixes` | vocab-tree/src/lib.rs:74-90 | search succeeds iff the query is empty or a prefix of some stored key |
| `VocabTrie.ConformsCons` | vocab-tree/src/lib.rs:92-116 | a key conforms to a pattern iff its first symbol agrees with the first entry (or it is a wildcard) and the rest conforms |
| `VocabTrie.SearchPatternSound` | vocab-tree/src/lib.rs:92-116 | each node the wildcard search returns is reached by a key that conforms to the pattern |
| `VocabTrie.MatchChildrenSound` | vocab-tree/src/lib.rs:99-113 | the same, for the scan over the children |
| `VocabTrie.SearchPatternComplete` | vocab-tree/src/lib.rs:92-116 | every node reached by a conforming key is among those the wildcard search returns |
| `VocabTrie.MatchChildrenComplete` | vocab-tree/src/lib.rs:99-113 | the same, for the scan over the children |
| `VocabTrie.Trie.Empty` | vocab-tree/src/lib.rs:127-136 | the empty trie maps no key |
| `VocabTrie.Trie.New` | vocab-tree/src/lib.rs:156-166 | the trie built from pairs maps each key to its last value in the list |
| `VocabTrie.Trie.IsEmpty` | vocab-tree/src/lib.rs:138-140 | true iff no non-empty key is stored |
| `VocabTrie.Trie.Insert` | vocab-tree/src/lib.rs:142-149 | the map gains the entry, and the previous value is returned |
| `VocabTrie.Trie.Remove` | vocab-tree/src/lib.rs:151-154 | the map loses the key, and its value is returned |
| `VocabTrie.Trie.Get` | vocab-tree/src/lib.rs:168-172 | the value the map holds for the key |
| `VocabTrie.Trie.ContainsPrefix` | vocab-tree/src/lib.rs:174-179 | true iff the query is empty or starts a stored key |
| `SentinelNode.KeyOrder` | vocab-tree/src/node.rs:13-18 | the derived key order is a strict total order with `Start` least and `End` greatest |
| `SentinelNode.Node.KeyOf` | vocab-tree/src/node.rs:36-41 | a symbol exactly for internal keys, and it is that key's symbol |
| `SentinelNode.Node.Value` | vocab-tree/src/node.rs:43-49 | the stored aggregate exactly for `End` nodes, none for others |
| `SentinelNode.Node.Push` | vocab-tree/src/node.rs:62-79 | keeps the node's key, leaves the node's aggregate the smaller of its old one and the pushed value, and keeps the tree valid (children sorted; every node with a child holds an aggregate, no larger than any child's, and every child holds one) |
| `SentinelNode.AggregateBoundsBelow` | vocab-tree/src/node.rs:9 | in a valid tree a node's aggregate is no larger than that of any node below it, so it is the least value recorded in its subtree |
| `SentinelNode.Node.FindDescendent` | vocab-tree/src/node.rs:81-91 | a found node is valid, carries the path's last key, and holds an aggregate |
| `SentinelNode.WithContents` | vocab-tree/src/node.rs:24-34 | a leaf with the given key and no value |
| `SentinelNode.New` | vocab-tree/src/node.rs:24-34 | the root is a valid empty `Start` node |
| `SentinelNode.Join` | vocab-tree/src/node.rs:72-78 | the new aggregate is the least of the old one and the pushed value |
| `SentinelNode.Locate` | vocab-tree/src/node.rs:105-134 | the binary search finds a key's index, or the insertion point that keeps the children sorted |
| `SentinelNode.Bisect` | vocab-tree/src/node.rs:105-134 | between the bounds, the search finds the index of a child with the key, or the point where every child before is below the key and every child after above it |
| `SentinelNode.LocatePresent` | vocab-tree/src/node.rs:105-114 | the binary search finds every child at its own index |
| `SentinelNode.Get` | vocab-tree/src/node.rs:105-114 | the child with the key, or none iff no child has it |
| `SentinelNode.GetOrCreate` | vocab-tree/src/node.rs:116-134 | the children are unchanged if the key is there; otherwise a fresh leaf is inserted at its sorted place; the index returned holds the key |
| `SentinelNode.InsertSorted` | vocab-tree/src/node.rs:116-134 | inserting at the binary search's position keeps the children sorted |
| `SentinelNode.BlankHasNothing` | vocab-tree/src/node.rs:24-34 | a fresh leaf has no descendants and no aggregate |
| `SentinelNode.PushSetsMinAlongPath` | vocab-tree/src/node.rs:63-79 | after a push, every node along the path exists and its aggregate is the least of its old one and the pushed value |
| `SentinelNode.PushKeepsSiblings` | vocab-tree/src/node.rs:72-78 | a push leaves the other children alone |
| `SentinelNode.PushLeavesOthers` | vocab-tree/src/node.rs:72-78 | a push changes no path that is not a prefix of the pushed one |
| `SentinelNode.FindSelf` | vocab-tree/src/node.rs:83-91 | the empty path finds the node itself |
| `SentinelNode.FindDescendentSteps` | vocab-tree/src/node.rs:83-91 | a path plus one key is found iff the path is found and that key is among the found node's children |
| `CostTrie.MakeQuery` | vocab-tree/src/trie.rs:32-38 | a word's query is its chars as internal keys, followed by `End` |
| `CostTrie.MakeQueryPrefixFree` | vocab-tree/src/trie.rs:32-38 | one word's query starts another's only when the words are equal, so no word's cost hides another's |
| `CostTrie.LeastCost` | vocab-tree/src/trie.rs:23-30 | the reference cost: present iff the word was pushed, and then the least cost it was pushed with |
| `CostTrie.LeastOfAll` | vocab-tree/src/trie.rs:19-21 | the root aggregate: none iff nothing was pushed, else the least cost pushed |
| `CostTrie.DistinctWordsKeepCosts` | vocab-tree/src/trie.rs:45-74 | when every word is pushed once, each word's cost is the one it was pushed with |
| `CostTrie.Trie.New` | vocab-tree/src/trie.rs:15-17 | the new index has had nothing pushed |
| `CostTrie.Trie.Push` | vocab-tree/src/trie.rs:19-21 | the push is recorded and the tree stays valid |
| `CostTrie.Trie.Cost` | vocab-tree/src/trie.rs:23-30 | a word's cost is the least cost it was pushed with, or none if it was never pushed |
| `PathTraversal.Keys` | vocab-tree/src/traversals.rs:38-60 | the symbols along a path, one per node |
| `PathTraversal.Pushed` | vocab-tree/src/traversals.rs:38-60 | each extended path pushed respects the pattern |
| `PathTraversal.PushedIsSmaller` | vocab-tree/src/traversals.rs:38-60 | the paths pushed hold fewer nodes than the subtree popped, so the walk ends |
| `PathTraversal.Step` | vocab-tree/src/traversals.rs:34-67 | one pop-and-push keeps every path admitted and shrinks the pending work |
| `PathTraversal.ItemsWalk` | vocab-tree/src/traversals.rs:34-67 | the items the iterator yields from a stack are at least as many as the paths on it |
| `PathTraversal.PushAdmitted` | vocab-tree/src/traversals.rs:38-60 | the loop pushes exactly the admitted children's paths, in order |
| `PathTraversal.DfsTraversal.New` | vocab-tree/src/traversals.rs:18-26 | the stack starts with the root's path, and what remains is the whole walk from it |
| `PathTraversal.DfsTraversal.Next` | vocab-tree/src/traversals.rs:34-67 | yields the head of what remains and leaves its tail; none once the walk is over |
| `PathTraversal.ItemsWalkConforms` | vocab-tree/src/traversals.rs:38-62 | every item yielded has keys that follow the pattern at every depth |
| `PathTraversal.TraversalConforms` | vocab-tree/src/traversals.rs:18-62 | the same, for the walk from the root |
| `PathTraversal.StackYields` | vocab-tree/src/traversals.rs:34-67 | the item of every path on the stack is yielded |
| `PathTraversal.PushedHasChild` | vocab-tree/src/traversals.rs:38-60 | each child of the path's last node that fits the pattern is pushed as the path extended by it |
| `PathTraversal.TopChildYielded` | vocab-tree/src/traversals.rs:38-62 | each fitting child of the popped path's last node is yielded later, with its key appended |
| `PathTraversal.ItemsWalkClosed` | vocab-tree/src/traversals.rs:34-67 | for every item yielded, each child that fits the pattern below it is yielded too |
| `PathTraversal.ItemsWalkComplete` | vocab-tree/src/traversals.rs:38-62 | every path down from the root that fits the pattern is yielded |
| `PathTraversal.DescendsValid` | vocab-tree/src/traversals.rs:38-62 | the last node of a path down a valid tree is valid |
| `PathTraversal.StepDescends` | vocab-tree/src/traversals.rs:34-67 | one pop-and-push keeps every stacked path a fitting path down from the root |
| `PathTraversal.ItemsWalkDescends` | vocab-tree/src/traversals.rs:34-67 | every item yielded from such a stack is the item of a fitting path down from the root |
| `PathTraversal.TraversalExactly` | vocab-tree/src/traversals.rs:18-62 | the walk from the root yields an item iff it is the item of a path down from the root that fits the pattern |
| `PathTraversal.ItemsWalkVisitsOnce` | vocab-tree/src/traversals.rs:43-49 | without a pattern, the nodes yielded are, as a multiset, the subtrees under the stack |
| `PathTraversal.TraversalVisitsSubtreeOnce` | vocab-tree/src/traversals.rs:43-49 | without a pattern, the walk from a root yields every node of its subtree exactly once |
| `Arena.GetChildIndex` | vocab-tree/src/traversal.rs:44-65 | the child with the key, or none iff no child has it |
| `Arena.Admitted` | vocab-tree/src/traversal.rs:44-65 | the children a pattern lets through: all without a pattern, none past its end, and only those with the pattern's key where it names one |
| `Arena.AdmittedExactly` | vocab-tree/src/traversal.rs:44-65 | a child of the popped node is pushed iff it fits the pattern one level deeper: always without a pattern or under a wildcard, never past the pattern's end, and iff its key is the one named |
| `Arena.EveryNodeOnceUnderRoot` | vocab-tree/src/traversal.rs:123-131 | every node of a well-formed arena occurs exactly once in the root's subtree |
| `ArenaDfs.Step` | vocab-tree/src/traversal.rs:42-73 | one pop-and-push keeps every stacked node in range at its depth |
| `ArenaDfs.Walk` | vocab-tree/src/traversal.rs:42-73 | the sequence the iterator yields from a stack |
| `ArenaDfs.Initial` | vocab-tree/src/traversal.rs:23-33 | the stack starts as the start index at depth 0 |
| `ArenaDfs.PushAll` | vocab-tree/src/traversal.rs:49-53 | the loop pushes each admitted child at the next depth, in order |
| `ArenaDfs.Pop` | vocab-tree/src/traversal.rs:42-73 | takes the top and leaves the next stack; what the walk yields is the top followed by the walk of the new stack |
| `ArenaDfs.DfsTraversal.FromIndex` | vocab-tree/src/traversal.rs:23-33 | the traversal starts from the given index |
| `ArenaDfs.DfsTraversal.FromRoot` | vocab-tree/src/traversal.rs:15-21 | the traversal starts from index 0 |
| `ArenaDfs.DfsTraversal.Next` | vocab-tree/src/traversal.rs:42-73 | yields the head of the remaining walk and leaves its tail; none once the walk is over |
| `ArenaDfs.WalkVisitsSubtrees` | vocab-tree/src/traversal.rs:49-53 | without a pattern, the indices yielded are, as a multiset, the subtrees of the stacked nodes |
| `ArenaDfs.EveryNodeVisitedOnce` | vocab-tree/src/traversal.rs:123-131 | without a pattern, the walk from the root yields every node exactly once |
| `ArenaDfs.WalkConforms` | vocab-tree/src/traversal.rs:44-65 | every node yielded has the pattern's key at its depth |
| `ArenaDfs.TraversalConforms` | vocab-tree/src/traversal.rs:23-73 | the same, for the walk from any start |
| `ArenaDfs.StackInWalk` | vocab-tree/src/traversal.rs:42-73 | every entry on the stack is yielded at some point |
| `ArenaDfs.TopChildInWalk` | vocab-tree/src/traversal.rs:44-65 | each admitted child of the popped entry is yielded later, one level deeper |
| `ArenaDfs.WalkClosed` | vocab-tree/src/traversal.rs:42-73 | for every entry yielded, each child the pattern admits below it is yielded too |
| `ArenaDfs.WalkIsClosed` | vocab-tree/src/traversal.rs:42-73 | the same, stated as a property of the whole yielded sequence |
| `ArenaDfs.StartPopped` | vocab-tree/src/traversal.rs:23-33 | the start entry is yielded |
| `ArenaDfs.ParentAdmits` | vocab-tree/src/traversal.rs:44-65 | a node that fits the pattern at its depth is admitted below its parent one level up |
| `ArenaDfs.ClosedHoldsPath` | vocab-tree/src/traversal.rs:42-73 | a closed sequence holding the start holds every entry whose path down from the start fits the pattern |
| `ArenaDfs.WalkComplete` | vocab-tree/src/traversal.rs:23-73 | every node reached from the start along a path that fits the pattern is yielded, at its depth |
| `ArenaDfs.AdmittedReaches` | vocab-tree/src/traversal.rs:44-65 | an admitted child of a reached entry is reached one level deeper |
| `ArenaDfs.StepReaches` | vocab-tree/src/traversal.rs:42-73 | one pop-and-push keeps every stacked entry reached from the start |
| `ArenaDfs.WalkReaches` | vocab-tree/src/traversal.rs:42-73 | every entry yielded from a stack of reached entries is reached |
| `ArenaDfs.TraversalExactly` | vocab-tree/src/traversal.rs:23-73 | the walk from a start yields an entry iff the entry is reached from the start along a path that fits the pattern |
| `ArenaDfs.CountIsNodeCount` | vocab-tree/src/traversal.rs:123-131 | without a pattern, the walk from the root yields as many entries as the arena has nodes |
| `ArenaDfs.PathToRoot` | vocab-tree/src/traversal.rs:99-116 | the loop collects the symbols from a node up to the root |
| `ArenaDfs.Reverse` | vocab-tree/src/traversal.rs:99-116 | the reversal of a word |
| `ArenaDfs.SpellingReadsBack` | vocab-tree/src/traversal.rs:99-116 | from the node a word's path reaches, climbing to the root reads the word reversed |
| `ArenaDfs.PathToRootSpellsWord` | vocab-tree/src/traversal.rs:164-187 | `path_to_root` of the `End` node under a word gives that word reversed |
| `ArenaDfs.EndItems` | vocab-tree/src/traversal.rs:81-90 | the value listing keeps at most one item per node visited |
| `ArenaDfs.EndItemsMembers` | vocab-tree/src/traversal.rs:81-90 | the listing holds exactly the (word, value) items of the `End` nodes visited |
| `ArenaDfs.EndItemsSorted` | vocab-tree/src/traversal.rs:81-90 | nodes visited in value order give a listing in value order |
| `ArenaDfs.IterValuesUnordered` | vocab-tree/src/traversal.rs:80-90 | the `End` nodes of the depth-first walk from the root, each with its path to the root and its value; `ValuesListEveryEnd` states which items it holds |
| `ArenaDfs.ValuesListEveryEnd` | vocab-tree/src/traversal.rs:81-90 | the unordered listing holds every stored word with its value, and nothing else |
| `ArenaBestFirst.LessOrder` | vocab-tree/src/traversal_inorder.rs:15-30 | the heap item order is a strict total order |
| `ArenaBestFirst.MaxAt` | vocab-tree/src/traversal_inorder.rs:65-107 | a position inside a non-empty heap |
| `ArenaBestFirst.MaxAtGreatest` | vocab-tree/src/traversal_inorder.rs:65-107 | no item of the heap is greater than the one at that position, so the pop takes a greatest item |
| `ArenaBestFirst.ChildItems` | vocab-tree/src/traversal_inorder.rs:65-107 | the items pushed for a node are its admitted children, with their values, one level deeper |
| `ArenaBestFirst.Step` | vocab-tree/src/traversal_inorder.rs:65-107 | one pop-and-push keeps the heap's items admitted and in range |
| `ArenaBestFirst.StepShrinks` | vocab-tree/src/traversal_inorder.rs:65-107 | the pending work strictly shrinks, so the walk ends |
| `ArenaBestFirst.Walk` | vocab-tree/src/traversal_inorder.rs:65-107 | the sequence the iterator yields from a heap |
| `ArenaBestFirst.Initial` | vocab-tree/src/traversal_inorder.rs:40-55 | an empty arena gives an empty heap; otherwise one item for the start, carrying the root's value |
| `ArenaBestFirst.DijkstraTraversal.FromIndex` | vocab-tree/src/traversal_inorder.rs:40-55 | the traversal starts from the given index |
| `ArenaBestFirst.DijkstraTraversal.FromRoot` | vocab-tree/src/traversal_inorder.rs:33-38 | the traversal starts from index 0 |
| `ArenaBestFirst.DijkstraTraversal.Next` | vocab-tree/src/traversal_inorder.rs:65-107 | yields the head of the remaining walk and leaves its tail; none once the walk is over |
| `ArenaBestFirst.Pop` | vocab-tree/src/traversal_inorder.rs:65-107 | pops a greatest item and pushes its children; the walk is that item followed by the walk of the new heap |
| `ArenaBestFirst.PopPosition` | vocab-tree/src/traversal_inorder.rs:65-107 | the loop finds the position of a greatest item |
| `ArenaBestFirst.RootValueLeast` | vocab-tree/src/traversal_inorder.rs:162-174 | in an arena whose values grow downwards, the root's value is the least |
| `ArenaBestFirst.WalkSorted` | vocab-tree/src/traversal_inorder.rs:162-174 | in an arena whose values never decrease downwards, the walk yields items in non-decreasing value order, none below the bound the heap respects |
| `ArenaBestFirst.TraversalSorted` | vocab-tree/src/traversal_inorder.rs:162-174 | in an arena whose values never decrease downwards, the walk from any start is in value order |
| `ArenaBestFirst.EmptyArenaYieldsNothing` | vocab-tree/src/traversal_inorder.rs:45-48 | an empty arena yields nothing |
| `ArenaBestFirst.WalkExact` | vocab-tree/src/traversal_inorder.rs:65-107 | from a heap whose items already carry their nodes' values, every item yielded carries its node's value |
| `ArenaBestFirst.IterValuesOrdered` | vocab-tree/src/traversal_inorder.rs:115-125 | the `End` nodes of the best-first walk from the root, each with its path to the root and its value; `ValuesListEveryEnd` states which items it holds and `ValuesOrdered` their order |
| `ArenaBestFirst.ValuesOrdered` | vocab-tree/src/traversal_inorder.rs:115-125 | in an arena whose values never decrease downwards, the ordered value listing is in non-decreasing value order |
| `ArenaBestFirst.ValuesListEveryEnd` | vocab-tree/src/traversal_inorder.rs:115-125 | the ordered listing holds every stored word with its value, and nothing else |
| `ArenaBestFirst.WalkNodeValuesSorted` | vocab-tree/src/traversal_inorder.rs:115-125 | in an arena whose values never decrease downwards, the nodes the walk from the root visits are in value order |
| `ArenaBestFirst.ItemFor` | vocab-tree/src/traversal_inorder.rs:40-107 | the heap item for an entry: its index and depth, with the node's value (the root's value for the start) |
| `ArenaBestFirst.HeapInWalk` | vocab-tree/src/traversal_inorder.rs:65-107 | every item in the heap is yielded at some point |
| `ArenaBestFirst.StepPushes` | vocab-tree/src/traversal_inorder.rs:74-98 | after the pop, the new heap ends with the items of the admitted children, in order, each with its node's value one level deeper |
| `ArenaBestFirst.PushedItem` | vocab-tree/src/traversal_inorder.rs:74-98 | each admitted child of the popped item is in the new heap |
| `ArenaBestFirst.WalkClosed` | vocab-tree/src/traversal_inorder.rs:65-107 | for every item yielded, the item of each child the pattern admits below it is yielded too |
| `ArenaBestFirst.WalkIsClosed` | vocab-tree/src/traversal_inorder.rs:65-107 | the same, stated as a property of the whole yielded sequence |
| `ArenaBestFirst.StartPopped` | vocab-tree/src/traversal_inorder.rs:40-55 | the start's item is yielded |
| `ArenaBestFirst.ClosedHoldsPath` | vocab-tree/src/traversal_inorder.rs:65-107 | a closed sequence holding the start's item holds the item of every entry whose path down from the start fits the pattern |
| `ArenaBestFirst.WalkComplete` | vocab-tree/src/traversal_inorder.rs:40-107 | every node reached from the start along a path that fits the pattern is yielded, with its value and depth |
| `ArenaBestFirst.StepReaches` | vocab-tree/src/traversal_inorder.rs:65-107 | one pop-and-push keeps every heap item reached from the start |
| `ArenaBestFirst.WalkReaches` | vocab-tree/src/traversal_inorder.rs:65-107 | every item yielded from a heap of reached items is reached |
| `ArenaBestFirst.StepItemsFor` | vocab-tree/src/traversal_inorder.rs:74-98 | one pop-and-push keeps every heap item equal to its `ItemFor`: its node's value, the root's value for the depth-0 start item |
| `ArenaBestFirst.WalkItemsFor` | vocab-tree/src/traversal_inorder.rs:65-107 | every item yielded from such a heap equals its `ItemFor`: its node's value, the root's value for the depth-0 start item |
| `ArenaBestFirst.TraversalExactly` | vocab-tree/src/traversal_inorder.rs:40-107 | the walk from a start yields an item iff it is the `ItemFor` of an entry reached from the start along a path that fits the pattern: its node's value, the root's value for the depth-0 start item |
| `ArenaBestFirst.SubtreesTrade` | vocab-tree/src/traversal_inorder.rs:74-98 | replacing one index by its children takes exactly that node out of the subtrees below the indices |
| `ArenaBestFirst.StepSubtrees` | vocab-tree/src/traversal_inorder.rs:65-107 | without a pattern, one pop-and-push removes exactly the popped node from the subtrees under the heap |
| `ArenaBestFirst.WalkVisitsSubtrees` | vocab-tree/src/traversal_inorder.rs:65-107 | without a pattern, the indices yielded are, as a multiset, the subtrees of the heap's items |
| `ArenaBestFirst.RootWalkIsSubtree` | vocab-tree/src/traversal_inorder.rs:33-107 | without a pattern, the walk from the root yields the root's subtree, as a multiset |
| `ArenaBestFirst.EveryNodeVisitedOnce` | vocab-tree/src/traversal_inorder.rs:135-160 | without a pattern, the walk from the root yields every node exactly once, as many items as there are nodes |
| `LetterBoxed.Update` | letter-boxed/src/main.rs:45-49 | writing a cell sets that cell and keeps every other |
| `LetterBoxed.At` | letter-boxed/src/main.rs:37-43 | the cell at a position on the board; positions off the board are excluded, where the source's indexing panics |
| `LetterBoxed.BoardsEqual` | letter-boxed/src/main.rs:37-49 | two boards with equal cells are equal |
| `LetterBoxed.Or` | letter-boxed/src/main.rs:51-62 | the OR of two 4 by 3 boards is again 4 by 3; its cells are stated by `OrAt` |
| `LetterBoxed.OrAt` | letter-boxed/src/main.rs:51-62 | a cell of the OR is set iff it is set in either board |
| `LetterBoxed.BitOr` | letter-boxed/src/main.rs:51-62 | the loop over all positions produces exactly the cellwise OR |
| `LetterBoxed.OrCommutes` | letter-boxed/src/main.rs:51-62 | OR is commutative |
| `LetterBoxed.OrIdempotent` | letter-boxed/src/main.rs:51-62 | OR is idempotent |
| `LetterBoxed.OrIdentity` | letter-boxed/src/main.rs:51-62 | the all-false board is OR's identity |
| `LetterBoxed.FlattenAt` | letter-boxed/src/main.rs:65-71 | cell k of the flattened board is the cell at side k / 3, index k % 3 |
| `LetterBoxed.AllTrue` | letter-boxed/src/main.rs:65-67 | every flattened cell is set; `AllTrueAllFalseCells` restates it over positions |
| `LetterBoxed.AllFalse` | letter-boxed/src/main.rs:69-71 | every flattened cell is clear; `AllTrueAllFalseCells` restates it over positions |
| `LetterBoxed.AllTrueAllFalseCells` | letter-boxed/src/main.rs:65-71 | `all_true` (`all_false`) holds iff every cell is set (clear) |
| `LetterBoxed.AllFalseIsDefault` | letter-boxed/src/main.rs:65-83 | only the default board is all false |
| `LetterBoxed.OrKeepsAllTrue` | letter-boxed/src/main.rs:51-67 | OR with a won board is won |
| `LetterBoxed.AllMoves` | letter-boxed/src/main.rs:213-218 | the twelve positions, side-major |
| `LetterBoxed.AllMovesExactly` | letter-boxed/src/main.rs:213-218 | every board position occurs, in strictly increasing order, so exactly once |
| `LetterBoxed.ValidMoves` | letter-boxed/src/main.rs:220-224 | exactly the positions on another side |
| `LetterBoxed.ValidMovesFromBoard` | letter-boxed/src/main.rs:220-224 | from a board position there are nine valid moves, in side-major order |
| `LetterBoxed.NewLetters` | letter-boxed/src/main.rs:91-98 | cell [i][j] holds the j-th char of side string i |
| `LetterBoxed.Upper` | letter-boxed/src/main.rs:127-146 | each ASCII letter uppercased, other chars unchanged |
| `LetterBoxed.UpperByteLen` | letter-boxed/src/main.rs:127-146 | uppercasing keeps the length in bytes that the filter reads |
| `LetterBoxed.Cased` | letter-boxed/src/main.rs:127-146 | the word as the loop stores it: uppercased for this program, as written for the second; the byte length is kept, and an uppercased word has no lowercase letter |
| `LetterBoxed.LoadVocabulary` | letter-boxed/src/main.rs:127-146 | the loop stores exactly the selected entries, cased, in order |
| `LetterBoxed.Kept` | letter-boxed/src/main.rs:127-146 | the first n lines contribute at most n entries; `KeptSound` and `KeptGrows` state which |
| `LetterBoxed.Selected` | letter-boxed/src/main.rs:127-146 | at most 50000 entries are stored; `SelectedComplete` states which |
| `LetterBoxed.KeptGrows` | letter-boxed/src/main.rs:127-146 | reading more lines only extends what is kept |
| `LetterBoxed.KeptSound` | letter-boxed/src/main.rs:127-146 | every stored entry is an input word, cased, of at least three bytes, with its popularity; uppercased entries hold no lowercase letter |
| `LetterBoxed.SelectedComplete` | letter-boxed/src/main.rs:127-146 | a long enough word met before the 50000th stored word is stored, cased, at its place |
| `LetterBoxed.SelectedAtStop` | letter-boxed/src/main.rs:127-146 | the loop may stop at the end of the input or at 50000 words without losing an entry |
| `LetterBoxed.UpperLines` | solver/src/main.rs:96-115 | the word list with every word uppercased and every popularity kept |
| `LetterBoxed.KeptUppercased` | solver/src/main.rs:96-115 | uppercasing while reading keeps the same entries as reading an uppercased list as written |
| `LetterBoxed.SelectedUppercased` | solver/src/main.rs:96-115 | the two programs store the same entries once the input is uppercased |
| `LetterBoxed.Game.New` | letter-boxed/src/main.rs:91-104 | the game holds the side letters and the vocabulary of the selected entries |
| `LetterBoxed.StartAt` | letter-boxed/src/main.rs:234-237 | the search starts from a cell's letter alone, with only that cell used |
| `LetterBoxed.Neighbours` | letter-boxed/src/main.rs:244-269 | each neighbour is a valid move whose letter keeps the word on the tree's paths, with the word extended and the cell marked |
| `LetterBoxed.NeighbourSpells` | letter-boxed/src/main.rs:244-269 | every neighbour is again a spelled word, one letter longer |
| `LetterBoxed.NeighboursComplete` | letter-boxed/src/main.rs:244-269 | every move to another side that stays on the tree's paths is among the neighbours |
| `LetterBoxed.NeighboursArePrefixes` | letter-boxed/src/main.rs:244-269 | with the vocabulary built from a word list, every word spelled starts some listed word |
| `LetterBoxed.Words` | letter-boxed/src/main.rs:272-280 | exactly the reached words the vocabulary stores |
| `LetterBoxed.WordsAreStored` | letter-boxed/src/main.rs:272-280 | with the vocabulary built from a word list, a reached word is kept iff it is a listed word |
| `LetterBoxed.Start` | letter-boxed/src/main.rs:74-83 | the default state has no letter used and no move |
| `LetterBoxed.Cost` | letter-boxed/src/main.rs:182-182 | a word costs 1000 minus its length in bytes |
| `LetterBoxed.FirstMoves` | letter-boxed/src/main.rs:168-185 | each legal word becomes a state at its end cell, with that word as the only move and its letters used |
| `LetterBoxed.NextMoves` | letter-boxed/src/main.rs:186-202 | each word from the current cell becomes a state at its end, with the word appended and the used letters ORed |
| `LetterBoxed.Successors` | letter-boxed/src/main.rs:162-203 | before any letter is used, every legal word from any cell is a first move; afterwards exactly the words from the current cell |
| `LetterBoxed.SameStateSameSuccessors` | letter-boxed/src/main.rs:74-83 | states equal in the derived sense, which ignores the moves, have successors that pair up equal |
| `LetterBoxed.WinsStayWon` | letter-boxed/src/main.rs:186-208 | every successor of a winning state wins |
| `LetterBoxed.Wins` | letter-boxed/src/main.rs:206-210 | a state wins when every letter has been used; `WinsStayWon` states that winning is kept |
| `Solver.Game.New` | solver/src/main.rs:89-115 | the game holds the given board and the vocabulary of the selected entries, as written |

## Left out

- `Arena.Admitted`: where the pattern names a key, its own contract states only that every admitted child has that key. `AdmittedExactly` states the converse too: every child that fits is admitted.
- `ArenaDfs.WalkConforms`, `ArenaDfs.TraversalConforms`: these state soundness only. Completeness is `WalkComplete`, and both directions together are `TraversalExactly`.
- `PathTraversal.ItemsWalkConforms`, `PathTraversal.TraversalConforms`: these state soundness only. Completeness is `ItemsWalkComplete`, and both directions together are `TraversalExactly`.
- `ArenaBestFirst.MaxAt`: its contract only bounds the position. `MaxAtGreatest` states that the item there is a greatest one.
- I/O:
  - Reading the puzzle from the newspaper's page (`today`, `from_nytimes_html`).
  - The embedded word lists.
  - Parsing the lines of a word list.
  - Printing, timing and the `main` functions.

  A word list is an input sequence of (word, popularity) pairs, which stands for the parsed lines.
- Some parts of the search have no code in the source files:
  - The graph-search library (`dfs_reach`, `dijkstra_reach`, `yen`).
  - The outer loop of `all_possible_words` over the twelve cells.
  - `solve`'s iteration over reachable states.

  Only the neighbour closures and the final filters are modelled: `Neighbours`, `Words`, `Successors` and the `Wins` predicate.
- The arena trie behind `traversal.rs` and `traversal_inorder.rs` is not part of this model. `Arena` states only the interface those traversals use, as well-formedness predicates.
- `Arena.Monotone`: that values never decrease from a parent to a child is an assumed invariant of the arena's `Trie::push`, which is not part of this model. The value-order lemmas of `ArenaBestFirst` (`RootValueLeast`, `WalkSorted`, `TraversalSorted`, `ValuesOrdered`, `WalkNodeValuesSorted`) require it; without it a child whose value is below its parent's is still popped after the parent.
- `BinaryHeap` is a sequence from which a greatest item is taken. Its tree layout is library code.
- The strands program and `crossword/src/puzzle.rs` are not part of this model. The crossword clue's `is_filled` and `is_empty` and the tests in `square.rs` are unimplemented (`todo!()`).
- `Squares.IsEmpty`, `Squares.IsBlocked`, `Squares.Matches`: these are predicates that restate one comparison each, and they have no contract of their own. `FromByte`, `Render` and `SquaresOf` state how they behave.
- `LetterBoxed.Upper`: uppercases ASCII letters only. `str::to_uppercase` also maps non-ASCII letters, and may change their length.
- `LetterBoxed.Cost`: requires the word to be at most 1000 bytes long. The source's unsigned subtraction would panic in debug builds above that.
- `PrefixTree.Node.Set`, `VocabTrie.TrieNode.Insert`, `VocabTrie.TrieNode.Remove`, `SentinelNode.Node.FindDescendent`: their own contracts are local facts. Their effect on every lookup is stated by `SetGetEffect`, `InsertEffect`, `RemoveEffect` and `FindDescendentSteps`.
- `ArenaDfs.EndItems`: its contract bounds only the length. Its members and order are stated by `EndItemsMembers` and `EndItemsSorted`.
- The tests in `traversal.rs` (lines 123-187) and `traversal_inorder.rs` (lines 135-174) are not reproduced as concrete cases, because building the arena by `Trie::push` is not part of this model. The general lemmas state what each test relies on:
  - the node count of the first test is `ArenaDfs.CountIsNodeCount`;
  - the pattern test relies on the walk yielding exactly the entries whose path fits the pattern (`ArenaDfs.TraversalExactly`), so nodes of words that do not fit add nothing;
  - the ordered test relies on every node being yielded once (`ArenaBestFirst.EveryNodeVisitedOnce`) and in value order (`ArenaBestFirst.WalkNodeValuesSorted`);
  - the unordered listing test relies on `ArenaDfs.ValuesListEveryEnd`;
  - the ordered listing test relies on `ArenaBestFirst.ValuesListEveryEnd` and `ArenaBestFirst.ValuesOrdered`.
- `PartialWordIndex.ConvertedWords`, `PartialWordIndex.IndexMeansMatching`: these use the corrected conversion `Words.FromBytes`. The source's written check also keeps strings with non-letter bytes, and `Vocab::new` then panics on them. `New` and `MatchesAfterNew` therefore require `KeptAreLetters`, under which `ConvertedAsWritten` shows the two conversions agree. The panic itself is not modelled, only exhibited by `PanicsOtherwise`.
- `PartialWordIndex.Partials` gives the empty word one partial, the empty sequence. Some versions of the product adaptor yield nothing for an empty product. The word list's words are never empty in practice.
- The formatter's `fmt::Error` paths are not modelled. Writing to a string cannot fail.

## Findings

| source | as written | input that shows it | evidently intended | confidence | as-written member | corrected member |
|---|---|---|---|---|---|---|
| crossword/src/word.rs:20-27 | the check accepts every uppercased byte in decimal 41..=90, which includes `)`, `*`, `+`, `,`, `-`, `.`, `/`, the digits and `:`..`@` | the byte string "3" is accepted as a word, and `Vocab::new`'s conversion of that digit to a square then fails | the range of uppercase letters, 65..=90 (0x41..=0x5A) | not executed | `Words.FromBytesAsWritten` | `Words.FromBytes` |
| crossword/src/clue.rs:24-31 | an across clue takes its column from the start's row, and a down clue takes its row from the start's column | an across clue of length 2 starting at row 0, column 2 covers (0, 0) and (0, 1), not its start | across clues start at the start's column, and down clues at the start's row | not executed | `Clues.PositionsAsWritten` | `Clues.Positions` |
