/** A crossword answer: a sequence of uppercase ASCII bytes. The conversion from
    bytes accepts every uppercased byte in decimal 41..=90, which lets through
    `')'`, `'*'`, `'+'`, `','`, `'-'`, `'.'`, `'/'`, the digits and `':'`..`'@'`,
    although the range is meant to be the uppercase letters 65..=90 (0x41..=0x5A).
    Both checks are modelled; the partial-word index uses the letter check. */
module Words {
  import opened Wrappers
  import opened Squares

  datatype Word = Word(chars: seq<byte>)

  /** `Word::len` (crossword/src/word.rs:11-13). */
  function Len(w: Word): (r: nat)
    ensures r == |w.chars|
  {
    |w.chars|
  }

  /** `u8::to_ascii_uppercase`: lowercase letters move down by 32, other bytes stay. */
  function ToUpper(c: byte): (r: byte)
    ensures IsAsciiLowercase(c) ==> r == c - 32 && IsAsciiUppercase(r)
    ensures !IsAsciiLowercase(c) ==> r == c
  {
    if IsAsciiLowercase(c) then c - 32 else c
  }

  function UpperAll(v: seq<byte>): (r: seq<byte>)
    ensures |r| == |v| && forall i :: 0 <= i < |v| ==> r[i] == ToUpper(v[i])
  {
    seq(|v|, i requires 0 <= i < |v| => ToUpper(v[i]))
  }

  /** The range check as written: decimal 41..=90 (crossword/src/word.rs:24-27). */
  predicate InWrittenRange(c: byte)
  {
    41 <= c <= 90
  }

  /** `TryFrom<&[u8]>` as written: accepted iff every uppercased byte is in
      41..=90, storing the uppercased bytes; an empty input is accepted
      (crossword/src/word.rs:19-36). */
  function FromBytesAsWritten(v: seq<byte>): (r: Result<Word, string>)
    ensures r.Ok? <==> forall i :: 0 <= i < |v| ==> InWrittenRange(ToUpper(v[i]))
    ensures r.Ok? ==> r.value.chars == UpperAll(v) && Len(r.value) == |v|
    ensures r.Err? ==> r.error == "Not valid ASCII."
  {
    var up := UpperAll(v);
    if forall i :: 0 <= i < |up| ==> InWrittenRange(up[i]) then Ok(Word(up))
    else Err("Not valid ASCII.")
  }

  /** The written check accepts the digit `'3'`, which is no square: the word
      index, which turns every byte of a word into a square and unwraps the
      result, would panic on the word "3". */
  lemma WrittenRangeAdmitsDigit()
    ensures FromBytesAsWritten(['3' as int]).Ok?
    ensures FromBytes(['3' as int]).Err?
    ensures FromByte(FromBytesAsWritten(['3' as int]).value.chars[0]).Err?
  {
    assert !IsAsciiLowercase('3' as int);
    assert UpperAll(['3' as int])[0] == '3' as int;
  }

  /** `TryFrom<&[u8]>` with the uppercase range the comment names (65..=90):
      accepted iff every uppercased byte is a letter, so every input letter of
      either case is accepted and anything else refused. */
  function FromBytes(v: seq<byte>): (r: Result<Word, string>)
    ensures r.Ok? <==> forall i :: 0 <= i < |v| ==> IsAsciiUppercase(ToUpper(v[i]))
    ensures r.Ok? ==> r.value.chars == UpperAll(v) && Len(r.value) == |v|
    ensures r.Err? ==> r.error == "Not valid ASCII."
  {
    var up := UpperAll(v);
    if forall i :: 0 <= i < |up| ==> IsAsciiUppercase(up[i]) then Ok(Word(up))
    else Err("Not valid ASCII.")
  }

  /** A well-formed word: uppercase letters only. */
  predicate ValidWord(w: Word)
  {
    forall i :: 0 <= i < |w.chars| ==> IsAsciiUppercase(w.chars[i])
  }

  /** Every word the corrected conversion accepts is made of letters, each of
      which converts to a square holding it. */
  lemma FromBytesGivesSquares(v: seq<byte>)
    requires FromBytes(v).Ok?
    ensures ValidWord(FromBytes(v).value)
    ensures forall i :: 0 <= i < |v| ==>
      FromByte(FromBytes(v).value.chars[i]) == Ok(Square(FromBytes(v).value.chars[i]))
  {
  }

  /** The corrected check accepts exactly the words of letters, of either case:
      a letter-only input is accepted, and any other input is refused. */
  lemma FromBytesAcceptsLetters(v: seq<byte>)
    ensures FromBytes(v).Ok? <==> forall i :: 0 <= i < |v| ==> IsAsciiUppercase(v[i]) || IsAsciiLowercase(v[i])
  {
    if FromBytes(v).Ok? {
      forall i | 0 <= i < |v| ensures IsAsciiUppercase(v[i]) || IsAsciiLowercase(v[i]) {
        assert IsAsciiUppercase(ToUpper(v[i]));
      }
    }
  }

  /** The written check accepts everything the corrected one does. */
  lemma WrittenAcceptsMore(v: seq<byte>)
    requires FromBytes(v).Ok?
    ensures FromBytesAsWritten(v) == FromBytes(v)
  {
  }

  /** Converting an already uppercased word gives it back. */
  lemma FromBytesIdempotent(v: seq<byte>)
    requires FromBytes(v).Ok?
    ensures FromBytes(FromBytes(v).value.chars) == FromBytes(v)
  {
    var up := FromBytes(v).value.chars;
    assert UpperAll(up) == up;
  }
}
