/** A crossword square: one byte that is 0 (empty), 1 (blocked) or an ASCII
    uppercase letter. */
module Squares {
  import opened Wrappers

  type byte = x: int | 0 <= x < 256

  datatype Square = Square(b: byte)

  const Empty: Square := Square(0)
  const Blocked: Square := Square(1)

  predicate IsAsciiUppercase(c: byte)
  {
    'A' as int <= c <= 'Z' as int
  }

  predicate IsAsciiLowercase(c: byte)
  {
    'a' as int <= c <= 'z' as int
  }

  /** The invariant the square type promises (crossword/src/square.rs:6-9). */
  predicate ValidSquare(s: Square)
  {
    s.b <= 1 || IsAsciiUppercase(s.b)
  }

  /** `Square::is_empty` (crossword/src/square.rs:15-17). */
  predicate IsEmpty(s: Square)
  {
    s == Empty
  }

  /** `Square::is_blocked` (crossword/src/square.rs:19-21). */
  predicate IsBlocked(s: Square)
  {
    s == Blocked
  }

  /** `Square::matches`: an empty square admits any byte, any other square only
      its own (crossword/src/square.rs:23-25). */
  predicate Matches(s: Square, c: byte)
  {
    IsEmpty(s) || s.b == c
  }

  /** `TryFrom<u8>`: 0, 1 and the uppercase letters are squares, every other byte
      is refused (crossword/src/square.rs:40-55). */
  function FromByte(v: byte): (r: Result<Square, string>)
    ensures r.Ok? <==> v <= 1 || IsAsciiUppercase(v)
    ensures r.Ok? ==> r.value.b == v && ValidSquare(r.value)
    ensures r.Err? ==> r.error == "Not a valid uppercase ASCII char."
  {
    if v <= 1 then Ok(Square(v))
    else if IsAsciiUppercase(v) then Ok(Square(v))
    else Err("Not a valid uppercase ASCII char.")
  }

  predicate IsUpperChar(c: char)
  {
    'A' <= c <= 'Z'
  }

  predicate IsLowerChar(c: char)
  {
    'a' <= c <= 'z'
  }

  /** `TryFrom<char>`: a space is the empty square, a letter of either case is
      its uppercase square, anything else (`'#'` included) is refused
      (crossword/src/square.rs:57-71). */
  function FromChar(c: char): (r: Result<Square, string>)
    ensures r.Ok? <==> c == ' ' || IsUpperChar(c) || IsLowerChar(c)
    ensures c == ' ' ==> r == Ok(Empty)
    ensures IsUpperChar(c) ==> r == Ok(Square(c as int))
    ensures IsLowerChar(c) ==> r == Ok(Square(c as int - 32))
    ensures r.Ok? ==> ValidSquare(r.value)
    ensures r.Err? ==> r.error == "Not a valid uppercase ASCII char."
  {
    if c == ' ' then Ok(Square(0))
    else if IsUpperChar(c) then Ok(Square(c as int))
    else if IsLowerChar(c) then Ok(Square(c as int - 32))
    else Err("Not a valid uppercase ASCII char.")
  }

  /** The `Debug` rendering: a space for the empty square, `'#'` for the blocked
      one, the letter otherwise (crossword/src/square.rs:28-38). */
  function Render(s: Square): (r: char)
    ensures IsEmpty(s) ==> r == ' '
    ensures IsBlocked(s) ==> r == '#'
    ensures ValidSquare(s) && !IsEmpty(s) && !IsBlocked(s) ==> IsUpperChar(r) && r as int == s.b
  {
    if IsEmpty(s) then ' '
    else if IsBlocked(s) then '#'
    else s.b as char
  }

  /** A space or an uppercase letter read as a square renders back to itself; a
      lowercase letter comes back uppercased. */
  lemma RenderFromChar(c: char)
    requires c == ' ' || IsUpperChar(c) || IsLowerChar(c)
    ensures IsLowerChar(c) ==> Render(FromChar(c).value) == (c as int - 32) as char
    ensures !IsLowerChar(c) ==> Render(FromChar(c).value) == c
  {
  }

  /** Every square the conversions produce renders to a char that reads back
      as the same square, except the blocked one, which `'#'` cannot name. */
  lemma FromCharRender(s: Square)
    requires ValidSquare(s) && !IsBlocked(s)
    ensures FromChar(Render(s)) == Ok(s)
  {
  }
}
