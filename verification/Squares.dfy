/** Board squares and their algebraic names ("a1" .. "h8"). */
module Squares {
  import opened Wrappers

  /** A file or rank index, 0 for file a / rank 1 up to 7 for file h / rank 8. */
  type Index = i: int | 0 <= i < 8

  datatype Square = Square(file: Index, rank: Index)

  function FileChar(f: Index): char
  {
    ('a' as int + f) as char
  }

  function RankChar(r: Index): char
  {
    ('1' as int + r) as char
  }

  /** The two-character name the bot uses as a mapping key, file letter first. */
  function SquareName(s: Square): (n: string)
    ensures |n| == 2
    ensures 'a' <= n[0] <= 'h' && '1' <= n[1] <= '8'
  {
    [FileChar(s.file), RankChar(s.rank)]
  }

  /** Reads a name back; anything that is not a file letter followed by a rank digit is rejected. */
  function ParseSquareName(n: string): (r: Option<Square>)
    ensures r.Some? <==> |n| == 2 && 'a' <= n[0] <= 'h' && '1' <= n[1] <= '8'
  {
    if |n| == 2 && 'a' <= n[0] <= 'h' && '1' <= n[1] <= '8' then
      Some(Square(n[0] as int - 'a' as int, n[1] as int - '1' as int))
    else
      None
  }

  lemma NameRoundTrip(s: Square)
    ensures ParseSquareName(SquareName(s)) == Some(s)
  {
  }

  lemma ParseRoundTrip(n: string)
    requires ParseSquareName(n).Some?
    ensures SquareName(ParseSquareName(n).value) == n
  {
  }

  lemma NameInjective(s: Square, t: Square)
    ensures SquareName(s) == SquareName(t) ==> s == t
  {
    if SquareName(s) == SquareName(t) {
      NameRoundTrip(s);
      NameRoundTrip(t);
    }
  }

  /** The point reflection through the board centre: file a <-> h, rank 1 <-> 8. */
  function Mirror(s: Square): (m: Square)
    ensures m.file + s.file == 7 && m.rank + s.rank == 7
  {
    Square(7 - s.file, 7 - s.rank)
  }

  /** All 64 square names. */
  function AllSquareNames(): set<string>
  {
    set f: Index, r: Index | 0 <= f < 8 && 0 <= r < 8 :: SquareName(Square(f, r))
  }
}
