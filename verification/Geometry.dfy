/**
 * The square <-> pixel geometry of the rendered board: the 8x8 grid the bot
 * lays over the board's bounding box, key lookup, and the point-in-rectangle
 * search that turns a piece's pixel offset back into a square name.
 */
module Geometry {
  import opened Wrappers
  import opened Squares

  datatype Point = Point(x: real, y: real)

  /** A square's pixel area; the top and left edges belong to it, the bottom and right ones do not. */
  datatype Rect = Rect(topLeft: Point, bottomRight: Point)

  datatype Entry = Entry(name: string, rect: Rect)

  /** The bot's square -> rectangle dictionary, in the order its entries were inserted. */
  type Mapping = seq<Entry>

  predicate Contains(r: Rect, x: real, y: real)
  {
    r.topLeft.x <= x < r.bottomRight.x && r.topLeft.y <= y < r.bottomRight.y
  }

  function Keys(m: Mapping): set<string>
  {
    set i | 0 <= i < |m| :: m[i].name
  }

  predicate NamesDistinct(m: Mapping)
  {
    forall i, j :: 0 <= i < |m| && 0 <= j < |m| && m[i].name == m[j].name ==> i == j
  }

  const Files: string := "abcdefgh"
  const Ranks: string := "12345678"

  function Reverse(s: string): (r: string)
    ensures |r| == |s|
  {
    seq(|s|, i requires 0 <= i < |s| => s[|s| - 1 - i])
  }

  /** Only the exact colour "black" flips the board; every other value keeps white at the bottom. */
  predicate IsBlack(playingAs: string)
  {
    playingAs == "black"
  }

  function FilesFor(playingAs: string): (r: string)
    ensures |r| == 8
  {
    if IsBlack(playingAs) then Reverse(Files) else Files
  }

  function RanksFor(playingAs: string): (r: string)
    ensures |r| == 8
  {
    if IsBlack(playingAs) then Reverse(Ranks) else Ranks
  }

  /** The pixel offset of the i-th band of a grid whose bands are `len` wide. */
  function Band(i: int, len: real): real
  {
    i as real * len
  }

  /** The cell enumerated at rank position `ri` and file position `fi`. */
  function Cell(files: string, ranks: string, sw: real, sh: real, ri: Index, fi: Index): Entry
    requires |files| == 8 && |ranks| == 8
  {
    var topLeft := Point(Band(fi, sw), Band(7 - ri, sh));
    Entry([files[fi], ranks[ri]], Rect(topLeft, Point(topLeft.x + sw, topLeft.y + sh)))
  }

  /**
   * The dictionary built for a board of `width` x `height` pixels: rank-major
   * enumeration of the (possibly reversed) rank and file strings, entry k being
   * rank position k / 8 and file position k % 8.
   */
  function GenerateSquarePixelMapping(playingAs: string, width: real, height: real): (m: Mapping)
    ensures |m| == 64
  {
    var files := FilesFor(playingAs);
    var ranks := RanksFor(playingAs);
    seq(64, k requires 0 <= k < 64 => Cell(files, ranks, width / 8.0, height / 8.0, k / 8, k % 8))
  }

  /** The rectangle the white-at-bottom layout gives square `s`: file a on the left, rank 8 at the top. */
  function WhiteLayout(width: real, height: real, s: Square): Rect
  {
    var sw := width / 8.0;
    var sh := height / 8.0;
    Rect(Point(Band(s.file, sw), Band(7 - s.rank, sh)),
         Point(Band(s.file, sw) + sw, Band(7 - s.rank, sh) + sh))
  }

  /** The rectangle of `s` for the given colour: black sees the white board turned half a turn. */
  function LayoutRect(playingAs: string, width: real, height: real, s: Square): Rect
  {
    if IsBlack(playingAs) then WhiteLayout(width, height, Mirror(s)) else WhiteLayout(width, height, s)
  }

  /** The square the k-th inserted entry names. */
  function SquareAt(playingAs: string, k: int): Square
    requires 0 <= k < 64
  {
    if IsBlack(playingAs) then Square(7 - k % 8, 7 - k / 8) else Square(k % 8, k / 8)
  }

  /** The insertion position of square `s`'s entry. */
  function IndexOf(playingAs: string, s: Square): (k: int)
    ensures 0 <= k < 64 && SquareAt(playingAs, k) == s
  {
    if IsBlack(playingAs) then (7 - s.rank) * 8 + (7 - s.file) else s.rank * 8 + s.file
  }

  /** `dict.get(name)`: the rectangle of the first entry carrying `name`. */
  function Lookup(m: Mapping, name: string): (r: Option<Rect>)
    ensures r.None? <==> name !in Keys(m)
    ensures r.Some? ==> exists i :: 0 <= i < |m| && m[i].name == name && m[i].rect == r.value
  {
    if |m| == 0 then None
    else if m[0].name == name then Some(m[0].rect)
    else
      var r := Lookup(m[1..], name);
      assert forall i :: 0 <= i < |m| - 1 ==> m[1..][i] == m[i + 1];
      assert Keys(m) == {m[0].name} + Keys(m[1..]);
      r
  }

  /**
   * `find_square_for_pixel`: the name of the first entry, in insertion order,
   * whose half-open rectangle holds (x, y), or None when there is none.
   */
  function FindSquareForPixel(x: real, y: real, m: Mapping): (r: Option<string>)
    ensures r.None? <==> forall i :: 0 <= i < |m| ==> !Contains(m[i].rect, x, y)
    ensures r.Some? ==> exists i :: 0 <= i < |m| && m[i].name == r.value && Contains(m[i].rect, x, y)
  {
    if |m| == 0 then None
    else if Contains(m[0].rect, x, y) then Some(m[0].name)
    else
      var r := FindSquareForPixel(x, y, m[1..]);
      assert forall i :: 0 <= i < |m| - 1 ==> m[1..][i] == m[i + 1];
      r
  }

  // ---------------------------------------------------------------------------
  // Facts about the generated mapping
  // ---------------------------------------------------------------------------

  lemma FilesSpelled(i: Index)
    ensures Files[i] == FileChar(i) && Ranks[i] == RankChar(i)
  {
    if i == 0 {} else if i == 1 {} else if i == 2 {} else if i == 3 {}
    else if i == 4 {} else if i == 5 {} else if i == 6 {} else {}
  }

  /** Position i of the reversed file (rank) string holds the letter (digit) of file (rank) 7 - i. */
  lemma ReversedIndex(i: Index)
    ensures Reverse(Files)[i] == FileChar(7 - i) && Reverse(Ranks)[i] == RankChar(7 - i)
  {
    FilesSpelled(7 - i);
  }

  /** Entry k of the mapping is square `SquareAt(k)` with that square's layout rectangle. */
  lemma EntryAt(playingAs: string, width: real, height: real, k: int)
    requires 0 <= k < 64
    ensures var m := GenerateSquarePixelMapping(playingAs, width, height);
            m[k] == Entry(SquareName(SquareAt(playingAs, k)), LayoutRect(playingAs, width, height, SquareAt(playingAs, k)))
  {
    var fi: Index := k % 8;
    var ri: Index := k / 8;
    var files := FilesFor(playingAs);
    var ranks := RanksFor(playingAs);
    var e := Cell(files, ranks, width / 8.0, height / 8.0, ri, fi);
    assert GenerateSquarePixelMapping(playingAs, width, height)[k] == e;
    var s := SquareAt(playingAs, k);
    if IsBlack(playingAs) {
      assert s == Square(7 - fi, 7 - ri);
      ReversedIndex(fi);
      ReversedIndex(ri);
      assert Mirror(s) == Square(fi, ri);
    } else {
      assert s == Square(fi, ri);
      FilesSpelled(fi);
      FilesSpelled(ri);
    }
    assert e.name == SquareName(s);
    assert e.rect == LayoutRect(playingAs, width, height, s);
  }

  /** The mapping has one entry per square of the board, 64 distinct keys, for either colour. */
  lemma MappingKeys(playingAs: string, width: real, height: real)
    ensures var m := GenerateSquarePixelMapping(playingAs, width, height);
            Keys(m) == AllSquareNames() && NamesDistinct(m) && |Keys(m)| == 64
  {
    var m := GenerateSquarePixelMapping(playingAs, width, height);
    forall k | 0 <= k < 64
      ensures m[k].name == SquareName(SquareAt(playingAs, k))
    {
      EntryAt(playingAs, width, height, k);
    }
    forall n | n in Keys(m)
      ensures n in AllSquareNames()
    {
      var k :| 0 <= k < 64 && m[k].name == n;
      var s := SquareAt(playingAs, k);
      assert n == SquareName(Square(s.file, s.rank));
    }
    forall n | n in AllSquareNames()
      ensures n in Keys(m)
    {
      var f: Index, r: Index :| n == SquareName(Square(f, r));
      var k := IndexOf(playingAs, Square(f, r));
      assert m[k].name == n;
    }
    forall i, j | 0 <= i < 64 && 0 <= j < 64 && m[i].name == m[j].name
      ensures i == j
    {
      NameInjective(SquareAt(playingAs, i), SquareAt(playingAs, j));
    }
    assert |Keys(m)| == 64 by {
      DistinctKeysCount(m);
    }
  }

  lemma {:induction false} DistinctKeysCount(m: Mapping)
    requires NamesDistinct(m)
    ensures |Keys(m)| == |m|
  {
    if |m| > 0 {
      var t := m[..|m| - 1];
      assert forall i :: 0 <= i < |t| ==> t[i] == m[i];
      assert NamesDistinct(t);
      DistinctKeysCount(t);
      assert Keys(m) == Keys(t) + {m[|m| - 1].name};
      assert m[|m| - 1].name !in Keys(t);
    }
  }

  /** In a mapping whose keys are distinct, `get` returns the entry that carries the key. */
  lemma LookupDistinct(m: Mapping, k: int)
    requires NamesDistinct(m) && 0 <= k < |m|
    ensures Lookup(m, m[k].name) == Some(m[k].rect)
  {
  }

  /**
   * Looking a square up in the freshly built mapping yields its layout
   * rectangle: width/8 by height/8, placed white-at-bottom unless playing black.
   */
  lemma MappingLookup(playingAs: string, width: real, height: real, s: Square)
    ensures Lookup(GenerateSquarePixelMapping(playingAs, width, height), SquareName(s))
            == Some(LayoutRect(playingAs, width, height, s))
  {
    var m := GenerateSquarePixelMapping(playingAs, width, height);
    var k := IndexOf(playingAs, s);
    MappingKeys(playingAs, width, height);
    EntryAt(playingAs, width, height, k);
    LookupDistinct(m, k);
  }

  /** The black board is the white board reflected through its centre: black a1 sits where white h8 does. */
  lemma BlackIsMirrorOfWhite(width: real, height: real, s: Square)
    ensures Lookup(GenerateSquarePixelMapping("black", width, height), SquareName(s))
            == Lookup(GenerateSquarePixelMapping("white", width, height), SquareName(Mirror(s)))
  {
    MappingLookup("black", width, height, s);
    MappingLookup("white", width, height, Mirror(s));
  }

  // ---------------------------------------------------------------------------
  // Pixel search over the generated mapping
  // ---------------------------------------------------------------------------

  /** A coordinate inside [0, 8 * len) falls in one band [Band(i), Band(i) + len). */
  lemma BandOf(v: real, len: real) returns (i: Index)
    requires len > 0.0 && 0.0 <= v < 8.0 * len
    ensures Band(i, len) <= v < Band(i, len) + len
  {
    i := if v < len then 0 else if v < 2.0 * len then 1 else if v < 3.0 * len then 2
      else if v < 4.0 * len then 3 else if v < 5.0 * len then 4 else if v < 6.0 * len then 5
      else if v < 7.0 * len then 6 else 7;
  }

  lemma MulNonNegative(a: real, b: real)
    requires a >= 0.0 && b >= 0.0
    ensures a * b >= 0.0
  {
  }

  /** A later band starts no earlier than an earlier band ends. */
  lemma BandStep(i: int, j: int, len: real)
    requires i < j && len >= 0.0
    ensures Band(i, len) + len <= Band(j, len)
  {
    var d := (j - i) as real;
    assert d * len >= len by {
      assert d * len - len == (d - 1.0) * len;
      MulNonNegative(d - 1.0, len);
    }
    assert Band(j, len) - Band(i, len) == d * len;
  }

  /** A coordinate in band i lies in [0, 8 * len), and bands are empty unless len is positive. */
  lemma BandBounds(v: real, len: real, i: Index)
    requires Band(i, len) <= v < Band(i, len) + len
    ensures len > 0.0 && 0.0 <= v < 8.0 * len
  {
    assert Band(i, len) >= 0.0;
    BandStep(i, 8, len);
    assert Band(8, len) == 8.0 * len;
  }

  lemma BandUnique(v: real, len: real, i: Index, j: Index)
    requires Band(i, len) <= v < Band(i, len) + len
    requires Band(j, len) <= v < Band(j, len) + len
    ensures i == j
  {
    BandBounds(v, len, i);
    if i < j {
      BandStep(i, j, len);
    } else if j < i {
      BandStep(j, i, len);
    }
  }

  /** Entry k holds (x, y) exactly when x is in file band k % 8 and y in row band 7 - k / 8. */
  lemma EntryContains(playingAs: string, width: real, height: real, k: int, x: real, y: real)
    requires 0 <= k < 64
    ensures var m := GenerateSquarePixelMapping(playingAs, width, height);
            var sw := width / 8.0;
            var sh := height / 8.0;
            Contains(m[k].rect, x, y) <==>
              (Band(k % 8, sw) <= x < Band(k % 8, sw) + sw &&
               Band(7 - k / 8, sh) <= y < Band(7 - k / 8, sh) + sh)
  {
  }

  /** No two entries of the generated mapping share a pixel. */
  lemma ContainingEntryUnique(playingAs: string, width: real, height: real, x: real, y: real, i: int, j: int)
    requires 0 <= i < 64 && 0 <= j < 64
    ensures var m := GenerateSquarePixelMapping(playingAs, width, height);
            Contains(m[i].rect, x, y) && Contains(m[j].rect, x, y) ==> i == j
  {
    var m := GenerateSquarePixelMapping(playingAs, width, height);
    if Contains(m[i].rect, x, y) && Contains(m[j].rect, x, y) {
      EntryContains(playingAs, width, height, i, x, y);
      EntryContains(playingAs, width, height, j, x, y);
      var fi: Index, fj: Index := i % 8, j % 8;
      var ri: Index, rj: Index := 7 - i / 8, 7 - j / 8;
      BandUnique(x, width / 8.0, fi, fj);
      BandUnique(y, height / 8.0, ri, rj);
      assert i == (7 - ri) * 8 + fi && j == (7 - rj) * 8 + fj;
    }
  }

  lemma PointInSomeEntry(playingAs: string, width: real, height: real, x: real, y: real) returns (k: int)
    requires 0.0 <= x < width && 0.0 <= y < height
    ensures 0 <= k < 64 && Contains(GenerateSquarePixelMapping(playingAs, width, height)[k].rect, x, y)
  {
    var fi := BandOf(x, width / 8.0);
    var row := BandOf(y, height / 8.0);
    k := (7 - row as int) * 8 + fi as int;
    EntryContains(playingAs, width, height, k, x, y);
  }

  lemma EntryPointOnBoard(playingAs: string, width: real, height: real, x: real, y: real, k: int)
    requires 0 <= k < 64 && Contains(GenerateSquarePixelMapping(playingAs, width, height)[k].rect, x, y)
    ensures 0.0 <= x < width && 0.0 <= y < height
  {
    EntryContains(playingAs, width, height, k, x, y);
    BandBounds(x, width / 8.0, k % 8);
    BandBounds(y, height / 8.0, 7 - k / 8);
  }

  /** `find_square_for_pixel` finds a square exactly for the points of [0, width) x [0, height). */
  lemma FindSquareForPixelOnBoard(playingAs: string, width: real, height: real, x: real, y: real)
    ensures FindSquareForPixel(x, y, GenerateSquarePixelMapping(playingAs, width, height)).Some?
            <==> 0.0 <= x < width && 0.0 <= y < height
  {
    var m := GenerateSquarePixelMapping(playingAs, width, height);
    if 0.0 <= x < width && 0.0 <= y < height {
      var k := PointInSomeEntry(playingAs, width, height, x, y);
    }
    if FindSquareForPixel(x, y, m).Some? {
      var k :| 0 <= k < |m| && Contains(m[k].rect, x, y);
      EntryPointOnBoard(playingAs, width, height, x, y, k);
    }
  }

  /**
   * The square found for a pixel is the one whose layout rectangle holds it,
   * and no other: `find_square_for_pixel` returns the name of `s` if and only
   * if (x, y) lies in `s`'s rectangle.
   */
  lemma FindSquareForPixelExact(playingAs: string, width: real, height: real, x: real, y: real, s: Square)
    ensures FindSquareForPixel(x, y, GenerateSquarePixelMapping(playingAs, width, height)) == Some(SquareName(s))
            <==> Contains(LayoutRect(playingAs, width, height, s), x, y)
  {
    var m := GenerateSquarePixelMapping(playingAs, width, height);
    var r := FindSquareForPixel(x, y, m);
    var k := IndexOf(playingAs, s);
    EntryAt(playingAs, width, height, k);
    if Contains(LayoutRect(playingAs, width, height, s), x, y) {
      var i :| 0 <= i < |m| && m[i].name == r.value && Contains(m[i].rect, x, y);
      ContainingEntryUnique(playingAs, width, height, x, y, i, k);
    }
    if r == Some(SquareName(s)) {
      var i :| 0 <= i < |m| && m[i].name == r.value && Contains(m[i].rect, x, y);
      EntryAt(playingAs, width, height, i);
      NameInjective(SquareAt(playingAs, i), s);
    }
  }

  /** On a board of positive size, the top-left corner of a square maps back to that square. */
  lemma TopLeftMapsBack(playingAs: string, width: real, height: real, s: Square)
    requires width > 0.0 && height > 0.0
    ensures var tl := LayoutRect(playingAs, width, height, s).topLeft;
            FindSquareForPixel(tl.x, tl.y, GenerateSquarePixelMapping(playingAs, width, height)) == Some(SquareName(s))
  {
    var tl := LayoutRect(playingAs, width, height, s).topLeft;
    FindSquareForPixelExact(playingAs, width, height, tl.x, tl.y, s);
  }
}
