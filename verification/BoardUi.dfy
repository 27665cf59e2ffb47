/**
 * The board-side steps that combine geometry with the piece list: which
 * square each piece sits on, which piece element occupies a square, and the
 * mouse offset of a drag from one square to another.
 */
module BoardUi {
  import opened Wrappers
  import opened Squares
  import opened Geometry
  import opened PieceStyle
  import opened EngineMoves

  /** The square a positioned piece's pixel offset falls in, if any. */
  function SquareOf(p: PiecePosition, m: Mapping): Option<string>
  {
    FindSquareForPixel(p.x as real, p.y as real, m)
  }

  /** Piece `ps[j]` is the last one in the list whose pixel lands on square `k`. */
  predicate LastOn(ps: seq<PiecePosition>, m: Mapping, k: string, j: int)
  {
    0 <= j < |ps| && SquareOf(ps[j], m) == Some(k) &&
    forall j' :: j < j' < |ps| ==> SquareOf(ps[j'], m) != Some(k)
  }

  /**
   * The loop of `map_pieces_to_squares`: each piece is written under the name of
   * its square (when it has one and the name is not empty), so a later piece on
   * the same square overwrites an earlier one.
   */
  function AssignSquares(ps: seq<PiecePosition>, m: Mapping): map<string, string>
  {
    if |ps| == 0 then map[]
    else
      var prev := AssignSquares(ps[..|ps| - 1], m);
      var p := ps[|ps| - 1];
      match SquareOf(p, m)
      case Some(sq) => if sq != "" then prev[sq := p.piece] else prev
      case None => prev
  }

  /** The keys of the piece map are exactly the non-empty square names some piece lands on. */
  lemma {:induction false} AssignSquaresKeys(ps: seq<PiecePosition>, m: Mapping)
    ensures forall k :: k in AssignSquares(ps, m) <==>
              k != "" && exists j :: 0 <= j < |ps| && SquareOf(ps[j], m) == Some(k)
  {
    if |ps| > 0 {
      var init := ps[..|ps| - 1];
      AssignSquaresKeys(init, m);
      assert forall j :: 0 <= j < |init| ==> init[j] == ps[j];
    }
  }

  /** Each square holds the class of the last piece in the list that lands on it. */
  lemma {:induction false} AssignSquaresLastWins(ps: seq<PiecePosition>, m: Mapping, k: string) returns (j: nat)
    requires k in AssignSquares(ps, m)
    ensures k != "" && LastOn(ps, m, k, j) && AssignSquares(ps, m)[k] == ps[j].piece
  {
    var init := ps[..|ps| - 1];
    var p := ps[|ps| - 1];
    if SquareOf(p, m) == Some(k) && k != "" {
      j := |ps| - 1;
    } else {
      j := AssignSquaresLastWins(init, m, k);
      assert forall i :: 0 <= i < |init| ==> init[i] == ps[i];
    }
  }


  /** Every square the assignment fills is a key of the mapping it was built from. */
  lemma AssignSquaresWithinMapping(ps: seq<PiecePosition>, m: Mapping)
    ensures AssignSquares(ps, m).Keys <= Keys(m)
  {
    AssignSquaresKeys(ps, m);
    forall k | k in AssignSquares(ps, m)
      ensures k in Keys(m)
    {
      var j :| 0 <= j < |ps| && SquareOf(ps[j], m) == Some(k);
      var i :| 0 <= i < |m| && m[i].name == k && Contains(m[i].rect, ps[j].x as real, ps[j].y as real);
    }
  }

  /**
   * `map_pieces_to_squares`: a fresh mapping, the extracted piece list, and the
   * square assignment. Only real square names ever appear as keys.
   */
  function MapPiecesToSquares(playingAs: string, width: real, height: real, els: seq<PieceElement>): (r: map<string, string>)
    ensures r.Keys <= AllSquareNames()
  {
    MappingKeys(playingAs, width, height);
    AssignSquaresWithinMapping(ExtractPiecePositions(els), GenerateSquarePixelMapping(playingAs, width, height));
    AssignSquares(ExtractPiecePositions(els), GenerateSquarePixelMapping(playingAs, width, height))
  }

  /** A piece element whose offset lies on the board shows up on the square holding that pixel. */
  lemma MapPiecesPlacesBoardPiece(playingAs: string, width: real, height: real, els: seq<PieceElement>, e: PieceElement, s: Square)
    requires e in els && PositionOf(e).Some?
    requires Contains(LayoutRect(playingAs, width, height, s), PositionOf(e).value.x as real, PositionOf(e).value.y as real)
    ensures SquareName(s) in MapPiecesToSquares(playingAs, width, height, els)
  {
    var p := PositionOf(e).value;
    var ps := ExtractPiecePositions(els);
    var m := GenerateSquarePixelMapping(playingAs, width, height);
    ExtractComplete(els);
    assert p in ps;
    var j :| 0 <= j < |ps| && ps[j] == p;
    FindSquareForPixelExact(playingAs, width, height, p.x as real, p.y as real, s);
    assert SquareOf(ps[j], m) == Some(SquareName(s));
    AssignSquaresKeys(ps, m);
  }

  /** Element e's style parses to an offset inside `rect`. */
  predicate InRect(e: PieceElement, rect: Rect)
  {
    match ParseTranslate(e.style)
    case Some(o) => Contains(rect, o.x as real, o.y as real)
    case None => false
  }

  /** The first element, from position i on, whose offset lies inside `rect`. */
  function FirstPieceIn(els: seq<PieceElement>, rect: Rect, i: nat): (r: Option<nat>)
    requires i <= |els|
    ensures r.Some? ==> i <= r.value < |els| && InRect(els[r.value], rect) &&
                        forall j :: i <= j < r.value ==> !InRect(els[j], rect)
    ensures r.None? <==> forall j :: i <= j < |els| ==> !InRect(els[j], rect)
    decreases |els| - i
  {
    if i == |els| then None
    else if InRect(els[i], rect) then Some(i)
    else FirstPieceIn(els, rect, i + 1)
  }

  /**
   * `find_piece_element_for_square`: the position, in the element list, of the
   * first piece whose offset lies in the square's rectangle; None for a name the
   * mapping lacks or an empty square.
   */
  function FindPieceElementForSquare(square: string, m: Mapping, els: seq<PieceElement>): (r: Option<nat>)
    ensures square !in Keys(m) ==> r.None?
    ensures r.Some? ==> r.value < |els| && InRect(els[r.value], Lookup(m, square).value) &&
                        forall j :: 0 <= j < r.value ==> !InRect(els[j], Lookup(m, square).value)
    ensures square in Keys(m) ==> (r.None? <==> forall j :: 0 <= j < |els| ==> !InRect(els[j], Lookup(m, square).value))
  {
    match Lookup(m, square)
    case None => None
    case Some(rect) => FirstPieceIn(els, rect, 0)
  }

  datatype DragOutcome =
    | NoPieceFound                          // no element on the start square: nothing is dragged
    | InvalidSquare                         // the end name is not a square of the mapping
    | Dragged(piece: nat, offset: Point)    // press on that element, move by `offset`, release

  /**
   * `drag_and_drop_by_square`: press on the start square's piece and move it by
   * the difference of the two squares' top-left corners.
   */
  function DragAndDropBySquare(start: string, end: string, playingAs: string, width: real, height: real,
                               els: seq<PieceElement>): DragOutcome
  {
    DragOn(start, end, GenerateSquarePixelMapping(playingAs, width, height), els)
  }

  /**
   * The drag against a given mapping `m`, with its three outcomes: nothing
   * happens without a piece on the start square, an end name outside the
   * mapping is refused, and otherwise the mouse moves from the start square's
   * corner exactly onto the end square's corner.
   */
  function DragOn(start: string, end: string, m: Mapping, els: seq<PieceElement>): (r: DragOutcome)
    ensures r == NoPieceFound <==> FindPieceElementForSquare(start, m, els).None?
    ensures r == InvalidSquare <==> FindPieceElementForSquare(start, m, els).Some? && end !in Keys(m)
    ensures r.Dragged? ==> Some(r.piece) == FindPieceElementForSquare(start, m, els) &&
                           Lookup(m, start).Some? && Lookup(m, end).Some? &&
                           Lookup(m, start).value.topLeft.x + r.offset.x == Lookup(m, end).value.topLeft.x &&
                           Lookup(m, start).value.topLeft.y + r.offset.y == Lookup(m, end).value.topLeft.y
  {
    match FindPieceElementForSquare(start, m, els)
    case None => NoPieceFound
    case Some(piece) =>
      match (Lookup(m, start), Lookup(m, end))
      case (Some(a), Some(b)) =>
        Dragged(piece, Point(b.topLeft.x - a.topLeft.x, b.topLeft.y - a.topLeft.y))
      case _ => InvalidSquare
  }

  /** With a piece on `start` and both names in `m`, the drag moves from one corner to the other. */
  lemma DragOnRects(start: string, end: string, m: Mapping, els: seq<PieceElement>, a: Rect, b: Rect)
    requires FindPieceElementForSquare(start, m, els).Some?
    requires Lookup(m, start) == Some(a) && Lookup(m, end) == Some(b)
    ensures DragOn(start, end, m, els)
            == Dragged(FindPieceElementForSquare(start, m, els).value,
                       Point(b.topLeft.x - a.topLeft.x, b.topLeft.y - a.topLeft.y))
  {
  }

  lemma BandDifference(i: int, j: int, len: real)
    ensures Band(j, len) - Band(i, len) == Band(j - i, len)
  {
    assert (j - i) as real * len == j as real * len - i as real * len;
  }

  /**
   * The mouse movement from square s to square t in whole squares: for white
   * (t.file - s.file) widths right and (s.rank - t.rank) heights down, and the
   * opposite for black, whose board is turned half a turn.
   */
  function SquareStep(playingAs: string, width: real, height: real, s: Square, t: Square): Point
  {
    var sw := width / 8.0;
    var sh := height / 8.0;
    if IsBlack(playingAs) then Point(Band(s.file - t.file, sw), Band(t.rank - s.rank, sh))
    else Point(Band(t.file - s.file, sw), Band(s.rank - t.rank, sh))
  }

  /** Dragging between two squares with a piece on the first moves the mouse by whole squares. */
  lemma DragOffsetBetweenSquares(playingAs: string, width: real, height: real, s: Square, t: Square,
                                 els: seq<PieceElement>)
    requires FindPieceElementForSquare(SquareName(s), GenerateSquarePixelMapping(playingAs, width, height), els).Some?
    ensures var r := DragAndDropBySquare(SquareName(s), SquareName(t), playingAs, width, height, els);
            r.Dragged? && r.offset == SquareStep(playingAs, width, height, s, t)
  {
    DragFromLookups(playingAs, width, height, s, t, els);
    CornerOffset(playingAs, width, height, s, t);
  }

  /** On the white layout the corners of two squares lie whole squares apart. */
  lemma WhiteCornerOffset(width: real, height: real, s: Square, t: Square)
    ensures var a := WhiteLayout(width, height, s).topLeft;
            var b := WhiteLayout(width, height, t).topLeft;
            b.x - a.x == Band(t.file - s.file, width / 8.0) && b.y - a.y == Band(s.rank - t.rank, height / 8.0)
  {
    BandDifference(s.file, t.file, width / 8.0);
    BandDifference(7 - s.rank, 7 - t.rank, height / 8.0);
    assert (7 - t.rank) - (7 - s.rank) == s.rank - t.rank;
  }

  /** On the black layout the corners lie whole squares apart, counted the other way round. */
  lemma BlackCornerOffset(width: real, height: real, s: Square, t: Square)
    ensures var a := WhiteLayout(width, height, Mirror(s)).topLeft;
            var b := WhiteLayout(width, height, Mirror(t)).topLeft;
            b.x - a.x == Band(s.file - t.file, width / 8.0) && b.y - a.y == Band(t.rank - s.rank, height / 8.0)
  {
    var ms, mt := Mirror(s), Mirror(t);
    WhiteCornerOffset(width, height, ms, mt);
    assert mt.file - ms.file == s.file - t.file;
    assert ms.rank - mt.rank == t.rank - s.rank;
  }

  /** The corners of two squares' layout rectangles lie whole squares apart. */
  lemma CornerOffset(playingAs: string, width: real, height: real, s: Square, t: Square)
    ensures var a := LayoutRect(playingAs, width, height, s).topLeft;
            var b := LayoutRect(playingAs, width, height, t).topLeft;
            Point(b.x - a.x, b.y - a.y) == SquareStep(playingAs, width, height, s, t)
  {
    if IsBlack(playingAs) {
      BlackCornerOffset(width, height, s, t);
    } else {
      WhiteCornerOffset(width, height, s, t);
    }
  }

  /** With a piece on s, the drag from s to t moves by the difference of their layout corners. */
  lemma DragFromLookups(playingAs: string, width: real, height: real, s: Square, t: Square, els: seq<PieceElement>)
    requires FindPieceElementForSquare(SquareName(s), GenerateSquarePixelMapping(playingAs, width, height), els).Some?
    ensures var a := LayoutRect(playingAs, width, height, s).topLeft;
            var b := LayoutRect(playingAs, width, height, t).topLeft;
            var r := DragAndDropBySquare(SquareName(s), SquareName(t), playingAs, width, height, els);
            r.Dragged? && r.offset == Point(b.x - a.x, b.y - a.y)
  {
    MappingLookup(playingAs, width, height, s);
    MappingLookup(playingAs, width, height, t);
    DragOnRects(SquareName(s), SquareName(t), GenerateSquarePixelMapping(playingAs, width, height), els,
                LayoutRect(playingAs, width, height, s), LayoutRect(playingAs, width, height, t));
  }

  /**
   * The engine's UCI move, split by `translate_move_to_web`, drags the piece by
   * the distance between its two squares, whatever promotion letter follows.
   */
  lemma UciMoveDrag(playingAs: string, width: real, height: real, from: Square, to: Square, promotion: string,
                    els: seq<PieceElement>)
    requires FindPieceElementForSquare(SquareName(from), GenerateSquarePixelMapping(playingAs, width, height), els).Some?
    ensures var (a, b) := TranslateMoveToWeb(UciMove(from, to, promotion));
            var r := DragAndDropBySquare(a, b, playingAs, width, height, els);
            r.Dragged? && r.offset == SquareStep(playingAs, width, height, from, to)
  {
    TranslateUciMove(from, to, promotion);
    DragOffsetBetweenSquares(playingAs, width, height, from, to, els);
  }
}
