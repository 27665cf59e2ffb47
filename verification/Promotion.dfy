/**
 * The promotion step after a move is dragged: the start-anchored SAN pattern
 * `([a-h][18])=(Q|N|R|B)([+#]?)`, the fixed letter -> piece-class table, and the
 * scan of the promotion panel for the square whose piece carries that class.
 */
module Promotion {
  import opened Wrappers
  import opened EngineMoves

  /** The three groups of a successful match: target square, piece letter, check mark ("" when absent). */
  datatype PromotionMatch = PromotionMatch(square: string, piece: char, check: string)

  predicate IsFileLetter(c: char)
  {
    'a' <= c <= 'h'
  }

  predicate IsBackRank(c: char)
  {
    c == '1' || c == '8'
  }

  predicate IsPieceLetter(c: char)
  {
    c == 'Q' || c == 'N' || c == 'R' || c == 'B'
  }

  predicate IsCheckMark(c: char)
  {
    c == '+' || c == '#'
  }

  /**
   * `re.match` of the promotion pattern: it must match from the first character;
   * the optional check mark is taken when present and anything after it is ignored.
   */
  function ParsePromotion(san: string): (r: Option<PromotionMatch>)
    ensures r.Some? <==>
      |san| >= 4 && IsFileLetter(san[0]) && IsBackRank(san[1]) && san[2] == '=' && IsPieceLetter(san[3])
  {
    if |san| >= 4 && IsFileLetter(san[0]) && IsBackRank(san[1]) && san[2] == '=' && IsPieceLetter(san[3]) then
      var check := if |san| >= 5 && IsCheckMark(san[4]) then [san[4]] else "";
      Some(PromotionMatch(san[..2], san[3], check))
    else
      None
  }

  /** The groups a well-formed match can carry. */
  predicate WellFormed(m: PromotionMatch)
  {
    |m.square| == 2 && IsFileLetter(m.square[0]) && IsBackRank(m.square[1]) &&
    IsPieceLetter(m.piece) && (m.check == "" || (|m.check| == 1 && IsCheckMark(m.check[0])))
  }

  /** The SAN text a match stands for. */
  function RenderPromotion(m: PromotionMatch): string
  {
    m.square + "=" + [m.piece] + m.check
  }

  /** The piece letter -> CSS class table of the promotion panel. */
  const PieceClasses: map<char, string> := map['Q' := "queen", 'N' := "knight", 'R' := "rook", 'B' := "bishop"]

  function PieceClass(letter: char): Option<string>
  {
    if letter in PieceClasses then Some(PieceClasses[letter]) else None
  }

  /** `needle` occurs in `hay` starting at position k. */
  predicate OccursAt(needle: string, hay: string, k: nat)
  {
    k + |needle| <= |hay| && hay[k..k + |needle|] == needle
  }

  /** Python's `needle in hay` on strings: `needle` occurs somewhere in `hay`. */
  function Infix(needle: string, hay: string): (r: bool)
    ensures r <==> exists k: nat :: OccursAt(needle, hay, k)
    decreases |hay|
  {
    if needle <= hay then
      assert OccursAt(needle, hay, 0);
      true
    else if |hay| == 0 then false
    else
      var r := Infix(needle, hay[1..]);
      assert forall k: nat :: OccursAt(needle, hay[1..], k) <==> OccursAt(needle, hay, k + 1) by {
        forall k: nat
          ensures OccursAt(needle, hay[1..], k) <==> OccursAt(needle, hay, k + 1)
        {
          if k + |needle| <= |hay| - 1 {
            assert hay[1..][k..k + |needle|] == hay[k + 1..k + 1 + |needle|];
          }
        }
      }
      assert !OccursAt(needle, hay, 0);
      assert forall k: nat :: OccursAt(needle, hay, k) ==> k > 0 && OccursAt(needle, hay[1..], k - 1);
      r
  }

  datatype PromotionOutcome =
    | NotPromotion          // the pattern did not match; nothing is clicked
    | PanelMissing          // the promotion panel did not appear in time
    | InvalidPiece          // the letter is not in the class table
    | Clicked(choice: nat)  // the choice square at this position was clicked
    | ChoiceMissing         // no choice square's piece carries the class
    | ChoiceUnreadable      // a choice square has no piece element

  /**
   * The panel scan from position i: the first choice whose piece class contains
   * `cls` is clicked; a square without a piece element aborts the scan.
   */
  function ScanChoices(choices: seq<Option<string>>, cls: string, i: nat): (r: PromotionOutcome)
    requires i <= |choices|
    ensures r.Clicked? || r == ChoiceMissing || r == ChoiceUnreadable
    ensures r.Clicked? ==> i <= r.choice < |choices| && choices[r.choice].Some? &&
                           Infix(cls, choices[r.choice].value) &&
                           forall j :: i <= j < r.choice ==> choices[j].Some? && !Infix(cls, choices[j].value)
    ensures r == ChoiceMissing <==> forall j :: i <= j < |choices| ==> choices[j].Some? && !Infix(cls, choices[j].value)
    decreases |choices| - i
  {
    if i == |choices| then ChoiceMissing
    else
      match choices[i]
      case None => ChoiceUnreadable
      case Some(attr) => if Infix(cls, attr) then Clicked(i) else ScanChoices(choices, cls, i + 1)
  }

  /**
   * `handle_pawn_promotion` on `san`, with `panel` the piece class of each
   * square of the promotion panel (None: the panel never became visible).
   */
  function HandlePawnPromotion(san: string, panel: Option<seq<Option<string>>>): (r: PromotionOutcome)
    ensures r == NotPromotion <==> ParsePromotion(san).None?
    ensures r == PanelMissing <==> ParsePromotion(san).Some? && panel.None?
    ensures r != InvalidPiece
    ensures r.Clicked? ==> panel.Some? && r.choice < |panel.value| && panel.value[r.choice].Some? &&
                           Infix(PieceClass(san[3]).value, panel.value[r.choice].value)
  {
    match ParsePromotion(san)
    case None => NotPromotion
    case Some(m) =>
      match panel
      case None => PanelMissing
      case Some(choices) =>
        match PieceClass(m.piece)
        case None => InvalidPiece
        case Some(cls) => ScanChoices(choices, cls, 0)
  }

  // ---------------------------------------------------------------------------
  // Properties
  // ---------------------------------------------------------------------------

  /** A match is its own rendering followed by whatever the pattern ignored. */
  lemma ParseIsPrefix(san: string)
    requires ParsePromotion(san).Some?
    ensures WellFormed(ParsePromotion(san).value)
    ensures RenderPromotion(ParsePromotion(san).value) <= san
  {
    var m := ParsePromotion(san).value;
    var n := RenderPromotion(m);
    assert n[..2] == san[..2];
    assert forall k :: 0 <= k < |n| ==> n[k] == san[k];
  }

  /** Rendering a well-formed match and parsing it back gives the match, whatever non-check text follows. */
  lemma RenderRoundTrip(m: PromotionMatch, rest: string)
    requires WellFormed(m)
    requires m.check == "" ==> |rest| == 0 || !IsCheckMark(rest[0])
    ensures ParsePromotion(RenderPromotion(m) + rest) == Some(m)
  {
    var s := RenderPromotion(m) + rest;
    assert s[0] == m.square[0] && s[1] == m.square[1] && s[2] == '=' && s[3] == m.piece;
    assert s[..2] == m.square;
    if m.check != "" {
      assert s[4] == m.check[0];
      assert m.check == [m.check[0]];
    } else if |s| >= 5 {
      assert s[4] == rest[0];
    }
  }

  /** Text beyond the fifth character never changes the match. */
  lemma TrailingTextIgnored(san: string)
    requires |san| >= 5
    ensures ParsePromotion(san) == ParsePromotion(san[..5])
  {
    assert san[..5][..2] == san[..2];
  }

  lemma ParseExamples()
    ensures ParsePromotion("g8=Q") == Some(PromotionMatch("g8", 'Q', ""))
    ensures ParsePromotion("g1=N+") == Some(PromotionMatch("g1", 'N', "+"))
    ensures ParsePromotion("exd8=Q").None? && ParsePromotion("g8=q").None? && ParsePromotion("e7e8q").None?
    ensures PieceClass('Q') == Some("queen") && PieceClass('N') == Some("knight")
  {
    assert "g8=Q"[..2] == "g8";
    assert "g1=N+"[..2] == "g1";
  }

  /** The class table covers every letter the pattern admits, so the invalid-piece branch is dead. */
  lemma ClassTableTotal(san: string)
    requires ParsePromotion(san).Some?
    ensures PieceClass(ParsePromotion(san).value.piece).Some?
  {
  }

  /**
   * Every text the panel step accepts is also a promotion for `is_promotion`,
   * but not conversely: "exd8=Q" holds an `=` yet the anchored pattern rejects it.
   */
  lemma ParsedImpliesIsPromotion(san: string)
    ensures ParsePromotion(san).Some? ==> IsPromotion(san)
    ensures IsPromotion("exd8=Q") && ParsePromotion("exd8=Q").None?
  {
    if ParsePromotion(san).Some? {
      assert san[2] == '=';
    }
    assert "exd8=Q"[4] == '=';
  }

  lemma KnightIsNotQueen()
    ensures !Infix("queen", "white knight")
  {
    var h := "white knight";
    forall k: nat
      ensures !OccursAt("queen", h, k)
    {
      if k + 5 <= |h| {
        assert h[k..k + 5][0] == h[k] != 'q';
      }
    }
  }

  lemma QueenInWhiteQueen()
    ensures Infix("queen", "white queen")
  {
    assert OccursAt("queen", "white queen", 6);
  }

  lemma ScanExample()
    ensures ScanChoices([Some("white knight"), Some("white queen")], "queen", 0) == Clicked(1)
  {
    KnightIsNotQueen();
    QueenInWhiteQueen();
    assert ScanChoices([Some("white knight"), Some("white queen")], "queen", 1) == Clicked(1);
  }

  /** Promoting to a queen on a panel whose second square shows a white queen clicks that square. */
  lemma QueenPanelExample()
    ensures HandlePawnPromotion("g8=Q", Some([Some("white knight"), Some("white queen")])) == Clicked(1)
  {
    ParseExamples();
    ScanExample();
  }
}
