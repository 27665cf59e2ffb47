/** The two string helpers of the engine adapter: splitting a UCI move into squares, and the promotion test. */
module EngineMoves {
  import opened Wrappers
  import opened Squares

  /** Python's `s[a:b]` for 0 <= a <= b: bounds past the end are clipped, never an error. */
  function Slice(s: string, a: nat, b: nat): (r: string)
    requires a <= b
    ensures |r| == Min(b, |s|) - Min(a, |s|)
    ensures forall i :: 0 <= i < |r| ==> r[i] == s[a + i]
  {
    s[Min(a, |s|)..Min(b, |s|)]
  }

  /**
   * `translate_move_to_web`: characters 0-1 are the start square and 2-3 the
   * end square; anything after them (a promotion letter) is dropped, and a
   * short string just gives shorter pieces.
   */
  function TranslateMoveToWeb(move: string): (r: (string, string))
    ensures r.0 + r.1 == move[..Min(4, |move|)]
    ensures |r.0| == Min(2, |move|) && |r.1| == Min(4, |move|) - Min(2, |move|)
  {
    (Slice(move, 0, 2), Slice(move, 2, 4))
  }

  /** `is_promotion`: the move text contains an `=` sign somewhere, and nothing else is looked at. */
  function IsPromotion(moveSan: string): (r: bool)
    ensures r <==> exists i :: 0 <= i < |moveSan| && moveSan[i] == '='
  {
    '=' in moveSan
  }

  /** The UCI text the engine writes for a move: two square names and an optional lower-case promotion letter. */
  function UciMove(from: Square, to: Square, promotion: string): string
  {
    SquareName(from) + SquareName(to) + promotion
  }

  predicate IsUciPromotionSuffix(p: string)
  {
    p in {"", "q", "r", "b", "n"}
  }

  /** A UCI move splits back into its two square names, with any promotion letter dropped. */
  lemma TranslateUciMove(from: Square, to: Square, promotion: string)
    ensures TranslateMoveToWeb(UciMove(from, to, promotion)) == (SquareName(from), SquareName(to))
  {
    var m := UciMove(from, to, promotion);
    assert m[..4] == SquareName(from) + SquareName(to);
    var r := TranslateMoveToWeb(m);
    assert r.0 == m[..2];
    assert r.1 == m[2..4];
  }

  lemma TranslateExamples()
    ensures TranslateMoveToWeb("e2e4") == ("e2", "e4")
    ensures TranslateMoveToWeb("e7e8q") == ("e7", "e8")
    ensures TranslateMoveToWeb("e2") == ("e2", "")
    ensures TranslateMoveToWeb("") == ("", "")
  {
    assert "e2e4"[..2] == "e2" && "e2e4"[2..4] == "e4";
    assert "e7e8q"[..2] == "e7" && "e7e8q"[2..4] == "e8";
    assert "e2"[..2] == "e2" && "e2"[2..2] == "";
  }

  lemma IsPromotionExamples()
    ensures IsPromotion("e8=Q") && IsPromotion("exd8=N+")
    ensures !IsPromotion("Nf3") && !IsPromotion("Rxe4") && !IsPromotion("e7e8q")
  {
    assert "e8=Q"[2] == '=';
    assert "exd8=N+"[4] == '=';
  }

  /**
   * The engine's own moves never count as promotions: a UCI move, even one
   * ending in a promotion letter, holds no `=`.
   */
  lemma UciMoveIsNeverPromotion(from: Square, to: Square, promotion: string)
    requires IsUciPromotionSuffix(promotion)
    ensures !IsPromotion(UciMove(from, to, promotion))
  {
    var m := UciMove(from, to, promotion);
    forall i | 0 <= i < |m|
      ensures m[i] != '='
    {
      if i >= 4 {
        assert m[i] == promotion[i - 4];
      } else if i >= 2 {
        assert m[i] == SquareName(to)[i - 2];
      } else {
        assert m[i] == SquareName(from)[i];
      }
    }
  }
}
