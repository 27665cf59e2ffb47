/**
 * Reading a piece's pixel offset out of its inline style: the first
 * `translate(<digits>px, <digits>px)` in the string, found the way Python's
 * `re.search` with a greedy `\d+` finds it, and the list of positioned pieces
 * built from the board's piece elements.
 */
module PieceStyle {
  import opened Wrappers

  datatype Offset = Offset(x: nat, y: nat)

  /** A `<piece>` element as the host reports it: its class attribute and its style attribute. */
  datatype PieceElement = PieceElement(cls: string, style: string)

  /** One entry of the extracted position list: the piece's class and its pixel offset. */
  datatype PiecePosition = PiecePosition(piece: string, x: nat, y: nat)

  predicate IsDigit(c: char)
  {
    '0' <= c <= '9'
  }

  predicate AllDigits(d: string)
  {
    forall i :: 0 <= i < |d| ==> IsDigit(d[i])
  }

  /** The longest run of digits opening `s`: what a greedy `\d+` consumes there. */
  function DigitRun(s: string): (d: string)
    ensures d <= s && AllDigits(d)
    ensures |d| < |s| ==> !IsDigit(s[|d|])
  {
    if |s| > 0 && IsDigit(s[0]) then [s[0]] + DigitRun(s[1..]) else []
  }

  /** `int(d)` for a string of decimal digits; leading zeros are allowed. */
  function DigitsValue(d: string): nat
    requires AllDigits(d)
  {
    if |d| == 0 then 0 else DigitsValue(d[..|d| - 1]) * 10 + (d[|d| - 1] as int - '0' as int)
  }

  /** The decimal spelling of n, as a browser writes a pixel offset. */
  function NatDigits(n: nat): (d: string)
    ensures |d| > 0 && AllDigits(d) && DigitsValue(d) == n
  {
    if n < 10 then [('0' as int + n) as char]
    else
      var d := NatDigits(n / 10) + [('0' as int + n % 10) as char];
      assert d[..|d| - 1] == NatDigits(n / 10);
      d
  }

  const Open: string := "translate("
  const Sep: string := "px, "
  const Close: string := "px)"

  /** Consumes the literal `lit` at the start of `s`, giving what follows it. */
  function Literal(lit: string, s: string): (r: Option<string>)
    ensures r.Some? ==> s == lit + r.value
  {
    if lit <= s then Some(s[|lit|..]) else None
  }

  /** Consumes a greedy `(\d+)` at the start of `s`, giving its value and what follows it. */
  function Number(s: string): (r: Option<(nat, string)>)
  {
    var d := DigitRun(s);
    if |d| == 0 then None else Some((DigitsValue(d), s[|d|..]))
  }

  /** One piece of a regular expression built from literal text and greedy `(\d+)` groups. */
  datatype Token = Text(lit: string) | Digits

  /** `translate\((\d+)px, (\d+)px\)` */
  const Pattern: seq<Token> := [Text(Open), Digits, Text(Sep), Digits, Text(Close)]

  /**
   * Matches `pat` against a prefix of `s`, giving the values of its digit
   * groups in order. Each digit run is taken whole: in the pattern used here
   * the text after a group opens with `p`, not a digit, so a shorter run never fits.
   */
  function Run(pat: seq<Token>, s: string): Option<seq<nat>>
    decreases |pat|
  {
    if |pat| == 0 then Some([])
    else
      match pat[0]
      case Text(lit) =>
        (match Literal(lit, s)
         case None => None
         case Some(rest) => Run(pat[1..], rest))
      case Digits =>
        match Number(s)
        case None => None
        case Some((v, rest)) =>
          match Run(pat[1..], rest)
          case None => None
          case Some(vs) => Some([v] + vs)
  }

  const P4: seq<Token> := [Text(Close)]
  const P3: seq<Token> := [Digits] + P4
  const P2: seq<Token> := [Text(Sep)] + P3
  const P1: seq<Token> := [Digits] + P2

  /** The pattern read one token at a time. */
  lemma PatternSteps()
    ensures Pattern == [Text(Open)] + P1
  {
  }

  /** A literal token consumes exactly its text. */
  lemma RunText(lit: string, pat: seq<Token>, s: string)
    ensures Run([Text(lit)] + pat, s) == if Literal(lit, s).None? then None else Run(pat, Literal(lit, s).value)
  {
    assert ([Text(lit)] + pat)[1..] == pat;
  }

  /** A group token consumes the whole digit run and puts its value in front of the later groups. */
  lemma RunDigits(pat: seq<Token>, s: string)
    ensures Run([Digits] + pat, s) ==
            if Number(s).None? || Run(pat, Number(s).value.1).None? then None
            else Some([Number(s).value.0] + Run(pat, Number(s).value.1).value)
  {
    assert ([Digits] + pat)[1..] == pat;
  }

  /** The pattern tried at position i of `s`. */
  function MatchAt(s: string, i: nat): Option<Offset>
    requires i <= |s|
  {
    match Run(Pattern, s[i..])
    case Some(vs) => if |vs| == 2 then Some(Offset(vs[0], vs[1])) else None
    case None => None
  }

  /** `t` begins with the text `translate(<d1>px, <d2>px)` for non-empty digit strings d1 and d2. */
  predicate Occurrence(t: string, d1: string, d2: string)
  {
    |d1| > 0 && |d2| > 0 && AllDigits(d1) && AllDigits(d2) && Open + d1 + Sep + d2 + Close <= t
  }

  /** The match at or after position i, trying positions left to right. */
  function SearchFrom(s: string, i: nat): Option<Offset>
    requires i <= |s|
    decreases |s| - i
  {
    match MatchAt(s, i)
    case Some(o) => Some(o)
    case None => if i == |s| then None else SearchFrom(s, i + 1)
  }

  /** The search reports nothing exactly when no position from i on matches. */
  lemma {:induction false} SearchFromNone(s: string, i: nat)
    requires i <= |s|
    ensures SearchFrom(s, i).None? <==> forall j :: i <= j <= |s| ==> MatchAt(s, j).None?
    decreases |s| - i
  {
    if MatchAt(s, i).None? && i < |s| {
      SearchFromNone(s, i + 1);
    }
  }

  /** What the search reports is the match at the leftmost matching position. */
  lemma {:induction false} SearchFromLeftmost(s: string, i: nat) returns (j: nat)
    requires i <= |s| && SearchFrom(s, i).Some?
    ensures i <= j <= |s| && MatchAt(s, j) == SearchFrom(s, i)
    ensures forall k :: i <= k < j ==> MatchAt(s, k).None?
    decreases |s| - i
  {
    if MatchAt(s, i).Some? {
      j := i;
    } else {
      j := SearchFromLeftmost(s, i + 1);
    }
  }

  /**
   * `re.search(r"translate\((\d+)px, (\d+)px\)", style)` with the two groups
   * converted by `int`: nothing exactly when the pattern matches at no
   * position. Which match it reports, the leftmost, is `SearchFromLeftmost`.
   */
  function ParseTranslate(style: string): (r: Option<Offset>)
    ensures r.None? <==> forall j :: 0 <= j <= |style| ==> MatchAt(style, j).None?
  {
    SearchFromNone(style, 0);
    SearchFrom(style, 0)
  }

  /** The style text the board renders for a piece at (x, y). */
  function TranslateStyle(x: nat, y: nat): string
  {
    Open + NatDigits(x) + Sep + NatDigits(y) + Close
  }

  // ---------------------------------------------------------------------------
  // The match at one position agrees with the declarative occurrence
  // ---------------------------------------------------------------------------

  lemma {:induction false} DigitRunOfDigits(d: string, rest: string)
    requires AllDigits(d) && |rest| > 0 && !IsDigit(rest[0])
    ensures DigitRun(d + rest) == d
  {
    if |d| > 0 {
      assert (d + rest)[1..] == d[1..] + rest;
      DigitRunOfDigits(d[1..], rest);
    }
  }

  lemma LiteralOf(lit: string, rest: string)
    ensures Literal(lit, lit + rest) == Some(rest)
  {
    assert (lit + rest)[|lit|..] == rest;
  }

  lemma NumberOf(d: string, rest: string)
    requires |d| > 0 && AllDigits(d) && |rest| > 0 && !IsDigit(rest[0])
    ensures Number(d + rest) == Some((DigitsValue(d), rest))
  {
    DigitRunOfDigits(d, rest);
    assert (d + rest)[|d|..] == rest;
  }

  lemma NumberIsDigits(s: string) returns (d: string)
    requires Number(s).Some?
    ensures |d| > 0 && AllDigits(d) && s == d + Number(s).value.1 && Number(s).value.0 == DigitsValue(d)
  {
    d := DigitRun(s);
    assert s == d + s[|d|..];
  }

  /** The text of an occurrence, regrouped so each token's part comes off the front. */
  lemma OccurrenceNested(t: string, d1: string, d2: string) returns (tail: string)
    requires Occurrence(t, d1, d2)
    ensures t == Open + (d1 + (Sep + (d2 + (Close + tail))))
  {
    var whole := Open + d1 + Sep + d2 + Close;
    tail := t[|whole|..];
    assert t == whole + tail;
    var e := Close + tail;
    var c := d2 + e;
    var b := Sep + c;
    AppendAssoc(Open + d1 + Sep + d2, Close, tail);
    AppendAssoc(Open + d1 + Sep, d2, e);
    AppendAssoc(Open + d1, Sep, c);
    AppendAssoc(Open, d1, b);
  }

  /** The pattern run over a regrouped occurrence reads both digit groups. */
  /** After the first group, `px, <d2>px)` matches with the value of d2. */
  lemma RunSecondGroup(d2: string, tail: string)
    requires |d2| > 0 && AllDigits(d2)
    ensures Run(P2, Sep + (d2 + (Close + tail))) == Some([DigitsValue(d2)])
  {
    var e := Close + tail;
    var c := d2 + e;
    var v2 := DigitsValue(d2);
    LiteralOf(Close, tail);
    RunText(Close, [], e);
    assert Run(P4, e) == Some([]);
    NumberOf(d2, e);
    RunDigits(P4, c);
    assert [v2] + [] == [v2];
    assert Run(P3, c) == Some([v2]);
    LiteralOf(Sep, c);
    RunText(Sep, P3, Sep + c);
  }

  lemma RunNested(d1: string, d2: string, tail: string)
    requires |d1| > 0 && |d2| > 0 && AllDigits(d1) && AllDigits(d2)
    ensures Run(Pattern, Open + (d1 + (Sep + (d2 + (Close + tail))))) == Some([DigitsValue(d1), DigitsValue(d2)])
  {
    var b := Sep + (d2 + (Close + tail));
    var a := d1 + b;
    var v1, v2 := DigitsValue(d1), DigitsValue(d2);
    PatternSteps();
    RunSecondGroup(d2, tail);
    NumberOf(d1, b);
    RunDigits(P2, a);
    assert Run(P1, a) == Some([v1] + [v2]);
    LiteralOf(Open, a);
    RunText(Open, P1, Open + a);
    assert [v1] + [v2] == [v1, v2];
  }

  /** A whole occurrence at position i is what the matcher reports there, with both numbers read in decimal. */
  lemma OccurrenceMatches(s: string, i: nat, d1: string, d2: string)
    requires i <= |s| && Occurrence(s[i..], d1, d2)
    ensures MatchAt(s, i) == Some(Offset(DigitsValue(d1), DigitsValue(d2)))
  {
    var tail := OccurrenceNested(s[i..], d1, d2);
    RunNested(d1, d2, tail);
  }

  /** Every reported match is a whole occurrence at that position. */
  lemma MatchIsOccurrence(s: string, i: nat) returns (d1: string, d2: string)
    requires i <= |s| && MatchAt(s, i).Some?
    ensures Occurrence(s[i..], d1, d2)
    ensures MatchAt(s, i) == Some(Offset(DigitsValue(d1), DigitsValue(d2)))
  {
    var t := s[i..];
    PatternSteps();
    RunText(Open, P1, t);
    var a := Literal(Open, t).value;
    RunDigits(P2, a);
    d1 := NumberIsDigits(a);
    var b := Number(a).value.1;
    RunText(Sep, P3, b);
    var c := Literal(Sep, b).value;
    RunDigits(P4, c);
    d2 := NumberIsDigits(c);
    var d := Number(c).value.1;
    RunText(Close, [], d);
    var e := Literal(Close, d).value;
    assert Run(P4, d) == Some([]);
    assert [DigitsValue(d2)] + [] == [DigitsValue(d2)];
    assert Run(P3, c) == Some([DigitsValue(d2)]);
    assert Run(Pattern, t) == Some([DigitsValue(d1)] + [DigitsValue(d2)]);
    assert t == Open + (d1 + (Sep + (d2 + (Close + e))));
    AppendAssoc(Open + d1 + Sep + d2, Close, e);
    AppendAssoc(Open + d1 + Sep, d2, Close + e);
    AppendAssoc(Open + d1, Sep, d2 + (Close + e));
    AppendAssoc(Open, d1, Sep + (d2 + (Close + e)));
  }

  lemma AppendAssoc(a: string, b: string, c: string)
    ensures (a + b) + c == a + (b + c)
  {
  }

  // ---------------------------------------------------------------------------
  // Properties of the search
  // ---------------------------------------------------------------------------

  /** A style that opens with a rendered offset parses back to that offset, whatever follows it. */
  lemma StyleRoundTrip(x: nat, y: nat, rest: string)
    ensures ParseTranslate(TranslateStyle(x, y) + rest) == Some(Offset(x, y))
  {
    var s := TranslateStyle(x, y) + rest;
    assert s[0..] == s;
    assert Occurrence(s[0..], NatDigits(x), NatDigits(y));
    OccurrenceMatches(s, 0, NatDigits(x), NatDigits(y));
  }

  /** The board's own style text, `transform: translate(Xpx, Ypx);`, yields (X, Y). */
  lemma TransformStyleParses(x: nat, y: nat)
    ensures ParseTranslate("transform: " + TranslateStyle(x, y) + ";") == Some(Offset(x, y))
  {
    var lead := "transform: ";
    var s := lead + TranslateStyle(x, y) + ";";
    forall j | 0 <= j < |lead|
      ensures MatchAt(s, j).None?
    {
      assert s[j] == lead[j];
      assert s[j..][0] == s[j];
      if j == 0 {
        assert s[5] == 'f';
        assert s[j..][5] == s[5];
      } else {
        assert lead[j] != 't';
      }
    }
    var i := |lead|;
    assert s[i..] == TranslateStyle(x, y) + ";";
    assert Occurrence(s[i..], NatDigits(x), NatDigits(y));
    OccurrenceMatches(s, i, NatDigits(x), NatDigits(y));
    SearchFromNone(s, 0);
    var j := SearchFromLeftmost(s, 0);
  }

  /**
   * Only unsigned decimal offsets are read: if no `translate(` in the style is
   * directly followed by a digit (a negative offset, say), nothing is parsed.
   */
  lemma NoDigitNoPosition(s: string)
    requires forall i :: 0 <= i <= |s| && Open <= s[i..] ==> i + |Open| == |s| || !IsDigit(s[i + |Open|])
    ensures ParseTranslate(s) == None
  {
    forall j | 0 <= j <= |s|
      ensures MatchAt(s, j).None?
    {
      if MatchAt(s, j).Some? {
        var d1, d2 := MatchIsOccurrence(s, j);
      }
    }
    SearchFromNone(s, 0);
  }

  /** The text after the minus sign holds digits, `p`, `x`, `,`, space and `)`, and so no `t`. */
  lemma OffsetTextHasNoT(x: nat, y: nat)
    ensures var tail := NatDigits(x) + "px, " + NatDigits(y) + "px)";
            forall k :: 0 <= k < |tail| ==> tail[k] != 't'
  {
    var dx, dy := NatDigits(x), NatDigits(y);
    assert forall k :: 0 <= k < |dx| ==> IsDigit(dx[k]);
    assert forall k :: 0 <= k < |dy| ==> IsDigit(dy[k]);
  }

  /** After its first character, `translate(` or `translate(-` followed by text without a `t` never shows `tr` again. */
  lemma NoSecondOpen(head: string, tail: string)
    requires head == "translate(" || head == "translate(-"
    requires forall k :: 0 <= k < |tail| ==> tail[k] != 't'
    ensures forall i :: 0 < i < |head + tail| - 1 ==> (head + tail)[i] != 't' || (head + tail)[i + 1] != 'r'
  {
    var s := head + tail;
    forall i | 0 < i < |s| - 1
      ensures s[i] != 't' || s[i + 1] != 'r'
    {
      if i >= |head| {
        assert s[i] == tail[i - |head|];
      } else if i < |head| - 1 {
        assert s[i] == head[i] && s[i + 1] == head[i + 1];
      } else {
        assert s[i] == head[i];
      }
    }
  }

  /** A style whose first offset carries a minus sign, `translate(-Xpx, Ypx)`, yields no position. */
  lemma NegativeOffsetIgnored(x: nat, y: nat)
    ensures ParseTranslate("translate(-" + NatDigits(x) + "px, " + NatDigits(y) + "px)") == None
  {
    var head := "translate(-";
    var tail := NatDigits(x) + "px, " + NatDigits(y) + "px)";
    var s := "translate(-" + NatDigits(x) + "px, " + NatDigits(y) + "px)";
    assert s == head + tail;
    OffsetTextHasNoT(x, y);
    NoSecondOpen(head, tail);
    assert s[|Open|] == head[|Open|];
    forall i | 0 <= i <= |s| && Open <= s[i..]
      ensures i + |Open| == |s| || !IsDigit(s[i + |Open|])
    {
      assert s[i..][0] == s[i] && s[i..][1] == s[i + 1];
    }
    NoDigitNoPosition(s);
  }

  /** The text around a minus sign before the second offset holds digits, `p`, `x`, `,`, space, `-` and `)`, and so no `t`. */
  lemma SecondOffsetTextHasNoT(x: nat, y: nat)
    ensures var tail := NatDigits(x) + "px, -" + NatDigits(y) + "px)";
            forall k :: 0 <= k < |tail| ==> tail[k] != 't'
  {
    var dx, dy := NatDigits(x), NatDigits(y);
    assert forall k :: 0 <= k < |dx| ==> IsDigit(dx[k]);
    assert forall k :: 0 <= k < |dy| ==> IsDigit(dy[k]);
  }

  /** At the start of `translate(Xpx, -Ypx)` the first group matches but the second meets the minus sign. */
  lemma SecondMinusFailsAtStart(x: nat, y: nat)
    ensures Run(Pattern, Open + (NatDigits(x) + (Sep + ("-" + NatDigits(y) + Close)))) == None
  {
    var dx := NatDigits(x);
    var c := "-" + NatDigits(y) + Close;
    var b := Sep + c;
    var a := dx + b;
    PatternSteps();
    RunText(Open, P1, Open + a);
    LiteralOf(Open, a);
    NumberOf(dx, b);
    RunDigits(P2, a);
    RunText(Sep, P3, b);
    LiteralOf(Sep, c);
    assert DigitRun(c) == [];
    RunDigits(P4, c);
  }

  /** The two spellings of `translate(Xpx, -Ypx)` used below are the same text. */
  lemma SecondMinusShape(x: nat, y: nat)
    ensures var s := "translate(" + NatDigits(x) + "px, -" + NatDigits(y) + "px)";
            s == Open + (NatDigits(x) + "px, -" + NatDigits(y) + "px)") &&
            s[0..] == Open + (NatDigits(x) + (Sep + ("-" + NatDigits(y) + Close)))
  {
  }

  /** Text with no `tr` after its first character holds no `translate(` after it either. */
  lemma OpenOnlyAtStart(s: string)
    requires forall i :: 0 < i < |s| - 1 ==> s[i] != 't' || s[i + 1] != 'r'
    ensures forall i :: 0 < i <= |s| ==> !(Open <= s[i..])
  {
    forall i | 0 < i <= |s|
      ensures !(Open <= s[i..])
    {
      if i + 1 < |s| {
        assert s[i..][0] == s[i] && s[i..][1] == s[i + 1];
      }
    }
  }

  /** A style whose second offset carries a minus sign, `translate(Xpx, -Ypx)`, yields no position. */
  lemma NegativeSecondOffsetIgnored(x: nat, y: nat)
    ensures ParseTranslate("translate(" + NatDigits(x) + "px, -" + NatDigits(y) + "px)") == None
  {
    var s := "translate(" + NatDigits(x) + "px, -" + NatDigits(y) + "px)";
    SecondMinusShape(x, y);
    SecondOffsetTextHasNoT(x, y);
    NoSecondOpen(Open, NatDigits(x) + "px, -" + NatDigits(y) + "px)");
    OpenOnlyAtStart(s);
    NoLaterMatch(s);
    SecondMinusFailsAtStart(x, y);
  }

  /** A style with no `translate(` after its first character can only match at position 0. */
  lemma NoLaterMatch(s: string)
    requires forall i :: 0 < i <= |s| ==> !(Open <= s[i..])
    ensures forall j :: 0 < j <= |s| ==> MatchAt(s, j).None?
  {
    forall j | 0 < j <= |s|
      ensures MatchAt(s, j).None?
    {
      if MatchAt(s, j).Some? {
        var d1, d2 := MatchIsOccurrence(s, j);
      }
    }
  }

  // ---------------------------------------------------------------------------
  // The extracted position list
  // ---------------------------------------------------------------------------

  /** The position piece element `e` contributes, if its style holds an offset. */
  function PositionOf(e: PieceElement): (r: Option<PiecePosition>)
    ensures r.Some? <==> ParseTranslate(e.style).Some?
    ensures r.Some? ==> r.value.piece == e.cls && ParseTranslate(e.style) == Some(Offset(r.value.x, r.value.y))
  {
    match ParseTranslate(e.style)
    case Some(o) => Some(PiecePosition(e.cls, o.x, o.y))
    case None => None
  }

  /**
   * `extract_piece_positions`: one position per piece element whose style
   * holds a translate offset, in document order; other elements are skipped.
   */
  function ExtractPiecePositions(els: seq<PieceElement>): (r: seq<PiecePosition>)
    ensures |r| <= |els|
    ensures r == [] <==> forall i :: 0 <= i < |els| ==> PositionOf(els[i]).None?
  {
    if |els| == 0 then []
    else
      assert forall i :: 0 <= i < |els| - 1 ==> els[1..][i] == els[i + 1];
      match PositionOf(els[0])
      case Some(p) => [p] + ExtractPiecePositions(els[1..])
      case None => ExtractPiecePositions(els[1..])
  }

  /** Every extracted position comes from some element of the list. */
  lemma {:induction false} ExtractSound(els: seq<PieceElement>)
    ensures forall p :: p in ExtractPiecePositions(els) ==> exists e :: e in els && PositionOf(e) == Some(p)
  {
    if |els| > 0 {
      ExtractSound(els[1..]);
      forall p | p in ExtractPiecePositions(els)
        ensures exists e :: e in els && PositionOf(e) == Some(p)
      {
        if PositionOf(els[0]) != Some(p) {
          assert p in ExtractPiecePositions(els[1..]);
          var e :| e in els[1..] && PositionOf(e) == Some(p);
          assert e in els;
        }
      }
    }
  }

  /** Every element whose style holds an offset contributes its position. */
  lemma {:induction false} ExtractComplete(els: seq<PieceElement>)
    ensures forall e :: e in els && PositionOf(e).Some? ==> PositionOf(e).value in ExtractPiecePositions(els)
  {
    if |els| > 0 {
      ExtractComplete(els[1..]);
      forall e | e in els && PositionOf(e).Some?
        ensures PositionOf(e).value in ExtractPiecePositions(els)
      {
        if e != els[0] {
          assert e in els[1..];
        }
      }
    }
  }

  /** When every style holds an offset, the list keeps every element, position for position. */
  lemma {:induction false} ExtractAllParsed(els: seq<PieceElement>)
    requires forall i :: 0 <= i < |els| ==> PositionOf(els[i]).Some?
    ensures var r := ExtractPiecePositions(els);
            |r| == |els| && forall i :: 0 <= i < |els| ==> PositionOf(els[i]) == Some(r[i])
  {
    if |els| > 0 {
      assert forall i :: 0 <= i < |els| - 1 ==> els[1..][i] == els[i + 1];
      ExtractAllParsed(els[1..]);
    }
  }

  /**
   * Extraction works element by element: the positions of a list split in two
   * are those of the first part followed by those of the second, so the list
   * keeps document order and holds one entry per element whose style matches.
   */
  lemma {:induction false} ExtractConcat(a: seq<PieceElement>, b: seq<PieceElement>)
    ensures ExtractPiecePositions(a + b) == ExtractPiecePositions(a) + ExtractPiecePositions(b)
  {
    if |a| == 0 {
      assert a + b == b;
    } else {
      assert (a + b)[0] == a[0];
      assert (a + b)[1..] == a[1..] + b;
      ExtractConcat(a[1..], b);
      var rest, tail := ExtractPiecePositions(a[1..]), ExtractPiecePositions(b);
      match PositionOf(a[0])
      case Some(p) =>
        assert [p] + (rest + tail) == ([p] + rest) + tail;
      case None =>
    }
  }
}
