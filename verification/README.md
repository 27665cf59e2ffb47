# onchess-bot core, modelled in Dafny

This project models the decision logic of a bot that plays chess on a web
board by reading the page and moving the mouse. The model covers these parts:

- **Board geometry.** The board's pixel box is split into an 8x8 grid of
  half-open rectangles. White sits at the bottom unless the bot plays black,
  in which case the grid is turned half a turn. A pixel is turned back into a
  square name by a first-match search over the grid (`Geometry`, `Squares`).
- **Piece positions.** Each piece element carries an inline style. The first
  `translate(<digits>px, <digits>px)` in it gives the piece's pixel offset.
  This is modelled as a small matcher over a token pattern with greedy digit
  groups, which reproduces Python's `re.search` for this pattern
  (`PieceStyle`).
- **Board actions.** The model covers the square -> piece map, the element
  found on a square, and the mouse offset of a drag between two squares
  (`BoardUi`).
- **Engine move helpers.** These are the UCI move split and the `'='` test for
  promotion (`EngineMoves`).
- **Promotion.** This covers the SAN promotion parse, the letter -> class
  table, and the scan of the promotion panel (`Promotion`).
- **The move ledger and the watcher.** The model reads the move table and
  runs the polling loop. The loop is a pure step function folded over a
  scripted sequence of snapshots. Each snapshot holds the table's entries
  and the elapsed time (`Ledger`).
- **The game controller.** This covers the end-of-game precedence and the
  move-counter/break skeleton of the game loop (`GameControl`).

Widths are exact `real`s. The colour is kept as the string the source
compares. Only `"black"` flips the grid, and only `"white"` reads the last
ledger entry. Any other value, such as `"random"`, therefore gets the white
grid but the black ledger read.

Three behaviours of the code are easy to miss, and the model keeps them as
written:

- `get_best_move` hands back the engine's move in UCI form, such as
  `"e7e8q"` (src/bot/chess_engine.py lines 19-23). `is_promotion` only looks
  for `'='` (lines 72-76), so the engine's moves never reach the promotion
  step, promoting ones included (`EngineMoves.IsPromotionExamples`,
  `GameControl.UciMovesSkipPromotionStep`).
- Playing black, the ledger is read at the entry before the newest one. With
  the counts `play_game` passes, the watcher call after the bot's first move
  therefore reports the opponent's opening move a second time
  (`GameControl.BlackRereadsOpeningMove`). The opening read itself fails on a
  one-entry table (`GameControl.BlackOpeningReadRaises`).
- The watcher compares the move count only with the count it was given. No
  step checks that the count read from the page never goes down, so the
  model does not assume it.

## Model

| member | source | states |
|---|---|---|
| Squares.ParseSquareName | src/bot/web_interface.py:142-143 | a two-character name parses exactly when it is a file letter a-h followed by a rank digit 1-8 |
| Squares.NameRoundTrip | src/bot/web_interface.py:166 | the key written for a square parses back to that square |
| Squares.NameInjective | src/bot/web_interface.py:166 | different squares get different keys |
| Geometry.ReversedIndex | src/bot/web_interface.py:145-147 | reversing "abcdefgh" and "12345678" puts the letter of file 7-i and the digit of rank 7-i at position i |
| Geometry.GenerateSquarePixelMapping | src/bot/web_interface.py:122-171 | the dictionary has 64 entries in insertion order |
| Geometry.EntryAt | src/bot/web_interface.py:145-169 | the k-th inserted entry is the square at rank position k/8 and file position k%8 of the (possibly reversed) strings, with its layout rectangle |
| Geometry.MappingKeys | src/bot/web_interface.py:142-169 | for either colour the keys are exactly the 64 names a1..h8, with none repeated |
| Geometry.Lookup | src/bot/web_interface.py:280 | `dict.get` gives None exactly for a missing key, otherwise the rectangle of an entry with that key |
| Geometry.MappingLookup | src/bot/web_interface.py:138-163 | square s gets a (W/8) x (H/8) rectangle whose top-left corner is (file*W/8, (7-rank)*H/8) for white, mirrored for black |
| Geometry.BlackIsMirrorOfWhite | src/bot/web_interface.py:145-159 | the black rectangle of s is the white rectangle of the mirrored square, e.g. black a1 = white h8 |
| Geometry.FindSquareForPixel | src/bot/web_interface.py:177-193 | the result is None exactly when no rectangle contains the point, otherwise the name of a rectangle that contains it |
| Geometry.ContainingEntryUnique | src/bot/web_interface.py:190 | no pixel lies in two rectangles of the generated grid |
| Geometry.FindSquareForPixelOnBoard | src/bot/web_interface.py:177-193 | a square is found exactly for points of [0,W) x [0,H) |
| Geometry.FindSquareForPixelExact | src/bot/web_interface.py:177-193 | the name of s is returned if and only if the point lies in s's rectangle |
| Geometry.TopLeftMapsBack | src/bot/web_interface.py:177-193 | on a board of positive size a square's top-left corner maps back to that square |
| PieceStyle.OccurrenceMatches | src/bot/web_interface.py:221-225 | a full `translate(d1px, d2px)` at a position is matched there, with the decimal values of d1 and d2 |
| PieceStyle.MatchIsOccurrence | src/bot/web_interface.py:221-225 | every match is a full occurrence of the pattern with two non-empty digit runs |
| PieceStyle.SearchFromNone | src/bot/web_interface.py:221 | the search finds nothing exactly when no position matches |
| PieceStyle.SearchFromLeftmost | src/bot/web_interface.py:221 | what the search finds is the match at the leftmost matching position |
| PieceStyle.ParseTranslate | src/bot/web_interface.py:221 | the style yields nothing exactly when the pattern matches at no position of it |
| PieceStyle.StyleRoundTrip | src/bot/web_interface.py:221-225 | a style opening with the rendering of (x, y) parses to (x, y) |
| PieceStyle.TransformStyleParses | src/bot/web_interface.py:220-225 | `transform: translate(Xpx, Ypx);` parses to (X, Y) |
| PieceStyle.NoDigitNoPosition | src/bot/web_interface.py:221-223 | if no `translate(` is followed by a digit, nothing is parsed |
| PieceStyle.NegativeOffsetIgnored | src/bot/web_interface.py:221-223 | `translate(-Xpx, Ypx)` yields no position |
| PieceStyle.NegativeSecondOffsetIgnored | src/bot/web_interface.py:221-223 | `translate(Xpx, -Ypx)` yields no position: the first group matches but the second meets the minus sign |
| PieceStyle.PositionOf | src/bot/web_interface.py:217-228 | an element gives a position exactly when its style matches, carrying its class and the parsed offset |
| PieceStyle.ExtractSound | src/bot/web_interface.py:215-228 | every extracted position comes from some element of the list |
| PieceStyle.ExtractComplete | src/bot/web_interface.py:215-228 | every element whose style matches contributes its position |
| PieceStyle.ExtractAllParsed | src/bot/web_interface.py:215-228 | when every style matches, the list keeps every element, in order |
| PieceStyle.ExtractPiecePositions | src/bot/web_interface.py:195-236 | at most one position per element; the list is empty exactly when no element's style matches |
| PieceStyle.ExtractConcat | src/bot/web_interface.py:215-228 | the positions of two lists run together are those of the first followed by those of the second: one entry per matching element, in document order |
| BoardUi.AssignSquaresKeys | src/bot/web_interface.py:254-262 | the keys of the piece map are exactly the non-empty square names some piece lands on |
| BoardUi.AssignSquaresLastWins | src/bot/web_interface.py:254-262 | each square holds the class of the last piece in the list that lands on it |
| BoardUi.MapPiecesToSquares | src/bot/web_interface.py:238-264 | only real square names appear as keys of the piece map |
| BoardUi.MapPiecesPlacesBoardPiece | src/bot/web_interface.py:238-264 | a piece whose offset lies in square s's rectangle puts s in the map |
| BoardUi.FirstPieceIn | src/bot/web_interface.py:294-307 | the element returned is the first one whose parsed offset lies in the rectangle; None means no element's offset does |
| BoardUi.FindPieceElementForSquare | src/bot/web_interface.py:266-317 | a name missing from the mapping gives None; otherwise the result is the first element whose offset lies in the square's rectangle, and None exactly when no element's does |
| BoardUi.DragOn | src/bot/web_interface.py:319-346 | no piece on the start square means no drag, an end name outside the mapping is refused, and a drag presses the start square's piece and moves its corner exactly onto the end square's corner |
| BoardUi.DragOffsetBetweenSquares | src/bot/web_interface.py:333-346 | a drag moves (t.file-s.file) widths right and (s.rank-t.rank) heights down for white, and the opposite for black |
| BoardUi.UciMoveDrag | src/bot/chess_engine.py:35-37 | the squares of a UCI move, split for the web, drag the piece by the distance between them whatever promotion letter follows |
| EngineMoves.Slice | src/bot/chess_engine.py:35-36 | Python slicing clamps at the string's end and never fails |
| EngineMoves.TranslateMoveToWeb | src/bot/chess_engine.py:25-37 | start followed by end is the first min(4, n) characters of the move; start has min(2, n) of them |
| EngineMoves.TranslateUciMove | src/bot/chess_engine.py:35-37 | a UCI move splits into its two square names, dropping any promotion suffix |
| EngineMoves.TranslateExamples | src/bot/chess_engine.py:35-37 | "e2e4" -> ("e2","e4"), "e7e8q" -> ("e7","e8"), "e2" -> ("e2","") |
| EngineMoves.IsPromotion | src/bot/chess_engine.py:72-76 | true exactly when some character is '=' |
| EngineMoves.IsPromotionExamples | src/bot/chess_engine.py:76 | "e8=Q" and "exd8=N+" are promotions; "Nf3", "Rxe4" and "e7e8q" are not |
| EngineMoves.UciMoveIsNeverPromotion | src/bot/chess_engine.py:76 | a UCI move with an optional q/r/b/n suffix contains no '=' |
| Promotion.ParsePromotion | src/bot/web_interface.py:362 | a match exactly when the string opens with a file letter a-h, rank 1 or 8, '=', and one of Q N R B, with no search further in |
| Promotion.ParseIsPrefix | src/bot/web_interface.py:362 | the matched text is a well-formed prefix of the input |
| Promotion.RenderRoundTrip | src/bot/web_interface.py:362-370 | a rendered promotion, followed by any text that cannot extend it, parses back to the same groups |
| Promotion.TrailingTextIgnored | src/bot/web_interface.py:362 | only the first five characters decide the match |
| Promotion.ParseExamples | src/bot/web_interface.py:362-397 | "g8=Q" gives (g8, Q, ""), "g1=N+" gives (g1, N, "+"); "exd8=Q", "g8=q" and "e7e8q" do not match |
| Promotion.ClassTableTotal | src/bot/web_interface.py:385-397 | every matched piece letter has a class, so the invalid-piece branch is never taken |
| Promotion.ParsedImpliesIsPromotion | src/bot/web_interface.py:362 | every matched string also satisfies `is_promotion` (chess_engine.py line 76), but "exd8=Q" shows the converse fails |
| Promotion.Infix | src/bot/web_interface.py:410 | the substring test holds exactly when the class occurs at some position |
| Promotion.KnightIsNotQueen | src/bot/web_interface.py:410 | "queen" does not occur in "white knight" |
| Promotion.ScanChoices | src/bot/web_interface.py:406-418 | the first panel entry whose class contains the wanted class is clicked; a missing piece element ends the scan; running off the end clicks nothing |
| Promotion.HandlePawnPromotion | src/bot/web_interface.py:353-418 | nothing happens exactly when the parse fails, a missing panel is reported exactly when a parsed promotion finds no panel, the invalid-piece outcome never occurs, and a click always hits an entry of the wanted class |
| Promotion.QueenPanelExample | src/bot/web_interface.py:353-418 | "g8=Q" on a panel (knight, queen) clicks the second entry |
| Ledger.StripShape | src/bot/web_interface.py:452 | `strip()` removes only whitespace, only from the two ends, and leaves neither end on whitespace |
| Ledger.Strip | src/bot/web_interface.py:452 | neither end of the stripped text is whitespace, and it is empty exactly when the text is all whitespace |
| Ledger.StripPadded | src/bot/web_interface.py:452 | trimmed text padded with whitespace strips back to itself |
| Ledger.StripIdempotent | src/bot/web_interface.py:452 | stripping twice equals stripping once |
| Ledger.DetectLastTableMove | src/bot/web_interface.py:420-459 | a read succeeds exactly when the table is present with enough entries (1 for "white", 2 otherwise); too few entries is an index failure, not the `(None, None)` path; the count is the number of entries |
| Ledger.ReadIsTrimmedEntry | src/bot/web_interface.py:446-452 | the move read is the chosen entry without its surrounding whitespace |
| Ledger.WhiteReadsNewestEntry | src/bot/web_interface.py:446-448 | playing white, a newly appended entry is the move read |
| Ledger.OtherReadsEntryBeforeNewest | src/bot/web_interface.py:449-450 | any other colour reads the entry before the newest |
| Ledger.SingleEntryReadFails | src/bot/web_interface.py:449-450 | a one-entry table is an index failure for any colour but "white" |
| Ledger.PollStep | src/bot/web_interface.py:489-511 | a poll raises exactly when the table is absent or too short for the colour; a reported move is new text from a table longer than the old count; a time-out only comes after the deadline and a further poll only before it |
| Ledger.DetectionNeedsBothChanges | src/bot/web_interface.py:496-498 | a poll reports a move exactly when the count grew and the text changed, whatever the time |
| Ledger.TimeoutOnlyAfterDeadline | src/bot/web_interface.py:496-508 | a poll times out exactly when its read succeeded, is not new, and its elapsed time is strictly past the timeout |
| Ledger.FirstStopIsFirstTerminal | src/bot/web_interface.py:489-511 | the loop stops at the first poll that does not say "keep polling" and reports that poll's outcome |
| Ledger.WaitForComputerMove | src/bot/web_interface.py:464-511 | the watcher ends with the outcome of a poll that did not say "keep polling", and runs off the script only when every poll said so |
| Ledger.WaitIsFirstTerminal | src/bot/web_interface.py:464-511 | the watcher's result is the outcome of the first poll that ends it; it runs on only while every poll says "keep polling" |
| Ledger.FirstPollAlwaysRead | src/bot/web_interface.py:489-498 | the first poll is always taken, and a new move there is returned even past the deadline |
| Ledger.NoneOnlyAfterDeadline | src/bot/web_interface.py:505-508 | None is returned only after a non-detecting poll whose elapsed time is strictly greater than the timeout |
| Ledger.StaleLedgerTimesOut | src/bot/web_interface.py:489-511 | a table that never shows a new move makes the watcher time out at the first poll past the deadline |
| Ledger.DetectionExamples | src/bot/web_interface.py:496-508 | after (4, "e4"), (5, "e4") is not a detection but (5, "Nf3") is; 10.1 s is past a 10 s timeout and 10.0 s is not |
| GameControl.DetectEndOfGame | src/bot/chess_bot.py:16-41 | checkmate, then stalemate, then time-over; the flag is set exactly when a reason is given |
| GameControl.CheckmateFirst | src/bot/chess_bot.py:26-28 | checkmate gives (True, checkmate) whatever the other two signals say |
| GameControl.NeverTimeOver | src/bot/chess_bot.py:16-41 | with `detect_is_time_over`, which always says False, "timeover" is never the reason |
| GameControl.DetectIsTimeOver | src/bot/web_interface.py:461-462 | the time-over check always answers no |
| GameControl.Loop | src/bot/chess_bot.py:98-190 | each iteration adds at most an own move and a watcher call, running out of given iterations means both were made every time, and the counter advances once per event except for the reply awaited before an opponent-mate break |
| GameControl.PlayGame | src/bot/chess_bot.py:43-197 | playing black, the first call awaits the opening move with count 0; the final counter is the number of own moves and watcher calls, less black's opening call and less the reply awaited before an opponent-mate break |
| GameControl.LoopShape | src/bot/chess_bot.py:98-190 | the loop alternates own moves and watcher calls, iteration k calling the watcher with count start+2k+1; the counter ends at start plus the number of events, less one on an opponent-mate break |
| GameControl.WatcherCalls | src/bot/chess_bot.py:80-174 | in iteration k the watcher gets count 2k+1 for either colour; black's opening call gets count 0 |
| GameControl.PreviousNeverChanges | src/bot/chess_bot.py:60-153 | every watcher call receives the previous move "asd" |
| GameControl.OwnMateSkipsWatcher | src/bot/chess_bot.py:140-148 | a checkmate after the bot's move breaks before that iteration's watcher call |
| GameControl.OpponentMateSkipsSecondIncrement | src/bot/chess_bot.py:164-174 | a checkmate after the reply breaks before the counter's second increment |
| GameControl.OnlyStalemateEnds | src/bot/chess_bot.py:169-190 | the end-of-game check inside the loop can only report stalemate |
| GameControl.WhiteWaitsForReply | src/bot/web_interface.py:446-498 | with the counts `play_game` passes (chess_bot.py lines 140-153), playing white, the first watcher call ignores the bot's own move and takes the reply |
| GameControl.BlackRereadsOpeningMove | src/bot/web_interface.py:446-498 | with the counts `play_game` passes (chess_bot.py lines 80-153), playing black, the call after the bot's first move reports the opponent's opening move again at once |
| GameControl.BlackOpeningReadRaises | src/bot/web_interface.py:446-452 | black's opening call on a one-entry table ends in an index failure |
| GameControl.UciMovesSkipPromotionStep | src/bot/chess_bot.py:127-128 | an engine move in UCI form never triggers the promotion step |

## Left out

- Browser start, navigation, menu clicks, waits, `ActionChains` and printing. These are calls into Selenium with no logic to state. The page's answers are inputs to the model: the board size, the elements' class and style strings, the ledger entries, and the panel entries.
- Failure to find the board element when building the grid (the `None` return of `generate_square_pixel_mapping`). The model always has a board size.
- `DetectLastTableMove`'s `TableMissing` outcome stands for the `(None, None)` return. The watcher's comparison of `None` with a number raises in Python, so the model ends the watcher with `Raised`.
- python-chess and Stockfish, which decide legality, FEN, checkmate, stalemate and best moves. Their answers are the booleans and strings of `GameControl.TurnFacts`.
- The wall clock and `sleep`. Each poll is given its elapsed time, and the poll interval is not modelled.
- Floating-point rounding. Widths and pixel positions are exact reals.
- Calls in `play_game` that cannot work as written. Examples: the zero-argument `get_best_move` called with two arguments, the drag called twice with the mapping in place of the start square, and a `quit` the engine class lacks. The loop skeleton keeps only the counter, the watcher arguments and the breaks.
- Python's `\d` also accepts non-ASCII decimal digits. The model accepts ASCII `0`-`9` only.
- `drag_and_drop_by_square` catches any exception and prints it. The model has no exceptions in that path.
- `GameControl.PlayGame`: the loop is run over a finite list of iterations. `OutOfTurns` marks where the list ends, not a way the source can stop.
- `Ledger.WaitForComputerMove`: the script of polls is finite, so the `Exhausted` result marks where the script ends. The source keeps polling until a move is detected, the deadline passes or a read raises.
- The catch-all `except Exception` handlers in `extract_piece_positions` and `find_piece_element_for_square`. A page error in the middle of the loop, such as a stale element, makes the first return the positions gathered so far and the second return None. The model's element lists do not fail part-way.
