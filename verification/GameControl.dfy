/**
 * The game controller: the end-of-game decision and the skeleton of the
 * game loop, which keeps the move counter and decides where the loop
 * breaks. The chess engine is not modelled; each loop iteration is given
 * the engine's answers as plain facts.
 */
module GameControl {
  import opened Wrappers
  import opened Squares
  import opened EngineMoves
  import opened Ledger

  // ---------------------------------------------------------------------------
  // detect_end_of_game
  // ---------------------------------------------------------------------------

  datatype Reason = Checkmate | Stalemate | TimeOver

  /** The reason string the controller prints. */
  function ReasonText(r: Reason): string
  {
    match r
    case Checkmate => "checkmate"
    case Stalemate => "stalemate"
    case TimeOver => "timeover"
  }

  /** The pair `(game_over, reason)`; the reason is None while the game goes on. */
  datatype Verdict = Verdict(ended: bool, reason: Option<Reason>)

  /**
   * `detect_end_of_game`: checkmate first, then stalemate, then the time-over
   * signal. The flag is set exactly when a reason is given.
   */
  function DetectEndOfGame(checkmate: bool, stalemate: bool, timeOver: bool): (v: Verdict)
    ensures v.ended <==> v.reason.Some?
    ensures v.ended <==> checkmate || stalemate || timeOver
    ensures v.reason == Some(Checkmate) <==> checkmate
    ensures v.reason == Some(Stalemate) <==> !checkmate && stalemate
    ensures v.reason == Some(TimeOver) <==> !checkmate && !stalemate && timeOver
  {
    if checkmate then Verdict(true, Some(Checkmate))
    else if stalemate then Verdict(true, Some(Stalemate))
    else if timeOver then Verdict(true, Some(TimeOver))
    else Verdict(false, None)
  }

  /** `detect_is_time_over`: the page's clock is never consulted, and the answer is always no. */
  function DetectIsTimeOver(): (r: bool)
    ensures !r
  {
    false
  }

  /** Checkmate wins over everything else, whatever the other two signals say. */
  lemma CheckmateFirst(stalemate: bool, timeOver: bool)
    ensures DetectEndOfGame(true, stalemate, timeOver) == Verdict(true, Some(Checkmate))
  {
  }

  /** With the time-over check the controller really uses, the game never ends on time. */
  lemma NeverTimeOver(checkmate: bool, stalemate: bool)
    ensures DetectEndOfGame(checkmate, stalemate, DetectIsTimeOver()).reason != Some(TimeOver)
    ensures DetectEndOfGame(checkmate, stalemate, DetectIsTimeOver()).ended <==> checkmate || stalemate
  {
  }

  // ---------------------------------------------------------------------------
  // The play_game skeleton
  // ---------------------------------------------------------------------------

  /** The previous-move text every watcher call receives; the loop never reassigns it. */
  const Previous: string := "asd"

  /** The engine's answers during one loop iteration. */
  datatype TurnFacts = TurnFacts(
    gameOver: bool,           // `is_game_over()` at the top of the iteration
    bestMove: string,         // the engine's chosen move
    mateAfterOwn: bool,       // `is_checkmate()` after the bot's move
    mateAfterOpponent: bool,  // `is_checkmate()` after the opponent's reply
    stalemate: bool)          // `board.is_stalemate()` at the end-of-game check

  /** What the loop does that the model keeps. */
  datatype Event =
    | OwnMove(move: string, promotes: bool)         // play the engine's move, with the promotion step if `is_promotion` holds
    | AwaitOpponent(previous: string, count: int)  // call the watcher with this previous move and move count

  /** Why the loop stopped. */
  datatype Exit =
    | GameOver          // the `while` condition failed
    | OwnMate           // checkmate right after the bot's own move
    | OpponentMate      // checkmate right after the opponent's reply
    | Ended(reason: Reason)  // `detect_end_of_game` reported an end
    | OutOfTurns        // the given iterations ran out; the real loop would go on

  /** The calls made, the reason the loop stopped, and the move counter at that point. */
  datatype Trace = Trace(events: seq<Event>, exit: Exit, count: int)

  /**
   * The main `while` loop, entered with move counter `count`. Each iteration
   * adds at most an own move and a watcher call; the loop runs out of given
   * iterations only after both for each; and the counter advances once per
   * event, except for the reply awaited before a break on the opponent's
   * checkmate.
   */
  function Loop(turns: seq<TurnFacts>, count: int): (t: Trace)
    ensures |t.events| <= 2 * |turns|
    ensures t.exit == OutOfTurns ==> |t.events| == 2 * |turns|
    ensures t.count == count + |t.events| - (if t.exit == OpponentMate then 1 else 0)
    decreases |turns|
  {
    if |turns| == 0 then Trace([], OutOfTurns, count)
    else
      var f := turns[0];
      if f.gameOver then Trace([], GameOver, count)
      else
        var own := OwnMove(f.bestMove, IsPromotion(f.bestMove));
        var afterOwn := count + 1;
        if f.mateAfterOwn then Trace([own], OwnMate, afterOwn)
        else
          var wait := AwaitOpponent(Previous, afterOwn);
          if f.mateAfterOpponent then Trace([own, wait], OpponentMate, afterOwn)
          else
            var afterReply := afterOwn + 1;
            var v := DetectEndOfGame(f.mateAfterOpponent, f.stalemate, DetectIsTimeOver());
            if v.ended then Trace([own, wait], Ended(v.reason.value), afterReply)
            else
              var rest := Loop(turns[1..], afterReply);
              Trace([own, wait] + rest.events, rest.exit, rest.count)
  }

  /**
   * `play_game` from the counter's start at 0: playing black, the opponent's
   * opening move is awaited first, and the counter is not advanced for it.
   */
  function PlayGame(playingAs: string, turns: seq<TurnFacts>): (t: Trace)
    ensures playingAs == "black" ==> |t.events| > 0 && t.events[0] == AwaitOpponent(Previous, 0)
    ensures t.count == |t.events| - (if playingAs == "black" then 1 else 0) - (if t.exit == OpponentMate then 1 else 0)
  {
    var loop := Loop(turns, 0);
    if playingAs == "black" then Trace([AwaitOpponent(Previous, 0)] + loop.events, loop.exit, loop.count)
    else loop
  }

  /** The event at position i of the loop's trace: even positions are own moves, odd ones watcher calls. */
  function Expected(turns: seq<TurnFacts>, count: int, i: nat): Event
    requires i / 2 < |turns|
  {
    if i % 2 == 0 then OwnMove(turns[i / 2].bestMove, IsPromotion(turns[i / 2].bestMove))
    else AwaitOpponent(Previous, count + i)
  }

  /**
   * The loop alternates own moves and watcher calls, iteration k making the
   * call with count `count + 2k + 1`. The counter ends at its start value
   * plus the number of events, less the final reply when the loop breaks on
   * the opponent's checkmate.
   */
  lemma {:induction false} LoopShape(turns: seq<TurnFacts>, count: int)
    ensures var t := Loop(turns, count);
            |t.events| <= 2 * |turns| &&
            t.count == count + |t.events| - (if t.exit == OpponentMate then 1 else 0) &&
            forall i :: 0 <= i < |t.events| ==> t.events[i] == Expected(turns, count, i)
    decreases |turns|
  {
    if |turns| > 0 {
      var f := turns[0];
      if !f.gameOver && !f.mateAfterOwn && !f.mateAfterOpponent &&
         !DetectEndOfGame(f.mateAfterOpponent, f.stalemate, DetectIsTimeOver()).ended {
        var rest := Loop(turns[1..], count + 2);
        LoopShape(turns[1..], count + 2);
        var t := Loop(turns, count);
        assert t.events == [OwnMove(f.bestMove, IsPromotion(f.bestMove)), AwaitOpponent(Previous, count + 1)] + rest.events;
        assert t.count == rest.count;
        forall i | 2 <= i < |t.events|
          ensures t.events[i] == Expected(turns, count, i)
        {
          assert t.events[i] == rest.events[i - 2];
          assert (i - 2) / 2 == i / 2 - 1 && (i - 2) % 2 == i % 2;
          assert turns[1..][(i - 2) / 2] == turns[i / 2];
        }
      }
    }
  }

  /**
   * In iteration k (from 0) the watcher is called with count 2k + 1 and
   * previous move "asd", for either colour; black's extra opening call has count 0.
   */
  lemma WatcherCalls(playingAs: string, turns: seq<TurnFacts>, k: nat)
    ensures var t := PlayGame(playingAs, turns);
            var offset := if playingAs == "black" then 1 else 0;
            (playingAs == "black" ==> t.events[0] == AwaitOpponent("asd", 0)) &&
            (offset + 2 * k + 1 < |t.events| ==> t.events[offset + 2 * k + 1] == AwaitOpponent("asd", 2 * k + 1))
  {
    LoopShape(turns, 0);
    var loop := Loop(turns, 0);
    if playingAs == "black" {
      assert PlayGame(playingAs, turns).events == [AwaitOpponent(Previous, 0)] + loop.events;
    }
    if 2 * k + 1 < |loop.events| {
      assert loop.events[2 * k + 1] == Expected(turns, 0, 2 * k + 1);
      assert (2 * k + 1) % 2 == 1;
    }
  }

  /** Every watcher call receives the same previous-move text. */
  lemma PreviousNeverChanges(playingAs: string, turns: seq<TurnFacts>)
    ensures forall e :: e in PlayGame(playingAs, turns).events && e.AwaitOpponent? ==> e.previous == "asd"
  {
    LoopShape(turns, 0);
    var loop := Loop(turns, 0);
    var t := PlayGame(playingAs, turns);
    forall e | e in t.events && e.AwaitOpponent?
      ensures e.previous == "asd"
    {
      var i :| 0 <= i < |t.events| && t.events[i] == e;
      if playingAs == "black" && i > 0 {
        assert t.events[i] == loop.events[i - 1];
      }
    }
  }

  /** A checkmate after the bot's own move stops the loop before that iteration calls the watcher. */
  lemma OwnMateSkipsWatcher(f: TurnFacts, turns: seq<TurnFacts>, count: int)
    requires !f.gameOver && f.mateAfterOwn
    ensures Loop([f] + turns, count) == Trace([OwnMove(f.bestMove, IsPromotion(f.bestMove))], OwnMate, count + 1)
  {
  }

  /** A checkmate after the opponent's reply stops the loop before the counter's second step. */
  lemma OpponentMateSkipsSecondIncrement(f: TurnFacts, turns: seq<TurnFacts>, count: int)
    requires !f.gameOver && !f.mateAfterOwn && f.mateAfterOpponent
    ensures var t := Loop([f] + turns, count);
            t.exit == OpponentMate && t.count == count + 1 && |t.events| == 2
  {
  }

  /**
   * Since checkmate is handled before the end-of-game check and the time-over
   * check is always false, the only reason that check ever reports is stalemate.
   */
  lemma {:induction false} OnlyStalemateEnds(turns: seq<TurnFacts>, count: int)
    ensures var t := Loop(turns, count);
            t.exit.Ended? ==> t.exit.reason == Stalemate
    decreases |turns|
  {
    if |turns| > 0 {
      OnlyStalemateEnds(turns[1..], count + 2);
    }
  }

  // ---------------------------------------------------------------------------
  // The watcher calls meet the move table
  // ---------------------------------------------------------------------------

  /**
   * Playing white, the first watcher call (count 1, previous "asd") does not
   * take the bot's own move, the only table entry, as the reply, and does
   * take the reply once it is added.
   */
  lemma WhiteWaitsForReply(own: string, reply: string, timeout: real, elapsed: real)
    requires Trimmed(own) && Trimmed(reply) && reply != Previous
    ensures PollStep(Previous, 1, "white", timeout, Snapshot(Some([own]), elapsed)) != Detected(own)
    ensures PollStep(Previous, 1, "white", timeout, Snapshot(Some([own, reply]), elapsed)) == Detected(reply)
  {
    WhiteReadsNewestEntry([], own);
    WhiteReadsNewestEntry([own], reply);
    assert [] + [own] == [own];
    assert [own] + [reply] == [own, reply];
  }

  /**
   * Playing black, the watcher call after the bot's first move (count 1)
   * reads the entry before the newest, which is the opponent's opening move
   * that was already awaited: it is reported again straight away.
   */
  lemma BlackRereadsOpeningMove(opening: string, own: string, timeout: real, elapsed: real)
    requires Trimmed(opening) && opening != Previous
    ensures PollStep(Previous, 1, "black", timeout, Snapshot(Some([opening, own]), elapsed)) == Detected(opening)
  {
    OtherReadsEntryBeforeNewest("black", [], opening, own);
    assert [] + [opening, own] == [opening, own];
  }

  /** The opening call for black (count 0) cannot read a one-entry table: the read raises. */
  lemma BlackOpeningReadRaises(opening: string, timeout: real, elapsed: real)
    ensures PollStep(Previous, 0, "black", timeout, Snapshot(Some([opening]), elapsed)) == Raised(IndexFailure)
  {
    SingleEntryReadFails("black", opening);
  }

  /** An engine move in UCI form never contains '=', so the promotion step is never taken for it. */
  lemma UciMovesSkipPromotionStep(from: Square, to: Square, promotion: string)
    requires IsUciPromotionSuffix(promotion)
    ensures !OwnMove(UciMove(from, to, promotion), IsPromotion(UciMove(from, to, promotion))).promotes
  {
    UciMoveIsNeverPromotion(from, to, promotion);
  }
}
