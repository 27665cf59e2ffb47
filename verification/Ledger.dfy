/**
 * The move ledger (the page's move-history table) and the watcher that polls
 * it for the opponent's reply. The clock and the page are not modelled: each
 * poll sees a `Snapshot` holding the table's entries (or None when the table
 * did not appear) and the time elapsed since the watcher started.
 */
module Ledger {
  import opened Wrappers

  // ---------------------------------------------------------------------------
  // str.strip()
  // ---------------------------------------------------------------------------

  /** Python's `str.isspace` for a single character. */
  predicate IsSpace(c: char)
  {
    c == ' ' || '\t' <= c <= '\r' || '\U{1C}' <= c <= '\U{1F}' || c == '\U{85}' || c == '\U{A0}' ||
    c == '\U{1680}' || '\U{2000}' <= c <= '\U{200A}' || c == '\U{2028}' || c == '\U{2029}' ||
    c == '\U{202F}' || c == '\U{205F}' || c == '\U{3000}'
  }

  /** Visible ASCII characters are never whitespace. */
  lemma VisibleIsNotSpace(c: char)
    requires '!' <= c <= '~'
    ensures !IsSpace(c)
  {
  }

  predicate AllSpace(s: string)
  {
    forall i :: 0 <= i < |s| ==> IsSpace(s[i])
  }

  /** Neither end of `t` is whitespace. */
  predicate Trimmed(t: string)
  {
    |t| == 0 || (!IsSpace(t[0]) && !IsSpace(t[|t| - 1]))
  }

  /** The first position at or after i that is not whitespace (|s| if there is none). */
  function LeadEnd(s: string, i: nat): (a: nat)
    requires i <= |s|
    ensures i <= a <= |s|
    decreases |s| - i
  {
    if i < |s| && IsSpace(s[i]) then LeadEnd(s, i + 1) else i
  }

  /** Walking back from j, but not past a, the start of the whitespace run that ends at j. */
  function TrailEnd(s: string, a: nat, j: nat): (c: nat)
    requires a <= j <= |s|
    ensures a <= c <= j
    decreases j
  {
    if j > a && IsSpace(s[j - 1]) then TrailEnd(s, a, j - 1) else j
  }

  /**
   * `str.strip()`: the text between the leading and the trailing whitespace
   * runs. Neither end of what it keeps is whitespace, and it keeps nothing
   * exactly when the text is all whitespace.
   */
  function Strip(s: string): (r: string)
    ensures Trimmed(r)
    ensures r == [] <==> AllSpace(s)
  {
    var a := LeadEnd(s, 0);
    var c := TrailEnd(s, a, |s|);
    LeadEndSpan(s, 0);
    TrailEndSpan(s, a, |s|);
    assert c > a ==> s[a..c][0] == s[a] && s[a..c][c - a - 1] == s[c - 1];
    s[a..c]
  }

  /** `LeadEnd` skips only whitespace and stops at a character that is not. */
  lemma {:induction false} LeadEndSpan(s: string, i: nat)
    requires i <= |s|
    ensures var a := LeadEnd(s, i);
            (forall k :: i <= k < a ==> IsSpace(s[k])) && (a < |s| ==> !IsSpace(s[a]))
    decreases |s| - i
  {
    if i < |s| && IsSpace(s[i]) {
      LeadEndSpan(s, i + 1);
    }
  }

  /** `TrailEnd` skips only whitespace and stops above a character that is not, or at a. */
  lemma {:induction false} TrailEndSpan(s: string, a: nat, j: nat)
    requires a <= j <= |s|
    ensures var c := TrailEnd(s, a, j);
            (forall k :: c <= k < j ==> IsSpace(s[k])) && (c > a ==> !IsSpace(s[c - 1]))
    decreases j
  {
    if j > a && IsSpace(s[j - 1]) {
      TrailEndSpan(s, a, j - 1);
    }
  }

  /** Any e with whitespace from i up to it and a non-whitespace character at it is where `LeadEnd` stops. */
  lemma {:induction false} LeadEndIs(s: string, i: nat, e: nat)
    requires i <= e <= |s|
    requires forall k :: i <= k < e ==> IsSpace(s[k])
    requires e < |s| ==> !IsSpace(s[e])
    ensures LeadEnd(s, i) == e
    decreases e - i
  {
    if i < e {
      LeadEndIs(s, i + 1, e);
    }
  }

  /** Any e above a with whitespace from it up to j and a non-whitespace character below it is where `TrailEnd` stops. */
  lemma {:induction false} TrailEndIs(s: string, a: nat, j: nat, e: nat)
    requires a <= e <= j <= |s|
    requires forall k :: e <= k < j ==> IsSpace(s[k])
    requires e > a ==> !IsSpace(s[e - 1])
    ensures TrailEnd(s, a, j) == e
    decreases j - e
  {
    if e < j {
      TrailEndIs(s, a, j - 1, e);
    }
  }

  /** A slice over positions that are all whitespace is all whitespace. */
  lemma SliceAllSpace(s: string, lo: nat, hi: nat)
    requires lo <= hi <= |s|
    requires forall k :: lo <= k < hi ==> IsSpace(s[k])
    ensures AllSpace(s[lo..hi])
  {
    var u := s[lo..hi];
    forall k | 0 <= k < |u|
      ensures IsSpace(u[k])
    {
      assert u[k] == s[lo + k];
    }
  }

  /** What `Strip` cuts off at either end is whitespace. */
  lemma StripCutsSpace(s: string)
    ensures var a := LeadEnd(s, 0);
            var c := TrailEnd(s, a, |s|);
            AllSpace(s[..a]) && AllSpace(s[c..])
  {
    var a := LeadEnd(s, 0);
    var c := TrailEnd(s, a, |s|);
    LeadEndSpan(s, 0);
    TrailEndSpan(s, a, |s|);
    SliceAllSpace(s, 0, a);
    SliceAllSpace(s, c, |s|);
    assert s[..a] == s[0..a] && s[c..] == s[c..|s|];
  }

  /** A string is its three consecutive slices put back together. */
  lemma SplitThree(s: string, a: nat, c: nat)
    requires a <= c <= |s|
    ensures s == s[..a] + s[a..c] + s[c..]
  {
  }

  /** Stripping removes whitespace from the two ends only, and leaves neither end on whitespace. */
  lemma StripShape(s: string) returns (pre: string, post: string)
    ensures s == pre + Strip(s) + post && AllSpace(pre) && AllSpace(post) && Trimmed(Strip(s))
  {
    var a := LeadEnd(s, 0);
    var c := TrailEnd(s, a, |s|);
    StripCutsSpace(s);
    SplitThree(s, a, c);
    pre := s[..a];
    post := s[c..];
  }

  lemma StripShapeExists(s: string)
    ensures Trimmed(Strip(s)) && exists pre, post :: AllSpace(pre) && AllSpace(post) && s == pre + Strip(s) + post
  {
    var pre, post := StripShape(s);
  }

  /** Text with no whitespace at its ends, padded with whitespace, strips back to itself. */
  lemma StripPadded(pre: string, t: string, post: string)
    requires AllSpace(pre) && AllSpace(post) && Trimmed(t)
    ensures Strip(pre + t + post) == t
  {
    var s := pre + t + post;
    var p, e := |pre|, |pre| + |t|;
    assert forall k :: 0 <= k < p ==> s[k] == pre[k];
    assert forall k :: e <= k < |s| ==> s[k] == post[k - e];
    if |t| == 0 {
      LeadEndIs(s, 0, |s|);
      TrailEndIs(s, |s|, |s|, |s|);
    } else {
      assert s[p] == t[0] && s[e - 1] == t[|t| - 1];
      LeadEndIs(s, 0, p);
      TrailEndIs(s, p, |s|, e);
      assert s[p..e] == t;
    }
  }

  /** Stripping twice changes nothing more. */
  lemma StripIdempotent(s: string)
    ensures Strip(Strip(s)) == Strip(s)
  {
    var pre, post := StripShape(s);
    var r := Strip(s);
    StripPadded([], r, []);
    assert [] + r + [] == r;
  }

  // ---------------------------------------------------------------------------
  // detect_last_table_move_and_count
  // ---------------------------------------------------------------------------

  /** One read of the move table. */
  datatype LedgerRead =
    | Read(move: string, count: nat)  // the chosen entry's stripped text and the number of entries
    | TableMissing                    // the table did not appear in time: the `(None, None)` return
    | IndexFailure                    // too few entries for the chosen index: an uncaught IndexError

  /**
   * Which entry holds the opponent's latest move, counted from the end:
   * only the exact colour "white" reads the last entry, every other value the
   * one before it.
   */
  function FromEnd(playingAs: string): (k: nat)
    ensures 1 <= k <= 2
  {
    if playingAs == "white" then 1 else 2
  }

  /** `detect_last_table_move_and_count`: `table` is the list of entry texts, None when the table is absent. */
  function DetectLastTableMove(playingAs: string, table: Option<seq<string>>): (r: LedgerRead)
    ensures r.Read? <==> table.Some? && |table.value| >= FromEnd(playingAs)
    ensures r == IndexFailure <==> table.Some? && |table.value| < FromEnd(playingAs)
    ensures r.Read? ==> r.count == |table.value|
  {
    match table
    case None => TableMissing
    case Some(entries) =>
      var k := FromEnd(playingAs);
      if |entries| < k then IndexFailure
      else
        Read(Strip(entries[|entries| - k]), |entries|)
  }

  /** The move read is the chosen entry with only whitespace taken off its two ends. */
  lemma ReadIsTrimmedEntry(playingAs: string, entries: seq<string>)
    requires |entries| >= FromEnd(playingAs)
    ensures var r := DetectLastTableMove(playingAs, Some(entries));
            r.Read? && Trimmed(r.move) &&
            exists pre, post :: AllSpace(pre) && AllSpace(post) &&
              entries[|entries| - FromEnd(playingAs)] == pre + r.move + post
  {
    StripShapeExists(entries[|entries| - FromEnd(playingAs)]);
  }

  /** Playing white, a new entry at the end of the table is the move read. */
  lemma WhiteReadsNewestEntry(entries: seq<string>, move: string)
    requires Trimmed(move)
    ensures DetectLastTableMove("white", Some(entries + [move])) == Read(move, |entries| + 1)
  {
    StripPadded([], move, []);
    assert [] + move + [] == move;
  }

  /** Playing any other colour, the move read is the one before the newest entry. */
  lemma OtherReadsEntryBeforeNewest(playingAs: string, entries: seq<string>, move: string, newest: string)
    requires playingAs != "white" && Trimmed(move)
    ensures DetectLastTableMove(playingAs, Some(entries + [move, newest])) == Read(move, |entries| + 2)
  {
    StripPadded([], move, []);
    assert [] + move + [] == move;
  }

  /** A one-entry table cannot be read except as white: the black read of the opening move fails. */
  lemma SingleEntryReadFails(playingAs: string, move: string)
    requires playingAs != "white"
    ensures DetectLastTableMove(playingAs, Some([move])) == IndexFailure
  {
  }

  // ---------------------------------------------------------------------------
  // wait_for_computer_move
  // ---------------------------------------------------------------------------

  /** What one poll sees: the table's entries (None when absent) and the seconds since the watcher started. */
  datatype Snapshot = Snapshot(table: Option<seq<string>>, elapsed: real)

  datatype PollOutcome =
    | Detected(move: string)   // a new move: the watcher returns it
    | KeepPolling              // nothing new and the deadline has not passed: sleep and poll again
    | TimedOut                 // nothing new after the deadline: the watcher returns None
    | Raised(read: LedgerRead) // the read failed and the failure propagates out of the watcher

  /** The move read at this poll is new: more entries than before and a different text. */
  predicate IsFresh(read: LedgerRead, previous: string, previousCount: int)
  {
    read.Read? && read.count > previousCount && read.move != previous
  }

  /**
   * One iteration of the watcher's loop: the fresh-move test comes first, the
   * deadline test (strictly later than `timeout`) second. A missing table
   * yields `(None, None)`, whose comparison with the count raises, so both
   * failed reads end the watcher.
   */
  function PollStep(previous: string, previousCount: int, playingAs: string, timeout: real, snap: Snapshot): (r: PollOutcome)
    ensures r.Raised? <==> snap.table.None? || |snap.table.value| < FromEnd(playingAs)
    ensures r.Detected? ==> snap.table.Some? && |snap.table.value| > previousCount &&
                            r.move != previous && Trimmed(r.move)
    ensures r == TimedOut ==> snap.elapsed > timeout
    ensures r == KeepPolling ==> snap.elapsed <= timeout
  {
    var read := DetectLastTableMove(playingAs, snap.table);
    if !read.Read? then Raised(read)
    else if read.count > previousCount && read.move != previous then Detected(read.move)
    else if snap.elapsed > timeout then TimedOut
    else KeepPolling
  }

  /**
   * A poll reports a move exactly when the read succeeds with both a larger
   * count and a different text; the deadline does not matter for that.
   */
  lemma DetectionNeedsBothChanges(previous: string, previousCount: int, playingAs: string, timeout: real,
                                  snap: Snapshot, move: string)
    ensures var read := DetectLastTableMove(playingAs, snap.table);
            PollStep(previous, previousCount, playingAs, timeout, snap) == Detected(move)
            <==> IsFresh(read, previous, previousCount) && read.move == move
  {
  }

  /** A poll times out only when its read succeeded, is not fresh, and comes after the deadline. */
  lemma TimeoutOnlyAfterDeadline(previous: string, previousCount: int, playingAs: string, timeout: real, snap: Snapshot)
    ensures var read := DetectLastTableMove(playingAs, snap.table);
            PollStep(previous, previousCount, playingAs, timeout, snap) == TimedOut
            <==> read.Read? && !IsFresh(read, previous, previousCount) && snap.elapsed > timeout
  {
  }

  /** How the watcher ended on a script of polls. */
  datatype WaitResult =
    | Finished(outcome: PollOutcome, poll: nat) // the first poll that did not say KeepPolling, and its outcome
    | Exhausted                                 // every scripted poll said KeepPolling

  /** The outcome each scripted poll would have, taken on its own. */
  function Outcomes(previous: string, previousCount: int, playingAs: string, timeout: real,
                    script: seq<Snapshot>): seq<PollOutcome>
  {
    seq(|script|, j requires 0 <= j < |script| => PollStep(previous, previousCount, playingAs, timeout, script[j]))
  }

  /** The loop over the poll outcomes `os[i..]`: it stops at the first one other than KeepPolling. */
  function FirstStop(os: seq<PollOutcome>, i: nat): WaitResult
    requires i <= |os|
    decreases |os| - i
  {
    if i == |os| then Exhausted
    else if os[i] != KeepPolling then Finished(os[i], i)
    else FirstStop(os, i + 1)
  }

  /**
   * `wait_for_computer_move` run on a script of polls: it ends with the outcome
   * of a poll that did not say KeepPolling, or runs off the script when every
   * poll said KeepPolling.
   */
  function WaitForComputerMove(previous: string, previousCount: int, playingAs: string, timeout: real,
                               script: seq<Snapshot>): (r: WaitResult)
    ensures r.Finished? ==> r.poll < |script| && r.outcome != KeepPolling &&
                            r.outcome == PollStep(previous, previousCount, playingAs, timeout, script[r.poll])
    ensures r.Exhausted? ==>
              forall j :: 0 <= j < |script| ==> PollStep(previous, previousCount, playingAs, timeout, script[j]) == KeepPolling
  {
    var os := Outcomes(previous, previousCount, playingAs, timeout, script);
    assert forall j :: 0 <= j < |script| ==> os[j] == PollStep(previous, previousCount, playingAs, timeout, script[j]);
    FirstStopIsFirstTerminal(os, 0);
    FirstStop(os, 0)
  }

  /**
   * The loop stops at the first poll that does not say KeepPolling and
   * reports that poll's outcome; it runs off the script only when every poll
   * says KeepPolling.
   */
  lemma {:induction false} FirstStopIsFirstTerminal(os: seq<PollOutcome>, i: nat)
    requires i <= |os|
    ensures var r := FirstStop(os, i);
            (r.Exhausted? <==> forall j :: i <= j < |os| ==> os[j] == KeepPolling) &&
            (r.Finished? ==> i <= r.poll < |os| && r.outcome == os[r.poll] && r.outcome != KeepPolling &&
                             forall j :: i <= j < r.poll ==> os[j] == KeepPolling)
    decreases |os| - i
  {
    if i < |os| && os[i] == KeepPolling {
      FirstStopIsFirstTerminal(os, i + 1);
    }
  }

  /** The watcher's result is the outcome of the first poll that ends it. */
  lemma WaitIsFirstTerminal(previous: string, previousCount: int, playingAs: string, timeout: real, script: seq<Snapshot>)
    ensures var r := WaitForComputerMove(previous, previousCount, playingAs, timeout, script);
            (r.Exhausted? <==>
               forall j :: 0 <= j < |script| ==> PollStep(previous, previousCount, playingAs, timeout, script[j]) == KeepPolling) &&
            (r.Finished? ==>
               r.poll < |script| && r.outcome != KeepPolling &&
               r.outcome == PollStep(previous, previousCount, playingAs, timeout, script[r.poll]) &&
               forall j :: 0 <= j < r.poll ==> PollStep(previous, previousCount, playingAs, timeout, script[j]) == KeepPolling)
  {
    var os := Outcomes(previous, previousCount, playingAs, timeout, script);
    assert forall j :: 0 <= j < |script| ==> os[j] == PollStep(previous, previousCount, playingAs, timeout, script[j]);
    FirstStopIsFirstTerminal(os, 0);
  }

  /** The watcher always looks at the first poll, even one taken after the deadline. */
  lemma FirstPollAlwaysRead(previous: string, previousCount: int, playingAs: string, timeout: real, script: seq<Snapshot>)
    requires |script| > 0 && IsFresh(DetectLastTableMove(playingAs, script[0].table), previous, previousCount)
    ensures WaitForComputerMove(previous, previousCount, playingAs, timeout, script)
            == Finished(Detected(DetectLastTableMove(playingAs, script[0].table).move), 0)
  {
  }

  /**
   * The watcher returns None only after a poll whose read is not fresh and
   * whose elapsed time is strictly past the timeout.
   */
  lemma NoneOnlyAfterDeadline(previous: string, previousCount: int, playingAs: string, timeout: real, script: seq<Snapshot>)
    requires WaitForComputerMove(previous, previousCount, playingAs, timeout, script).Finished?
    requires WaitForComputerMove(previous, previousCount, playingAs, timeout, script).outcome == TimedOut
    ensures var k := WaitForComputerMove(previous, previousCount, playingAs, timeout, script).poll;
            k < |script| && script[k].elapsed > timeout &&
            !IsFresh(DetectLastTableMove(playingAs, script[k].table), previous, previousCount)
  {
    WaitIsFirstTerminal(previous, previousCount, playingAs, timeout, script);
  }

  /**
   * A table that keeps the same entries, none of them a fresh move, makes
   * the watcher time out at the first poll past the deadline, and poll no more.
   */
  lemma StaleLedgerTimesOut(previous: string, previousCount: int, playingAs: string, timeout: real,
                            script: seq<Snapshot>, entries: seq<string>, k: nat)
    requires k < |script|
    requires forall j :: 0 <= j < |script| ==> script[j].table == Some(entries)
    requires var read := DetectLastTableMove(playingAs, Some(entries));
             read.Read? && !IsFresh(read, previous, previousCount)
    requires script[k].elapsed > timeout && forall j :: 0 <= j < k ==> script[j].elapsed <= timeout
    ensures WaitForComputerMove(previous, previousCount, playingAs, timeout, script) == Finished(TimedOut, k)
  {
    var os := Outcomes(previous, previousCount, playingAs, timeout, script);
    assert os[k] == TimedOut;
    assert forall j :: 0 <= j < k ==> os[j] == KeepPolling;
    FirstStopIsFirstTerminal(os, 0);
    var r := FirstStop(os, 0);
    assert r.Finished? && r.poll <= k;
  }

  /** Playing white after 4 entries ending in "e4", a fifth entry "e4" is not a new move but "Nf3" is. */
  lemma DetectionExamples()
    ensures PollStep("e4", 4, "white", 10.0, Snapshot(Some(["e4", "e5", "Nf3", "e4", "e4"]), 0.5)) == KeepPolling
    ensures PollStep("e4", 4, "white", 10.0, Snapshot(Some(["e4", "e5", "Nf3", "e4", "Nf3"]), 0.5)) == Detected("Nf3")
    ensures PollStep("e4", 4, "white", 10.0, Snapshot(Some(["e4", "e5", "Nf3", "e4", "e4"]), 10.1)) == TimedOut
    ensures PollStep("e4", 4, "white", 10.0, Snapshot(Some(["e4", "e5", "Nf3", "e4", "e4"]), 10.0)) == KeepPolling
  {
    VisibleIsNotSpace('e');
    VisibleIsNotSpace('4');
    VisibleIsNotSpace('N');
    VisibleIsNotSpace('3');
    WhiteReadsNewestEntry(["e4", "e5", "Nf3", "e4"], "e4");
    WhiteReadsNewestEntry(["e4", "e5", "Nf3", "e4"], "Nf3");
    assert ["e4", "e5", "Nf3", "e4"] + ["e4"] == ["e4", "e5", "Nf3", "e4", "e4"];
    assert ["e4", "e5", "Nf3", "e4"] + ["Nf3"] == ["e4", "e5", "Nf3", "e4", "Nf3"];
  }
}
