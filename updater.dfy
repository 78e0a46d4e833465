/**
 The update button of the application: from the two scores it derives the match
 outcome and the goal difference, reads every player's latest rating from the
 file, computes the two new ratings, truncates them to integers and writes
 each back with the rating-replacing writer. The text entries, the dialog
 boxes and the file itself are outside the model: the scores arrive as
 integers, the file as its lines.
 */
module Updater {
  import opened Text
  import opened Store
  import opened StoreLaws
  import opened Engine

  // ---------------------------------------------------------------------------
  // The match
  // ---------------------------------------------------------------------------

  /** `outcome`: the first player's score in the match, one for a win, zero for a loss,
      one half for a draw. */
  function Outcome(score1: int, score2: int): (outcome: real)
    ensures outcome == 1.0 <==> score1 > score2
    ensures outcome == 0.0 <==> score1 < score2
    ensures outcome == 0.5 <==> score1 == score2
  {
    if score1 > score2 then 1.0 else if score1 < score2 then 0.0 else 0.5
  }

  /** The second player's outcome is what the first one did not get. */
  lemma OutcomeComplement(score1: int, score2: int)
    ensures Outcome(score2, score1) == 1.0 - Outcome(score1, score2)
  {
  }

  /** `goal_diff = abs(score1 - score2)`: how far apart the two scores are. */
  function GoalDiff(score1: int, score2: int): (d: nat)
    ensures d == score1 - score2 || d == score2 - score1
    ensures d == 0 <==> score1 == score2
  {
    if score1 >= score2 then score1 - score2 else score2 - score1
  }

  /** The goal difference does not depend on which player is named first, and it is zero
      exactly for a draw. */
  lemma GoalDiffSymmetric(score1: int, score2: int)
    ensures GoalDiff(score2, score1) == GoalDiff(score1, score2)
    ensures GoalDiff(score1, score2) == 0 <==> Outcome(score1, score2) == 0.5
  {
  }

  /** `int(x)` on a float: the integer part, rounded toward zero. */
  function Truncate(x: real): (v: int)
    ensures x >= 0.0 ==> 0 <= v && v as real <= x < v as real + 1.0
    ensures x < 0.0 ==> v <= 0 && v as real - 1.0 < x <= v as real
  {
    if x >= 0.0 then x.Floor else -((-x).Floor)
  }

  /** Truncation keeps whole numbers and moves any number by less than one. */
  lemma TruncateWhole(v: int, x: real)
    ensures Truncate(v as real) == v
    ensures x - 1.0 < Truncate(x) as real < x + 1.0
  {
  }

  // ---------------------------------------------------------------------------
  // update_elo_ratings
  // ---------------------------------------------------------------------------

  /** The two ratings as the lookup finds them: each player's rating in the last line holding
      one for that player, `1000` for a player the file does not know. */
  function OldRatings(lines: seq<string>, player1: string, player2: string): (ratings: (real, real))
    ensures player1 != [] ==>
            ratings.0 == if LatestEntry(lines, player1).Some? then Value(LatestEntry(lines, player1).value) else DefaultRating
    ensures player2 != [] ==>
            ratings.1 == if LatestEntry(lines, player2).Some? then Value(LatestEntry(lines, player2).value) else DefaultRating
    ensures player1 == [] ==> ratings.0 == DefaultRating
    ensures player2 == [] ==> ratings.1 == DefaultRating
  {
    var table := RatingTable(lines);
    var latest1, latest2 := LatestEntry(lines, player1), LatestEntry(lines, player2);
    assert player1 != [] ==> RatingOf(table, player1) == (if latest1.Some? then Value(latest1.value) else DefaultRating) by {
      if player1 != [] { RatingTableLookup(lines, player1); }
    }
    assert player2 != [] ==> RatingOf(table, player2) == (if latest2.Some? then Value(latest2.value) else DefaultRating) by {
      if player2 != [] { RatingTableLookup(lines, player2); }
    }
    (RatingOf(table, player1), RatingOf(table, player2))
  }

  /** The two integers written back: the new ratings of the match, truncated. Neither moves
      by more than the K-factor plus the truncation. */
  function NewRatings(lines: seq<string>, player1: string, player2: string, score1: int, score2: int,
                      pow10: real -> Positive, log2: real -> real): (ratings: (int, int))
    ensures var (r1, r2) := OldRatings(lines, player1, player2);
            && r1 - K - 1.0 < ratings.0 as real < r1 + K + 1.0
            && r2 - K - 1.0 < ratings.1 as real < r2 + K + 1.0
  {
    var (r1, r2) := OldRatings(lines, player1, player2);
    var (n1, n2) := UpdateElo(r1, r2, Outcome(score1, score2), GoalDiff(score1, score2), pow10, log2);
    TruncateWhole(0, n1);
    TruncateWhole(0, n2);
    (Truncate(n1), Truncate(n2))
  }

  /** The button's handler, with the file as lines: it builds the rating map, computes the
      two new ratings and writes the first player's and then the second player's back. */
  method UpdateEloRatings(lines: seq<string>, player1: string, player2: string, score1: int, score2: int,
                          pow10: real -> Positive, log2: real -> real)
    returns (updated: seq<string>, new1: int, new2: int)
    ensures (new1, new2) == NewRatings(lines, player1, player2, score1, score2, pow10, log2)
    ensures updated == Upsert(Upsert(lines, player1, new1, true), player2, new2, true)
  {
    var goalDiff := GoalDiff(score1, score2);
    var outcome := Outcome(score1, score2);
    var ratings := CollectRatings(lines);
    var rating1 := RatingOf(ratings, player1);
    var rating2 := RatingOf(ratings, player2);
    var (n1, n2) := UpdateElo(rating1, rating2, outcome, goalDiff, pow10, log2);
    new1 := Truncate(n1);
    new2 := Truncate(n2);
    var afterFirst := WriteToCsvFile(lines, player1, new1, true);
    updated := WriteToCsvFile(afterFirst, player2, new2, true);
  }

  /** Zero sum survives the truncation up to less than one point per player. */
  lemma NewRatingsNearlyZeroSum(lines: seq<string>, player1: string, player2: string, score1: int, score2: int,
                                pow10: real -> Positive, log2: real -> real)
    requires PowerLaws(OldRatings(lines, player1, player2).0, OldRatings(lines, player1, player2).1, pow10)
    ensures var (r1, r2) := OldRatings(lines, player1, player2);
            var (v1, v2) := NewRatings(lines, player1, player2, score1, score2, pow10, log2);
            r1 + r2 - 2.0 < (v1 + v2) as real < r1 + r2 + 2.0
  {
    var (r1, r2) := OldRatings(lines, player1, player2);
    var (n1, n2) := UpdateElo(r1, r2, Outcome(score1, score2), GoalDiff(score1, score2), pow10, log2);
    UpdateEloZeroSum(r1, r2, Outcome(score1, score2), GoalDiff(score1, score2), pow10, log2);
    TruncateWhole(0, n1);
    TruncateWhole(0, n2);
  }

  // ---------------------------------------------------------------------------
  // The two writes
  // ---------------------------------------------------------------------------

  /** Two upserts of two different players: both players read back as written, in both
      lookups. */
  lemma TwoUpsertsStoreBoth(lines: seq<string>, mid: seq<string>, out: seq<string>,
                            player1: string, player2: string, value1: int, value2: int)
    requires ValidName(player1) && ValidName(player2) && player1 != player2
    requires UpsertsRating(lines, mid, player1, value1) && UpsertsRating(mid, out, player2, value2)
    requires Terminated(mid) && Terminated(out)
    ensures StoredRating(out, player1) == value1 as real && StoredRating(out, player2) == value2 as real
    ensures RatingOf(RatingTable(out), player1) == value1 as real
    ensures RatingOf(RatingTable(out), player2) == value2 as real
  {
    ReadAfterUpsert(lines, mid, player1, value1);
    TableAfterUpsert(lines, mid, player1, value1);
    ReadOtherAfterUpsert(mid, out, player2, player1, value2);
    TableOtherAfterUpsert(mid, out, player2, player1, value2);
    ReadAfterUpsert(mid, out, player2, value2);
    TableAfterUpsert(mid, out, player2, value2);
  }

  /** Two upserts leave every third player's rating as it was, in both lookups. */
  lemma TwoUpsertsKeepOthers(lines: seq<string>, mid: seq<string>, out: seq<string>,
                             player1: string, player2: string, value1: int, value2: int, other: string)
    requires ValidName(player1) && ValidName(player2) && other != player1 && other != player2
    requires UpsertsRating(lines, mid, player1, value1) && UpsertsRating(mid, out, player2, value2)
    requires Terminated(mid) && Terminated(out)
    ensures StoredRating(out, other) == StoredRating(lines, other)
    ensures RatingOf(RatingTable(out), other) == RatingOf(RatingTable(lines), other)
  {
    ReadOtherAfterUpsert(lines, mid, player1, other, value1);
    TableOtherAfterUpsert(lines, mid, player1, other, value1);
    ReadOtherAfterUpsert(mid, out, player2, other, value2);
    TableOtherAfterUpsert(mid, out, player2, other, value2);
  }

  /** The two writes as the handler does them: each upsert does its job when no row of
      either player lacks a comma. */
  lemma UpdateUpserts(lines: seq<string>, player1: string, player2: string, value1: int, value2: int)
    requires ValidName(player1) && ValidName(player2) && player1 != player2
    requires MatchingRowsHaveComma(lines, player1) && MatchingRowsHaveComma(lines, player2)
    ensures UpsertsRating(lines, Upsert(lines, player1, value1, true), player1, value1)
    ensures UpsertsRating(Upsert(lines, player1, value1, true),
                          Upsert(Upsert(lines, player1, value1, true), player2, value2, true), player2, value2)
  {
    var mid := Upsert(lines, player1, value1, true);
    UpsertUpserts(lines, player1, value1, true);
    UpsertKeepsOtherRows(lines, mid, player1, player2, value1);
    UpsertUpserts(mid, player2, value2, true);
  }

  /** After the handler's two writes the file holds both new ratings, as long as no row of
      either player lacks a comma. */
  lemma UpdateStoresNewRatings(lines: seq<string>, player1: string, player2: string, value1: int, value2: int)
    requires ValidName(player1) && ValidName(player2) && player1 != player2 && Terminated(lines)
    requires MatchingRowsHaveComma(lines, player1) && MatchingRowsHaveComma(lines, player2)
    ensures var out := Upsert(Upsert(lines, player1, value1, true), player2, value2, true);
            && StoredRating(out, player1) == value1 as real && StoredRating(out, player2) == value2 as real
            && RatingOf(RatingTable(out), player1) == value1 as real
            && RatingOf(RatingTable(out), player2) == value2 as real
  {
    var mid := Upsert(lines, player1, value1, true);
    UpdateUpserts(lines, player1, player2, value1, value2);
    UpsertKeepsTerminated(lines, player1, value1, true);
    UpsertKeepsTerminated(mid, player2, value2, true);
    TwoUpsertsStoreBoth(lines, mid, Upsert(mid, player2, value2, true), player1, player2, value1, value2);
  }

  /** The handler's two writes leave every other player's rating as it was. */
  lemma UpdateKeepsOthers(lines: seq<string>, player1: string, player2: string, value1: int, value2: int,
                          other: string)
    requires ValidName(player1) && ValidName(player2) && player1 != player2 && Terminated(lines)
    requires MatchingRowsHaveComma(lines, player1) && MatchingRowsHaveComma(lines, player2)
    requires other != player1 && other != player2
    ensures var out := Upsert(Upsert(lines, player1, value1, true), player2, value2, true);
            && StoredRating(out, other) == StoredRating(lines, other)
            && RatingOf(RatingTable(out), other) == RatingOf(RatingTable(lines), other)
  {
    var mid := Upsert(lines, player1, value1, true);
    UpdateUpserts(lines, player1, player2, value1, value2);
    UpsertKeepsTerminated(lines, player1, value1, true);
    UpsertKeepsTerminated(mid, player2, value2, true);
    TwoUpsertsKeepOthers(lines, mid, Upsert(mid, player2, value2, true), player1, player2, value1, value2, other);
  }

  /** With the corrected writer, the two writes store both new ratings whatever rows the file
      holds, as long as its lines end in their newlines. */
  lemma UpdateFixedStoresNewRatings(lines: seq<string>, player1: string, player2: string, value1: int, value2: int)
    requires ValidName(player1) && ValidName(player2) && player1 != player2 && Terminated(lines)
    ensures var out := UpsertFixed(UpsertFixed(lines, player1, value1, true), player2, value2, true);
            && StoredRating(out, player1) == value1 as real && StoredRating(out, player2) == value2 as real
            && RatingOf(RatingTable(out), player1) == value1 as real
            && RatingOf(RatingTable(out), player2) == value2 as real
  {
    var mid := UpsertFixed(lines, player1, value1, true);
    UpsertFixedUpserts(lines, player1, value1, true);
    UpsertFixedUpserts(mid, player2, value2, true);
    UpsertFixedKeepsTerminated(lines, player1, value1, true);
    UpsertFixedKeepsTerminated(mid, player2, value2, true);
    TwoUpsertsStoreBoth(lines, mid, UpsertFixed(mid, player2, value2, true), player1, player2, value1, value2);
  }

  // ---------------------------------------------------------------------------
  // A first match on an empty file
  // ---------------------------------------------------------------------------

  /** Alice beats Bob 3 to 1 on an empty file: both start at 1000 and Alice ends above Bob. */
  lemma EmptyStoreRatings(pow10: real -> Positive, log2: real -> real)
    requires log2(3.0) > -4.0
    ensures NewRatings([], "Alice", "Bob", 3, 1, pow10, log2).0 > NewRatings([], "Alice", "Bob", 3, 1, pow10, log2).1
  {
    assert OldRatings([], "Alice", "Bob") == (DefaultRating, DefaultRating);
    assert Outcome(3, 1) == 1.0 && GoalDiff(3, 1) == 2;
    WinnerGainsLoserLoses(DefaultRating, DefaultRating, 2, pow10, log2);
  }

  /** Writing Alice's and then Bob's rating to an empty file gives one new row for each,
      Alice's first. */
  lemma EmptyStoreRows(a: int, b: int)
    ensures Upsert(Upsert([], "Alice", a, true), "Bob", b, true) == [NewRow("Alice", a), NewRow("Bob", b)]
  {
    var mid := Upsert([], "Alice", a, true);
    assert mid == [NewRow("Alice", a)] by {
      UpsertNewPlayer([], "Alice", a, true);
    }
    assert !AnyMatches(mid, "Bob") by {
      assert ValidName("Alice") by {
        StripKeeps("Alice");
        assert '"' !in "Alice" && ',' !in "Alice" && NoBreak("Alice");
      }
      assert "Bob" != "Alice" && "Bob" != [];
      NewRowNotOther("Alice", "Bob", a);
      assert mid[..0] == [];
    }
    UpsertNewPlayer(mid, "Bob", b, true);
  }
}
