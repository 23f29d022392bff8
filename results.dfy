/**
 The result table and reportMatch, which records one finished match as a
 'win' row for the winner followed by a 'loss' row for the loser. It records
 any reported pair: nothing checks it against the scheduled matches.

 How the aggregate view turns result rows into win records is not part of
 this model; WinCount and LossCount count the rows of one player, and a
 player's matches are taken to be wins plus losses.
 */
module Results {
  import opened Records

  /** The number of 'win' rows of `player`. */
  function WinCount(rows: seq<ResultRow>, player: int): nat
  {
    if rows == [] then 0
    else (if rows[0] == ResultRow(player, Win) then 1 else 0) + WinCount(rows[1..], player)
  }

  /** The number of 'loss' rows of `player`. */
  function LossCount(rows: seq<ResultRow>, player: int): nat
  {
    if rows == [] then 0
    else (if rows[0] == ResultRow(player, Loss) then 1 else 0) + LossCount(rows[1..], player)
  }

  /** The result table, held in memory. */
  class ResultLog {
    var rows: seq<ResultRow>

    constructor ()
      ensures rows == []
    {
      rows := [];
    }

    /** reportMatch(winner, loser): appends the winner's 'win' row, then the loser's 'loss' row. */
    method ReportMatch(winner: int, loser: int)
      modifies this
      ensures rows == old(rows) + [ResultRow(winner, Win), ResultRow(loser, Loss)]
    {
      rows := rows + [ResultRow(winner, Win)];
      rows := rows + [ResultRow(loser, Loss)];
    }
  }

  /** Counting rows distributes over appending to the table. */
  lemma {:induction false} CountsOfAppend(a: seq<ResultRow>, b: seq<ResultRow>, player: int)
    ensures WinCount(a + b, player) == WinCount(a, player) + WinCount(b, player)
    ensures LossCount(a + b, player) == LossCount(a, player) + LossCount(b, player)
  {
    if a == [] {
      assert a + b == b;
    } else {
      assert (a + b)[1..] == a[1..] + b;
      CountsOfAppend(a[1..], b, player);
    }
  }

  /**
   Reporting a match gives the winner one more win, the loser one more loss,
   each of them one more match played, and leaves every other player's counts
   as they were.
   */
  lemma ReportMatchTally(rows: seq<ResultRow>, winner: int, loser: int, player: int)
    ensures var after := rows + [ResultRow(winner, Win), ResultRow(loser, Loss)];
      && WinCount(after, player) == WinCount(rows, player) + (if player == winner then 1 else 0)
      && LossCount(after, player) == LossCount(rows, player) + (if player == loser then 1 else 0)
  {
    var added := [ResultRow(winner, Win), ResultRow(loser, Loss)];
    CountsOfAppend(rows, added, player);
    assert added[1..] == [ResultRow(loser, Loss)] && added[1..][1..] == [];
    assert WinCount(added[1..], player) == 0;
    assert LossCount(added[1..], player) == if player == loser then 1 else 0;
  }
}
