/**
 The opponent bookkeeping of the pairing engine: the membership test
 isNewOpponent, and removePreviousOpponents, which collects a player's
 previous opponents from the match history and takes ("claims") the rows it
 used out of that history, so that a row is used for at most one player per
 pairing run.

 removePreviousOpponents is modelled as its documentation intends it (every
 row with the player in either slot is claimed, the other rows stay in their
 order); the loop as written is in module AsWritten.
 */
module Opponents {
  import opened Records

  /** The row has `player` in its first or its second slot. */
  predicate Involves(row: MatchRow, player: int)
  {
    row.player1 == player || row.player2 == player
  }

  /** Some row of `rows` is a match between `a` and `b`, in either slot order. */
  predicate Met(rows: seq<MatchRow>, a: int, b: int)
  {
    exists k :: 0 <= k < |rows| && ((rows[k].player1 == a && rows[k].player2 == b) ||
                                    (rows[k].player1 == b && rows[k].player2 == a))
  }

  /** Python's list.index: the first position of `x` in `s`; None where it raises ValueError. */
  function IndexOf(x: int, s: seq<int>): (r: Option<nat>)
    ensures r.Some? ==> r.value < |s| && s[r.value] == x
    ensures r.Some? ==> forall j :: 0 <= j < r.value ==> s[j] != x
    ensures r.None? <==> x !in s
  {
    if s == [] then None
    else if s[0] == x then Some(0)
    else match IndexOf(x, s[1..])
      case None => None
      case Some(i) => Some(i + 1)
  }

  /** isNewOpponent: true exactly when `player` does not occur in `opponents`. */
  function IsNewOpponent(player: int, opponents: seq<int>): (r: bool)
    ensures r <==> player !in opponents
  {
    IndexOf(player, opponents).None?
  }

  /** The id in the slot of `row` that `player` does not occupy (the first slot is tested first). */
  function OtherSlot(row: MatchRow, player: int): int
  {
    if row.player1 == player then row.player2 else row.player1
  }

  /** The previous opponents of `player`, one per row that involves the player, in row order. */
  function ClaimedOpponents(player: int, rows: seq<MatchRow>): seq<int>
  {
    if rows == [] then []
    else (if Involves(rows[0], player) then [OtherSlot(rows[0], player)] else [])
         + ClaimedOpponents(player, rows[1..])
  }

  /** The history left once the rows that involve `player` have been claimed. */
  function Unclaimed(player: int, rows: seq<MatchRow>): seq<MatchRow>
  {
    if rows == [] then []
    else (if Involves(rows[0], player) then [] else [rows[0]]) + Unclaimed(player, rows[1..])
  }

  /**
   removePreviousOpponents(player, matches): returns the player's previous
   opponents and the history with the claimed rows removed. The source pops
   the claimed rows from the caller's list in place; here the shortened list
   is returned. Matching rows are popped at the scan position, which then
   does not advance.
   */
  method RemovePreviousOpponents(player: int, matches: seq<MatchRow>)
    returns (previousOpponents: seq<int>, remaining: seq<MatchRow>)
    ensures previousOpponents == ClaimedOpponents(player, matches)
    ensures remaining == Unclaimed(player, matches)
  {
    previousOpponents := [];
    remaining := matches;
    var i := 0;
    while i < |remaining|
      invariant 0 <= i <= |remaining|
      invariant ClaimedOpponents(player, matches)
             == previousOpponents + ClaimedOpponents(player, remaining[i..])
      invariant Unclaimed(player, matches) == remaining[..i] + Unclaimed(player, remaining[i..])
      decreases |remaining| - i
    {
      var m := remaining[i];
      assert remaining[i..] == [m] + remaining[i + 1..];
      if player == m.player1 {
        previousOpponents := previousOpponents + [m.player2];
        remaining := remaining[..i] + remaining[i + 1..];
      } else if player == m.player2 {
        previousOpponents := previousOpponents + [m.player1];
        remaining := remaining[..i] + remaining[i + 1..];
      } else {
        assert remaining[..i + 1] == remaining[..i] + [m];
        i := i + 1;
      }
    }
    assert remaining[..i] == remaining;
  }

  /** A returned id is a previous opponent exactly when some history row records a match with it. */
  lemma {:induction false} ClaimedOpponentsAreMet(player: int, rows: seq<MatchRow>, x: int)
    ensures x in ClaimedOpponents(player, rows) <==> Met(rows, player, x)
  {
    if rows != [] {
      ClaimedOpponentsAreMet(player, rows[1..], x);
      if Met(rows[1..], player, x) {
        var k :| 0 <= k < |rows[1..]| && ((rows[1..][k].player1 == player && rows[1..][k].player2 == x) ||
                                          (rows[1..][k].player1 == x && rows[1..][k].player2 == player));
        assert rows[k + 1] == rows[1..][k];
      }
      if Met(rows, player, x) {
        var k :| 0 <= k < |rows| && ((rows[k].player1 == player && rows[k].player2 == x) ||
                                     (rows[k].player1 == x && rows[k].player2 == player));
        if k > 0 {
          assert rows[1..][k - 1] == rows[k];
        }
      }
    }
  }

  /**
   Exactly the rows that involve the player are claimed: a row stays exactly
   when it was in the history and does not involve the player, and every
   row either stays or contributes one opponent.
   */
  lemma {:induction false} UnclaimedKeepsOthers(player: int, rows: seq<MatchRow>)
    ensures forall r :: r in Unclaimed(player, rows) <==> r in rows && !Involves(r, player)
    ensures |ClaimedOpponents(player, rows)| + |Unclaimed(player, rows)| == |rows|
  {
    if rows != [] {
      UnclaimedKeepsOthers(player, rows[1..]);
      assert rows == [rows[0]] + rows[1..];
    }
  }

  /** The rows kept stay in their original order: claiming distributes over concatenation. */
  lemma {:induction false} ClaimSplits(player: int, a: seq<MatchRow>, b: seq<MatchRow>)
    ensures Unclaimed(player, a + b) == Unclaimed(player, a) + Unclaimed(player, b)
    ensures ClaimedOpponents(player, a + b) == ClaimedOpponents(player, a) + ClaimedOpponents(player, b)
  {
    if a != [] {
      assert (a + b)[1..] == a[1..] + b;
      ClaimSplits(player, a[1..], b);
    } else {
      assert a + b == b;
    }
  }

  /** Claim-once: the history left for a player holds nothing more to claim for that player. */
  lemma {:induction false} ClaimOnce(player: int, rows: seq<MatchRow>)
    ensures ClaimedOpponents(player, Unclaimed(player, rows)) == []
    ensures Unclaimed(player, Unclaimed(player, rows)) == Unclaimed(player, rows)
  {
    if rows != [] {
      ClaimOnce(player, rows[1..]);
      if !Involves(rows[0], player) {
        var u := Unclaimed(player, rows[1..]);
        var v := [rows[0]] + u;
        assert Unclaimed(player, rows) == v;
        assert v[0] == rows[0] && v[1..] == u;
        assert ClaimedOpponents(player, v) == ClaimedOpponents(player, u);
        assert Unclaimed(player, v) == [rows[0]] + Unclaimed(player, u);
      } else {
        assert Unclaimed(player, rows) == Unclaimed(player, rows[1..]);
      }
    }
  }

  /** Claiming one player's rows changes nothing about matches between two other players. */
  lemma {:induction false} MetAfterClaim(player: int, rows: seq<MatchRow>, a: int, b: int)
    requires a != player && b != player
    ensures Met(Unclaimed(player, rows), a, b) <==> Met(rows, a, b)
  {
    if rows != [] {
      MetAfterClaim(player, rows[1..], a, b);
      var u := Unclaimed(player, rows[1..]);
      var head := if Involves(rows[0], player) then [] else [rows[0]];
      assert Unclaimed(player, rows) == head + u;
      if Met(rows, a, b) {
        var k :| 0 <= k < |rows| && ((rows[k].player1 == a && rows[k].player2 == b) ||
                                     (rows[k].player1 == b && rows[k].player2 == a));
        if k == 0 {
          assert (head + u)[0] == rows[0];
        } else {
          assert rows[1..][k - 1] == rows[k];
          var k' :| 0 <= k' < |u| && ((u[k'].player1 == a && u[k'].player2 == b) ||
                                      (u[k'].player1 == b && u[k'].player2 == a));
          assert (head + u)[|head| + k'] == u[k'];
        }
      }
      if Met(head + u, a, b) {
        var k :| 0 <= k < |head + u| && (((head + u)[k].player1 == a && (head + u)[k].player2 == b) ||
                                         ((head + u)[k].player1 == b && (head + u)[k].player2 == a));
        if k < |head| {
          assert (head + u)[k] == rows[0];
        } else {
          assert (head + u)[k] == u[k - |head|];
          var j :| 0 <= j < |rows[1..]| && ((rows[1..][j].player1 == a && rows[1..][j].player2 == b) ||
                                            (rows[1..][j].player1 == b && rows[1..][j].player2 == a));
          assert rows[j + 1] == rows[1..][j];
        }
      }
    }
  }
}
