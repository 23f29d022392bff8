# Swiss-system tournament: standings and pairing

A verified model of the core of a small Swiss-system tournament library
(`project2/tournament.py`). Players are registered, match results are
reported, the standings list every player best first, and the next round's
pairings are drawn from the standings and the match history.

- **Standings** (`playerStandings`): every registered player joined with
  the aggregate view of results. Missing counts are coalesced to 0, and the
  list is ordered by wins, descending. Modelled as pure functions
  (`standings.dfy`).
- **Result recording** (`reportMatch`): appends one 'win' row for the
  winner and one 'loss' row for the loser. Modelled as a class over the
  result table (`results.dfy`).
- **Pairing engine** (`swissPairings`, with `removePreviousOpponents` and
  `isNewOpponent`): a greedy pass over the standings worklist.
  - It takes the front player off the worklist.
  - It claims that player's rows from the match history. Each claimed row
    yields one previous opponent and is removed, so no row is claimed twice
    in one run.
  - It pairs the player with the first remaining player, in rank order, who
    is not a previous opponent.
  - When nobody eligible is left, the run fails and no pairing is kept.

  `SwissPairings` and `RemovePreviousOpponents` are methods with loops, as
  in the source. Each is proved equal to a specification function
  (`Pairings`, `ClaimedOpponents`/`Unclaimed`), and the lemmas state what
  the source promises about those functions (`opponents.dfy`,
  `pairing.dfy`).
- **As written** (`as_written.dfy`): the loop of `removePreviousOpponents`
  and the call at line 214 do not do what the documentation says. They are
  modelled as they are written, with lemmas that exhibit the difference (see
  Findings). The rest of the model implements the documented behaviour.

The standings and the match table, which the source reads from a database,
are parameters. The view that aggregates results (`pwm_view`) is not part
of this model; its per-player win record is an input map.

## Model

| member | source | states |
|---|---|---|
| `Opponents.IndexOf` | project2/tournament.py:172-176 | `list.index`: a found position holds `x` and no earlier position does; None (ValueError) exactly when `x` is absent |
| `Opponents.IsNewOpponent` | project2/tournament.py:163-178 | true exactly when the player does not occur in the opponents list; as a function it cannot change that list |
| `Opponents.RemovePreviousOpponents` | project2/tournament.py:129-160 | returns exactly the opponents `ClaimedOpponents` names and the history `Unclaimed` leaves |
| `Opponents.ClaimedOpponentsAreMet` | project2/tournament.py:129-160 | an id is returned as previous opponent iff some history row has the player and that id in its two slots, either order |
| `Opponents.UnclaimedKeepsOthers` | project2/tournament.py:132-134 | a row stays iff it does not involve the player; every row either stays or gives one opponent |
| `Opponents.ClaimSplits` | project2/tournament.py:151-158 | claiming distributes over concatenation, so the rows kept keep their order and opponents come in row order |
| `Opponents.ClaimOnce` | project2/tournament.py:151-158 | after claiming, nothing is left to claim for that player (claim-once) |
| `Opponents.MetAfterClaim` | project2/tournament.py:208-214 | claiming one player's rows leaves every match between two other players on record |
| `PairingEngine.FirstNewOpponent` | project2/tournament.py:216-222 | the scan picks the first remaining player not among the opponents, every earlier one being among them; None when all are |
| `PairingEngine.SwissPairings` | project2/tournament.py:206-226 | the loop computes `Pairings(standings, history)`: each round removes the front entry and at most one more, and a failed round returns no pairings |
| `PairingEngine.PairingsHalveWorklist` | project2/tournament.py:184-188 | a complete pairing has half as many pairs as there are players |
| `PairingEngine.PairingsSeatEveryone` | project2/tournament.py:184-188 | the players seated by the pairings are, as a multiset, exactly the players of the standings |
| `PairingEngine.OddWorklistFails` | project2/tournament.py:184-185 | an odd number of players is never paired completely |
| `PairingEngine.SeatedExactlyOnce` | project2/tournament.py:184-185 | with distinct ids, each player appears in exactly one pairing |
| `PairingEngine.SeatedAreListed` | project2/tournament.py:208-226 | every seated player is a player of the standings |
| `PairingEngine.NoRematch` | project2/tournament.py:213-222 | with distinct ids, no pairing repeats a match recorded in the history, in either slot order |
| `PairingEngine.PartnerIsFirstUnmet` | project2/tournament.py:185-187 | the top player is paired with the first player below it that it has not met, having met everyone in between |
| `PairingEngine.EmptyHistoryPairsNeighbours` | project2/tournament.py:184-188 | with no history the result is (s0,s1), (s2,s3), ...; an odd list fails on its last player |
| `PairingEngine.FailingPlayerIsListed` | project2/tournament.py:217-226 | a failing run names a player of the standings |
| `PairingEngine.FrontFailsIffMetEveryone` | project2/tournament.py:217-226 | with distinct ids, the run fails on the top player iff that player has met every other player |
| `PairingEngine.GreedyDoesNotBacktrack` | project2/tournament.py:208-222 | a four-player history where greedy pairing fails although A-C, B-D are both new |
| `Standings.Join` | project2/tournament.py:80-84 | one row per registered player, in table order, with coalesced counts |
| `Standings.Insert` | project2/tournament.py:85 | inserting into a list ordered by wins keeps it ordered and adds exactly that row |
| `Standings.SortByWins` | project2/tournament.py:85 | the result is ordered by wins (non-increasing) and is a permutation of its input |
| `Standings.PlayerStandings` | project2/tournament.py:79-86 | one row per registered player, wins non-increasing down the list |
| `Standings.StandingsListEveryPlayer` | project2/tournament.py:79-86 | the players of the standings are a permutation of the registered players |
| `Standings.StandingsCoalesceCounts` | project2/tournament.py:81-84 | each row has the view's counts; a player without a view row has 0 wins and 0 matches |
| `Standings.RankedListsAgreeOnWins` | project2/tournament.py:85 | any two lists of the same rows ordered by wins have equal wins at every position (order varies only among ties) |
| `Results.ResultLog.ReportMatch` | project2/tournament.py:119-122 | appends the winner's 'win' row, then the loser's 'loss' row, with no check against scheduled matches |
| `Results.CountsOfAppend` | project2/tournament.py:119-122 | win and loss counts of a table are the sums over its parts |
| `Results.ReportMatchTally` | project2/tournament.py:119-122 | reporting gives the winner one more win and the loser one more loss; every other player's counts stay as they were |
| `AsWritten.RemoveLoopKeepsPrefix` | project2/tournament.py:151-158 | as written, the rows up to enumerate's position are never popped |
| `AsWritten.AsWrittenNeverClaimsFirstRow` | project2/tournament.py:151-158 | as written, whenever the loop returns, the first history row is still in the list |
| `AsWritten.SingleRowReadsPastEnd` | project2/tournament.py:151-155 | as written, one previous match raises IndexError where one opponent should be returned |
| `AsWritten.FirstRowSkipped` | project2/tournament.py:151-158 | as written, two previous matches yield one opponent and leave the first row unclaimed |
| `AsWritten.RowKeyLoop` | project2/tournament.py:151-158 | a key equal to no id pops nothing and reads past the end of any non-empty list |
| `AsWritten.RowKeyClaimsNothing` | project2/tournament.py:214 | passing the standings row claims nothing: `[]` on an empty history, IndexError otherwise |
| `AsWritten.AsWrittenFailsOnAnyHistory` | project2/tournament.py:214 | as written, any non-empty history makes swissPairings raise IndexError |
| `AsWritten.AsWrittenAgreesOnEmptyHistory` | project2/tournament.py:206-226 | with no history, the code as written returns the documented pairings, and raises TypeError where the model reports no eligible partner |
| `AsWritten.SecondRoundCrashes` | project2/tournament.py:214 | second round after P1 beat P2 and P3 beat P4: documented (P1,P3), (P2,P4); as written IndexError |

## Left out

- `connect`, `deleteMatches`, `deletePlayers`, `countPlayers`, `registerPlayer` (lines 9-60): database connection and insert/delete/count I/O, no logic to model.
- The reads at lines 198-204: the standings and the match table become the parameters of `PairingEngine.SwissPairings`.
- Recording the pairings as pending matches (lines 229-235), including the `db.close` that is never called: persistence only. The model returns the pairings. On failure, it returns no pairings, just as the code raises before it records anything.
- The schedule check commented out of `reportMatch` (lines 103-118, 124-125): dead code. Results are recorded for any pair, and nothing checks that the players exist.
- `pwm_view` is not part of this model: the win record per player is an input map, and `Results` only counts result rows.
- Standings.PlayerStandings: orders by the coalesced win count. The query orders by the raw `pwm_view.wins`, and PostgreSQL sorts NULLs first under DESC, so players with no view row would come first; that NULL ordering is not modelled. Equal win counts keep registration order where the database may use any order; `RankedListsAgreeOnWins` shows that any order the query may return has the same wins at every position.
- Opponents.RemovePreviousOpponents: returns the shortened history instead of popping rows from the caller's list in place; the list is not shared with anyone else, so no aliasing is lost.
- PairingEngine.SwissPairings: reports `NoEligiblePartner` where the code raises TypeError at line 226 (`nextOpponent` is None). Like the code, it does not reject an odd number of players before the loop: the last player is then reported as having no partner.
- Player ids are unbounded integers; `NoRematch`, `SeatedExactlyOnce` and `FrontFailsIffMetEveryone` assume distinct ids, as the database's serial ids are.

## Findings

| source | as written | input that shows it | evidently intended | confidence | as-written member | corrected member |
|---|---|---|---|---|---|---|
| project2/tournament.py:151-158 | the enumerate loop reads and pops index `i + 1` while enumerate walks the list it pops from | player 1, history [(1,2)]: IndexError; history [(1,2),(1,3)]: returns [3] and leaves (1,2) | claim every row with the player in either slot: [2] and [2,3], nothing left | high (not executed) | `AsWritten.FirstRowSkipped` | `Opponents.RemovePreviousOpponents` |
| project2/tournament.py:214 | passes the whole standings row `nextPlayer`, which never equals an id | standings P1,P3,P2,P4 after matches (1,2),(3,4): IndexError | pass `nextPlayer[0]`: pairings (P1,P3), (P2,P4) | high (not executed) | `AsWritten.SecondRoundCrashes` | `PairingEngine.SwissPairings` |
