/**
 The pairing engine (swissPairings): a greedy pass over the standings list,
 best-ranked first. Each round of its loop takes the front player off the
 worklist, claims that player's previous opponents from the match history,
 and pairs the player with the first remaining player, in rank order, who is
 not among them. When no such player remains the run fails and no pairing is
 kept.

 The engine is modelled as its documentation intends it: the front player's
 id (not the whole standings row) is what removePreviousOpponents looks for.
 The code as written is in module AsWritten.
 */
module PairingEngine {
  import opened Records
  import opened Opponents

  /** The result of a pairing run: every pairing, or the player left without an eligible partner. */
  datatype PairingOutcome = Paired(pairings: seq<Pairing>) | NoEligiblePartner(player: int)

  function PairOf(p: StandingsEntry, q: StandingsEntry): Pairing
  {
    Pairing(p.id, p.name, q.id, q.name)
  }

  function RemoveAt<T>(s: seq<T>, i: nat): (r: seq<T>)
    requires i < |s|
    ensures |r| == |s| - 1
  {
    s[..i] + s[i + 1..]
  }

  /**
   The scan of the for/break loop: the position in `rest` of the first
   player that isNewOpponent accepts, or None when every remaining player is
   a previous opponent.
   */
  function FirstNewOpponent(rest: seq<StandingsEntry>, opponents: seq<int>): (r: Option<nat>)
    ensures r.Some? ==> r.value < |rest| && rest[r.value].id !in opponents
    ensures r.Some? ==> forall j :: 0 <= j < r.value ==> rest[j].id in opponents
    ensures r.None? ==> forall j :: 0 <= j < |rest| ==> rest[j].id in opponents
  {
    if rest == [] then None
    else if IsNewOpponent(rest[0].id, opponents) then Some(0)
    else match FirstNewOpponent(rest[1..], opponents)
      case None => None
      case Some(i) => Some(i + 1)
  }

  /** Puts `pairs` in front of the pairings of a successful outcome; a failure stays the same. */
  function Prepend(pairs: seq<Pairing>, outcome: PairingOutcome): PairingOutcome
  {
    match outcome
    case Paired(ps) => Paired(pairs + ps)
    case NoEligiblePartner(_) => outcome
  }

  /** What one pairing run computes from a worklist and the history still unclaimed. */
  function Pairings(worklist: seq<StandingsEntry>, matches: seq<MatchRow>): PairingOutcome
    decreases |worklist|
  {
    if worklist == [] then Paired([])
    else
      var p := worklist[0];
      var rest := worklist[1..];
      match FirstNewOpponent(rest, ClaimedOpponents(p.id, matches))
      case None => NoEligiblePartner(p.id)
      case Some(i) =>
        Prepend([PairOf(p, rest[i])], Pairings(RemoveAt(rest, i), Unclaimed(p.id, matches)))
  }

  /**
   swissPairings, given the standings and the match table it reads. Each
   round of the loop removes the front entry and at most one more, so the
   worklist shrinks and the loop ends; the pairings are returned only when
   every player was paired.
   */
  method SwissPairings(standings: seq<StandingsEntry>, history: seq<MatchRow>)
    returns (outcome: PairingOutcome)
    ensures outcome == Pairings(standings, history)
  {
    var worklist := standings;
    var matches := history;
    var pairings: seq<Pairing> := [];
    while |worklist| != 0
      invariant Pairings(standings, history) == Prepend(pairings, Pairings(worklist, matches))
      decreases |worklist|
    {
      ghost var before, beforeMatches := worklist, matches;
      var nextPlayer := worklist[0];
      worklist := worklist[1..];
      var previousOpponents;
      previousOpponents, matches := RemovePreviousOpponents(nextPlayer.id, matches);

      var i := 0;
      var found := false;
      while i < |worklist|
        invariant 0 <= i <= |worklist|
        invariant forall j :: 0 <= j < i ==> worklist[j].id in previousOpponents
        invariant !found
        decreases |worklist| - i
      {
        if IsNewOpponent(worklist[i].id, previousOpponents) {
          found := true;
          break;
        }
        i := i + 1;
      }

      if !found {
        assert FirstNewOpponent(worklist, previousOpponents) == None;
        return NoEligiblePartner(nextPlayer.id);
      }
      assert FirstNewOpponent(worklist, previousOpponents) == Some(i);
      var nextOpponent := worklist[i];
      worklist := RemoveAt(worklist, i);
      assert Pairings(before, beforeMatches)
          == Prepend([PairOf(nextPlayer, nextOpponent)], Pairings(worklist, matches));
      PrependTwice(pairings, [PairOf(nextPlayer, nextOpponent)], Pairings(worklist, matches));
      pairings := pairings + [PairOf(nextPlayer, nextOpponent)];
    }
    return Paired(pairings);
  }

  lemma PrependTwice(a: seq<Pairing>, b: seq<Pairing>, outcome: PairingOutcome)
    ensures Prepend(a, Prepend(b, outcome)) == Prepend(a + b, outcome)
  {
    if outcome.Paired? {
      assert a + (b + outcome.pairings) == (a + b) + outcome.pairings;
    }
  }

  /** The players seated by a list of pairings, two per pairing, in order. */
  function Seats(pairs: seq<Pairing>): (r: seq<Player>)
    ensures |r| == 2 * |pairs|
    ensures forall k :: 0 <= k < |pairs| ==> r[2 * k] == Player(pairs[k].id1, pairs[k].name1)
    ensures forall k :: 0 <= k < |pairs| ==> r[2 * k + 1] == Player(pairs[k].id2, pairs[k].name2)
  {
    if pairs == [] then []
    else
      var tail := Seats(pairs[1..]);
      var r := [Player(pairs[0].id1, pairs[0].name1), Player(pairs[0].id2, pairs[0].name2)] + tail;
      assert forall k :: 1 <= k < |pairs| ==> r[2 * k] == tail[2 * (k - 1)] && r[2 * k + 1] == tail[2 * (k - 1) + 1];
      r
  }

  /** The pairing of the standings when nobody has played yet: first with second, third with fourth, ... */
  function Neighbours(worklist: seq<StandingsEntry>): seq<Pairing>
    decreases |worklist|
  {
    if |worklist| < 2 then [] else [PairOf(worklist[0], worklist[1])] + Neighbours(worklist[2..])
  }

  /** Where each player left over after a round stood in the worklist. */
  lemma TailOfRound(worklist: seq<StandingsEntry>, i: nat)
    requires i + 1 < |worklist|
    ensures forall j :: 0 <= j < |RemoveAt(worklist[1..], i)| ==>
      RemoveAt(worklist[1..], i)[j] == worklist[if j < i then j + 1 else j + 2]
  {
  }

  /** The players left over after a round are those of the worklist but the front player and the partner. */
  lemma RosterOfRound(worklist: seq<StandingsEntry>, i: nat)
    requires i + 1 < |worklist|
    ensures multiset(Roster(worklist))
         == multiset{Seat(worklist[0]), Seat(worklist[1..][i])} + multiset(Roster(RemoveAt(worklist[1..], i)))
  {
    assert Roster(worklist) == [Seat(worklist[0])] + Roster(worklist[1..]);
    RosterRemoveAt(worklist[1..], i);
  }

  lemma {:induction false} RosterRemoveAt(s: seq<StandingsEntry>, i: nat)
    requires i < |s|
    ensures multiset(Roster(s)) == multiset{Seat(s[i])} + multiset(Roster(RemoveAt(s, i)))
    decreases i
  {
    var head, tail := Seat(s[0]), Roster(s[1..]);
    assert Roster(s) == [head] + tail;
    if i == 0 {
      assert RemoveAt(s, 0) == s[1..];
    } else {
      var u := RemoveAt(s[1..], i - 1);
      RosterRemoveAt(s[1..], i - 1);
      assert s[1..][i - 1] == s[i];
      var t := RemoveAt(s, i);
      assert t[0] == s[0] && t[1..] == u;
      assert Roster(t) == [head] + Roster(u);
      MultisetCons(head, tail, Seat(s[i]), Roster(u));
    }
  }

  /** Distinct ids stay distinct after a round, and none of them is the front player's. */
  lemma DistinctAfterRound(worklist: seq<StandingsEntry>, i: nat)
    requires i + 1 < |worklist| && DistinctIds(worklist)
    ensures DistinctIds(RemoveAt(worklist[1..], i))
    ensures forall j :: 0 <= j < |RemoveAt(worklist[1..], i)| ==> RemoveAt(worklist[1..], i)[j].id != worklist[0].id
  {
    TailOfRound(worklist, i);
  }

  /** A complete pairing seats every player of the worklist, and each exactly as often as listed. */
  lemma {:induction false} PairingsSeatEveryone(worklist: seq<StandingsEntry>, matches: seq<MatchRow>)
    requires Pairings(worklist, matches).Paired?
    ensures multiset(Seats(Pairings(worklist, matches).pairings)) == multiset(Roster(worklist))
    decreases |worklist|
  {
    if worklist != [] {
      var p := worklist[0];
      var rest := worklist[1..];
      var i := FirstNewOpponent(rest, ClaimedOpponents(p.id, matches)).value;
      var tail := RemoveAt(rest, i);
      var left := Unclaimed(p.id, matches);
      PairingsSeatEveryone(tail, left);
      RosterOfRound(worklist, i);
      var ps := Pairings(worklist, matches).pairings;
      var tailPs := Pairings(tail, left).pairings;
      assert ps == [PairOf(p, rest[i])] + tailPs;
      assert ps[1..] == tailPs;
      assert Seats(ps) == [Seat(p), Seat(rest[i])] + Seats(tailPs);
    }
  }

  /** A complete pairing has exactly half as many pairings as the worklist has players. */
  lemma {:induction false} PairingsHalveWorklist(worklist: seq<StandingsEntry>, matches: seq<MatchRow>)
    requires Pairings(worklist, matches).Paired?
    ensures 2 * |Pairings(worklist, matches).pairings| == |worklist|
    decreases |worklist|
  {
    if worklist != [] {
      var p := worklist[0];
      var rest := worklist[1..];
      var i := FirstNewOpponent(rest, ClaimedOpponents(p.id, matches)).value;
      PairingsHalveWorklist(RemoveAt(rest, i), Unclaimed(p.id, matches));
    }
  }

  /** An odd number of players can never be paired completely. */
  lemma {:induction false} OddWorklistFails(worklist: seq<StandingsEntry>, matches: seq<MatchRow>)
    requires |worklist| % 2 == 1
    ensures Pairings(worklist, matches).NoEligiblePartner?
  {
    if Pairings(worklist, matches).Paired? {
      PairingsHalveWorklist(worklist, matches);
      assert false;
    }
  }

  /** With distinct player ids, every listed player sits in exactly one pairing. */
  lemma SeatedExactlyOnce(worklist: seq<StandingsEntry>, matches: seq<MatchRow>, k: nat)
    requires DistinctIds(worklist) && Pairings(worklist, matches).Paired?
    requires k < |worklist|
    ensures multiset(Seats(Pairings(worklist, matches).pairings))[Seat(worklist[k])] == 1
  {
    PairingsSeatEveryone(worklist, matches);
    ListedOnce(worklist, k);
  }

  lemma {:induction false} ListedOnce(worklist: seq<StandingsEntry>, k: nat)
    requires DistinctIds(worklist) && k < |worklist|
    ensures multiset(Roster(worklist))[Seat(worklist[k])] == 1
  {
    var r := Roster(worklist);
    assert r == r[..k] + [r[k]] + r[k + 1..];
    assert Seat(worklist[k]) !in r[..k] by {
      forall j | 0 <= j < k ensures r[..k][j] != Seat(worklist[k]) {
        assert r[..k][j] == Seat(worklist[j]);
      }
    }
    assert Seat(worklist[k]) !in r[k + 1..] by {
      forall j | k < j < |r| ensures r[j] != Seat(worklist[k]) {
        assert r[j] == Seat(worklist[j]);
      }
    }
  }

  /** A seated player is a player of the worklist. */
  lemma SeatedAreListed(worklist: seq<StandingsEntry>, matches: seq<MatchRow>, x: Player)
    requires Pairings(worklist, matches).Paired?
    requires x in Seats(Pairings(worklist, matches).pairings)
    ensures exists j :: 0 <= j < |worklist| && Seat(worklist[j]) == x
  {
    PairingsSeatEveryone(worklist, matches);
    assert x in multiset(Roster(worklist));
    var j :| 0 <= j < |worklist| && Roster(worklist)[j] == x;
  }

  /**
   No rematch: given distinct player ids, no pairing of a complete run is a
   match the history records, in either slot order.
   */
  lemma {:induction false} NoRematch(worklist: seq<StandingsEntry>, matches: seq<MatchRow>)
    requires DistinctIds(worklist) && Pairings(worklist, matches).Paired?
    ensures forall k :: 0 <= k < |Pairings(worklist, matches).pairings| ==>
      !Met(matches, Pairings(worklist, matches).pairings[k].id1, Pairings(worklist, matches).pairings[k].id2)
    decreases |worklist|
  {
    if worklist != [] {
      var p := worklist[0];
      var rest := worklist[1..];
      var opponents := ClaimedOpponents(p.id, matches);
      var i := FirstNewOpponent(rest, opponents).value;
      var tail := RemoveAt(rest, i);
      var left := Unclaimed(p.id, matches);
      DistinctAfterRound(worklist, i);
      NoRematch(tail, left);
      var ps := Pairings(worklist, matches).pairings;
      var tailPs := Pairings(tail, left).pairings;
      assert ps == [PairOf(p, rest[i])] + tailPs;
      ClaimedOpponentsAreMet(p.id, matches, rest[i].id);
      forall k | 1 <= k < |ps|
        ensures !Met(matches, ps[k].id1, ps[k].id2)
      {
        var q := tailPs[k - 1];
        assert ps[k] == q;
        var s := Seats(tailPs);
        assert s[2 * (k - 1)] == Player(q.id1, q.name1);
        assert s[2 * (k - 1) + 1] == Player(q.id2, q.name2);
        SeatedAreListed(tail, left, Player(q.id1, q.name1));
        SeatedAreListed(tail, left, Player(q.id2, q.name2));
        MetAfterClaim(p.id, matches, q.id1, q.id2);
      }
    }
  }

  /**
   Rank adjacency: the front player is paired with the first player after it
   in the standings whom the history does not show it has met, every player
   in between having met it.
   */
  lemma PartnerIsFirstUnmet(worklist: seq<StandingsEntry>, matches: seq<MatchRow>)
    requires |worklist| > 0 && Pairings(worklist, matches).Paired?
    ensures exists j :: (1 <= j < |worklist| &&
      Pairings(worklist, matches).pairings[0] == PairOf(worklist[0], worklist[j]) &&
      !Met(matches, worklist[0].id, worklist[j].id) &&
      (forall k :: 1 <= k < j ==> Met(matches, worklist[0].id, worklist[k].id)))
  {
    var p := worklist[0];
    var rest := worklist[1..];
    var i := FirstNewOpponent(rest, ClaimedOpponents(p.id, matches)).value;
    ClaimedOpponentsAreMet(p.id, matches, rest[i].id);
    forall k | 1 <= k < i + 1
      ensures Met(matches, p.id, worklist[k].id)
    {
      assert worklist[k] == rest[k - 1];
      ClaimedOpponentsAreMet(p.id, matches, rest[k - 1].id);
    }
    assert worklist[i + 1] == rest[i];
  }

  /** With an empty history the standings are paired down the list: (s0, s1), (s2, s3), ... */
  lemma {:induction false} EmptyHistoryPairsNeighbours(worklist: seq<StandingsEntry>)
    ensures Pairings(worklist, [])
         == if |worklist| % 2 == 0 then Paired(Neighbours(worklist))
            else NoEligiblePartner(worklist[|worklist| - 1].id)
    decreases |worklist|
  {
    if worklist != [] {
      var p := worklist[0];
      var rest := worklist[1..];
      assert ClaimedOpponents(p.id, []) == [] && Unclaimed(p.id, []) == [];
      if rest != [] {
        var r := FirstNewOpponent(rest, []);
        assert r == Some(0);
        assert RemoveAt(rest, 0) == worklist[2..];
        EmptyHistoryPairsNeighbours(worklist[2..]);
      }
    }
  }

  /** A failing run names a player of its worklist. */
  lemma {:induction false} FailingPlayerIsListed(worklist: seq<StandingsEntry>, matches: seq<MatchRow>)
    requires Pairings(worklist, matches).NoEligiblePartner?
    ensures exists j :: 0 <= j < |worklist| && worklist[j].id == Pairings(worklist, matches).player
    decreases |worklist|
  {
    var p := worklist[0];
    var rest := worklist[1..];
    var r := FirstNewOpponent(rest, ClaimedOpponents(p.id, matches));
    if r.Some? {
      var i := r.value;
      var tail := RemoveAt(rest, i);
      FailingPlayerIsListed(tail, Unclaimed(p.id, matches));
      var j :| 0 <= j < |tail| && tail[j].id == Pairings(tail, Unclaimed(p.id, matches)).player;
      TailOfRound(worklist, i);
    } else {
      assert worklist[0].id == Pairings(worklist, matches).player;
    }
  }

  /**
   The run fails on its front player exactly when the history shows that
   player has met every other player of the worklist (given distinct ids;
   a single player left over is the case with nobody else).
   */
  lemma FrontFailsIffMetEveryone(worklist: seq<StandingsEntry>, matches: seq<MatchRow>)
    requires |worklist| > 0 && DistinctIds(worklist)
    ensures Pairings(worklist, matches) == NoEligiblePartner(worklist[0].id)
        <==> forall k :: 1 <= k < |worklist| ==> Met(matches, worklist[0].id, worklist[k].id)
  {
    var p := worklist[0];
    var rest := worklist[1..];
    var opponents := ClaimedOpponents(p.id, matches);
    var r := FirstNewOpponent(rest, opponents);
    if r.Some? {
      var i := r.value;
      ClaimedOpponentsAreMet(p.id, matches, rest[i].id);
      assert worklist[i + 1] == rest[i];
      var tail := RemoveAt(rest, i);
      var o := Pairings(tail, Unclaimed(p.id, matches));
      if o.NoEligiblePartner? {
        FailingPlayerIsListed(tail, Unclaimed(p.id, matches));
        DistinctAfterRound(worklist, i);
      }
    } else {
      forall k | 1 <= k < |worklist|
        ensures Met(matches, p.id, worklist[k].id)
      {
        assert worklist[k] == rest[k - 1];
        ClaimedOpponentsAreMet(p.id, matches, rest[k - 1].id);
      }
    }
  }

  /**
   The pass is greedy and does not go back: with C and D having met, A is
   paired with B and C is left with nobody, although A-C and B-D would be
   two new matches.
   */
  lemma GreedyDoesNotBacktrack()
    ensures var a, b, c, d := StandingsEntry(1, "A", 1, 1), StandingsEntry(2, "B", 1, 1),
                              StandingsEntry(3, "C", 0, 1), StandingsEntry(4, "D", 0, 1);
      var history := [MatchRow(3, 4)];
      && Pairings([a, b, c, d], history) == NoEligiblePartner(3)
      && !Met(history, 1, 3) && !Met(history, 2, 4)
  {
    var a, b, c, d := StandingsEntry(1, "A", 1, 1), StandingsEntry(2, "B", 1, 1),
                      StandingsEntry(3, "C", 0, 1), StandingsEntry(4, "D", 0, 1);
    var history := [MatchRow(3, 4)];
    assert history[1..] == [];
    assert ClaimedOpponents(1, history) == [] && Unclaimed(1, history) == history;
    assert [a, b, c, d][1..] == [b, c, d];
    assert FirstNewOpponent([b, c, d], []) == Some(0);
    assert RemoveAt([b, c, d], 0) == [c, d];
    assert ClaimedOpponents(3, history) == [4];
    assert [c, d][1..] == [d];
    assert FirstNewOpponent([d], [4]) == None;
    assert Pairings([c, d], history) == NoEligiblePartner(3);
  }
}
