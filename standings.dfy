/**
 The standings (playerStandings): every registered player joined with the
 aggregate view of results, missing counts coalesced to 0, best first. The
 query is a LEFT OUTER JOIN of the player table with the view followed by
 ORDER BY wins DESC. The rows come back in an order the database chooses
 among equal win counts; here that order is the registration order, kept by
 a stable insertion sort, and it is shown below that any other list the
 query may return differs from it only among players with equal wins.
 */
module Standings {
  import opened Records

  /** coalesce(pwm_view.wins, 0), coalesce(pwm_view.matches, 0): the view's record, or an empty one. */
  function Coalesce(id: int, view: map<int, WinRecord>): WinRecord
  {
    if id in view then view[id] else WinRecord(0, 0)
  }

  /** One row of the outer join: the player, with the coalesced counts of the view. */
  function JoinRow(p: Player, view: map<int, WinRecord>): StandingsEntry
  {
    var w := Coalesce(p.id, view);
    StandingsEntry(p.id, p.name, w.wins, w.matches)
  }

  /** players LEFT OUTER JOIN pwm_view, one row per registered player, in table order. */
  function Join(players: seq<Player>, view: map<int, WinRecord>): (r: seq<StandingsEntry>)
    ensures |r| == |players|
    ensures forall k :: 0 <= k < |players| ==> r[k] == JoinRow(players[k], view)
  {
    if players == [] then [] else [JoinRow(players[0], view)] + Join(players[1..], view)
  }

  /** Wins never increase down the list. */
  predicate NonIncreasingWins(s: seq<StandingsEntry>)
  {
    forall i, j :: 0 <= i < j < |s| ==> s[i].wins >= s[j].wins
  }

  /** The row carries exactly the coalesced counts the view has for its player. */
  predicate Coalesced(e: StandingsEntry, view: map<int, WinRecord>)
  {
    Coalesce(e.id, view) == WinRecord(e.wins, e.matches)
  }

  /** Puts `e` in front of the first row with fewer wins than it has. */
  function Insert(e: StandingsEntry, s: seq<StandingsEntry>): (r: seq<StandingsEntry>)
    requires NonIncreasingWins(s)
    ensures NonIncreasingWins(r)
    ensures multiset(r) == multiset{e} + multiset(s)
    ensures r[0] == e || (s != [] && r[0] == s[0])
  {
    if s == [] || e.wins >= s[0].wins then
      ConsKeepsOrder(e, s);
      [e] + s
    else
      var t := Insert(e, s[1..]);
      assert s == [s[0]] + s[1..];
      MultisetCons(s[0], t, e, s[1..]);
      ConsKeepsOrder(s[0], t);
      [s[0]] + t
  }

  /** A row with at least the wins of the first row may go in front of an ordered list. */
  lemma ConsKeepsOrder(e: StandingsEntry, s: seq<StandingsEntry>)
    requires NonIncreasingWins(s) && (s == [] || e.wins >= s[0].wins)
    ensures NonIncreasingWins([e] + s)
  {
    forall i, j | 0 <= i < j < |s| + 1
      ensures ([e] + s)[i].wins >= ([e] + s)[j].wins
    {
      if i == 0 {
        assert s[0].wins >= s[j - 1].wins;
      }
    }
  }

  /** ORDER BY wins DESC: insertion sort, which keeps rows with equal wins in table order. */
  function SortByWins(s: seq<StandingsEntry>): (r: seq<StandingsEntry>)
    ensures NonIncreasingWins(r)
    ensures multiset(r) == multiset(s)
  {
    if s == [] then []
    else
      assert s == [s[0]] + s[1..];
      assert multiset(s) == multiset{s[0]} + multiset(s[1..]);
      Insert(s[0], SortByWins(s[1..]))
  }

  /** playerStandings: the ordered join. */
  function PlayerStandings(players: seq<Player>, view: map<int, WinRecord>): (r: seq<StandingsEntry>)
    ensures |r| == |players|
    ensures NonIncreasingWins(r)
  {
    var r := SortByWins(Join(players, view));
    assert |r| == |multiset(r)| == |multiset(Join(players, view))|;
    r
  }

  /** The standings list every registered player once: its players are a permutation of the registry. */
  lemma StandingsListEveryPlayer(players: seq<Player>, view: map<int, WinRecord>)
    ensures multiset(Roster(PlayerStandings(players, view))) == multiset(players)
  {
    var j := Join(players, view);
    RosterOfSort(j);
    assert Roster(j) == players;
  }

  lemma {:induction false} RosterOfSort(s: seq<StandingsEntry>)
    ensures multiset(Roster(SortByWins(s))) == multiset(Roster(s))
  {
    if s != [] {
      var sorted := SortByWins(s[1..]);
      RosterOfSort(s[1..]);
      RosterOfInsert(s[0], sorted);
      RosterUnfold(s);
      SameMultisetCons(Seat(s[0]), Roster(sorted), Roster(s[1..]));
    }
  }

  lemma {:induction false} RosterOfInsert(e: StandingsEntry, s: seq<StandingsEntry>)
    requires NonIncreasingWins(s)
    ensures multiset(Roster(Insert(e, s))) == multiset(Roster(s)) + multiset{Seat(e)}
  {
    if s == [] || e.wins >= s[0].wins {
      RosterCons(e, s);
    } else {
      var t := Insert(e, s[1..]);
      assert Insert(e, s) == [s[0]] + t;
      RosterOfInsert(e, s[1..]);
      RosterOfInsertStep(e, s, t);
    }
  }

  lemma {:induction false} RosterOfInsertStep(e: StandingsEntry, s: seq<StandingsEntry>, t: seq<StandingsEntry>)
    requires s != []
    requires multiset(Roster(t)) == multiset(Roster(s[1..])) + multiset{Seat(e)}
    ensures multiset(Roster([s[0]] + t)) == multiset(Roster(s)) + multiset{Seat(e)}
  {
    RosterCons(s[0], t);
    RosterUnfold(s);
    MultisetCons(Seat(s[0]), Roster(t), Seat(e), Roster(s[1..]));
  }

  /**
   Every row carries the view's counts for its player, and a player the view
   has no row for is listed with no wins and no matches.
   */
  lemma StandingsCoalesceCounts(players: seq<Player>, view: map<int, WinRecord>)
    ensures forall e :: e in PlayerStandings(players, view) ==>
      (e.id in view ==> e.wins == view[e.id].wins && e.matches == view[e.id].matches) &&
      (e.id !in view ==> e.wins == 0 && e.matches == 0)
  {
    var j := Join(players, view);
    var r := PlayerStandings(players, view);
    forall e | e in r
      ensures Coalesced(e, view)
    {
      assert e in multiset(r);
      assert e in multiset(j);
      var k :| 0 <= k < |j| && j[k] == e;
    }
  }

  /**
   The ordering is determined up to ties: any list that lists the same rows
   with wins non-increasing has the same win count at every position.
   */
  lemma {:induction false} RankedListsAgreeOnWins(a: seq<StandingsEntry>, b: seq<StandingsEntry>)
    requires multiset(a) == multiset(b)
    requires NonIncreasingWins(a) && NonIncreasingWins(b)
    ensures |a| == |b|
    ensures forall k :: 0 <= k < |a| ==> a[k].wins == b[k].wins
    decreases |a|
  {
    assert |a| == |multiset(a)| == |multiset(b)| == |b|;
    if a != [] {
      assert a[0] in multiset(b) && b[0] in multiset(a);
      var i :| 0 <= i < |b| && b[i] == a[0];
      var i' :| 0 <= i' < |a| && a[i'] == b[0];
      assert a[0].wins == b[0].wins;
      var b' := b[..i] + b[i + 1..];
      MultisetRemove(a, b, i);
      assert forall k :: 0 <= k < |b'| ==> b'[k] == b[if k < i then k else k + 1];
      RankedListsAgreeOnWins(a[1..], b');
      forall k | 1 <= k < |a|
        ensures a[k].wins == b[k].wins
      {
        assert a[k] == a[1..][k - 1];
        if k - 1 < i {
          assert b'[k - 1] == b[k - 1];
          assert b[0].wins >= b[k - 1].wins >= b[k].wins >= b[i].wins;
        } else {
          assert b'[k - 1] == b[k];
        }
      }
    }
  }
}
