/**
 The records of a Swiss-system tournament: registered players, the win
 record the standings view reports for a player, a standings row, a row of
 the match table, a result row and a proposed pairing.
 */
module Records {

  datatype Option<T> = None | Some(value: T)

  /** A registered player; the id is the serial number the database assigned. */
  datatype Player = Player(id: int, name: string)

  /** What the aggregate view reports for one player: wins and matches played. */
  datatype WinRecord = WinRecord(wins: nat, matches: nat)

  /** One row of the standings: (id, name, wins, matches). */
  datatype StandingsEntry = StandingsEntry(id: int, name: string, wins: nat, matches: nat)

  /** One row of the match table as the pairing engine reads it: (player1, player2). */
  datatype MatchRow = MatchRow(player1: int, player2: int)

  datatype Outcome = Win | Loss

  /** One row of the result table: a player and the outcome of one match for them. */
  datatype ResultRow = ResultRow(player: int, result: Outcome)

  /** One proposed match of the next round: (id1, name1, id2, name2). */
  datatype Pairing = Pairing(id1: int, name1: string, id2: int, name2: string)

  /** The player a standings row stands for. */
  function Seat(e: StandingsEntry): (p: Player)
    ensures p.id == e.id && p.name == e.name
  {
    Player(e.id, e.name)
  }

  /** The players of a standings list, in the same order. */
  function Roster(entries: seq<StandingsEntry>): (r: seq<Player>)
    ensures |r| == |entries|
    ensures forall k :: 0 <= k < |entries| ==> r[k] == Seat(entries[k])
  {
    if entries == [] then [] else [Seat(entries[0])] + Roster(entries[1..])
  }

  lemma RosterCons(e: StandingsEntry, s: seq<StandingsEntry>)
    ensures Roster([e] + s) == [Seat(e)] + Roster(s)
  {
    assert ([e] + s)[1..] == s;
  }

  lemma RosterUnfold(s: seq<StandingsEntry>)
    requires s != []
    ensures Roster(s) == [Seat(s[0])] + Roster(s[1..])
  {
  }

  /** No two standings rows carry the same player id. */
  predicate DistinctIds(entries: seq<StandingsEntry>)
  {
    forall i, j :: 0 <= i < j < |entries| ==> entries[i].id != entries[j].id
  }

  /** Adding the same element in front of two sequences keeps their multisets related. */
  lemma MultisetCons<T>(h: T, a: seq<T>, x: T, b: seq<T>)
    requires multiset(a) == multiset{x} + multiset(b)
    ensures multiset([h] + a) == multiset{x} + multiset([h] + b)
  {
  }

  /** Adding the same element in front of two sequences with equal multisets keeps them equal. */
  lemma SameMultisetCons<T>(h: T, a: seq<T>, b: seq<T>)
    requires multiset(a) == multiset(b)
    ensures multiset(a) + multiset{h} == multiset([h] + b)
  {
  }

  /** Taking the same element out of two sequences with equal multisets leaves equal multisets. */
  lemma MultisetRemove<T>(a: seq<T>, b: seq<T>, i: nat)
    requires multiset(a) == multiset(b) && |a| > 0 && i < |b| && b[i] == a[0]
    ensures multiset(a[1..]) == multiset(b[..i] + b[i + 1..])
  {
    assert a == [a[0]] + a[1..];
    assert b == b[..i] + [b[i]] + b[i + 1..];
    assert multiset(a) == multiset{a[0]} + multiset(a[1..]);
    assert multiset(b) == multiset(b[..i]) + multiset{b[i]} + multiset(b[i + 1..]);
    assert multiset(b[..i] + b[i + 1..]) == multiset(b[..i]) + multiset(b[i + 1..]);
    assert multiset(a[1..]) == multiset(a) - multiset{a[0]};
    assert multiset(b[..i] + b[i + 1..]) == multiset(b) - multiset{b[i]};
  }
}
