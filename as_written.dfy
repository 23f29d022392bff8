/**
 The pairing code as it is written, where it departs from what its
 documentation promises, and concrete histories that show the difference.

 - removePreviousOpponents advances the index it reads with `i = i + 1`
   inside an enumerate loop and pops from the list that loop walks: it never
   looks at the first row, it skips the row after each one it pops, and it
   reads one row past the end (IndexError) unless a pop happens to shorten
   the list just in time.
 - swissPairings passes the whole standings row, not its id, to
   removePreviousOpponents; a row never equals an id, so no history row is
   ever claimed and any non-empty history ends in IndexError.
 - When no partner is found, nextOpponent is None and building the pair
   raises TypeError.

 The model everywhere else (modules Opponents and PairingEngine) uses the behaviour
 the documentation describes.
 */
module AsWritten {
  import opened Records
  import opened Opponents
  import opened PairingEngine

  /** The value that removePreviousOpponents compares with ids: an int, or a whole standings row. */
  datatype PyValue = PyInt(n: int) | PyRow(entry: StandingsEntry)

  /** Python's `==` between the value and an int id: a row (a tuple) never equals an int. */
  function PyEquals(v: PyValue, id: int): (r: bool)
    ensures r <==> v == PyInt(id)
  {
    match v
    case PyInt(n) => n == id
    case PyRow(_) => false
  }

  /** How the code as written ends: with a value, or with the exception it raises. */
  datatype Run<T> = Returns(value: T) | IndexError | TypeError

  /**
   The enumerate loop of removePreviousOpponents as written: `k` is the
   position enumerate has reached, the body reads and pops index k + 1, and
   the loop stops once k reaches the current length of the list.
   */
  function RemoveLoop(player: PyValue, matches: seq<MatchRow>, k: nat, found: seq<int>)
    : Run<(seq<int>, seq<MatchRow>)>
    decreases |matches| - k
  {
    if k >= |matches| then Returns((found, matches))
    else if k + 1 >= |matches| then IndexError
    else
      var m := matches[k + 1];
      if PyEquals(player, m.player1) then
        RemoveLoop(player, RemoveAt(matches, k + 1), k + 1, found + [m.player2])
      else if PyEquals(player, m.player2) then
        RemoveLoop(player, RemoveAt(matches, k + 1), k + 1, found + [m.player1])
      else
        RemoveLoop(player, matches, k + 1, found)
  }

  /** removePreviousOpponents as written: the opponents returned and the list it leaves behind. */
  function RemovePreviousOpponentsAsWritten(player: PyValue, matches: seq<MatchRow>)
    : Run<(seq<int>, seq<MatchRow>)>
  {
    RemoveLoop(player, matches, 0, [])
  }

  /** swissPairings as written, given the standings and the match table it reads. */
  function SwissPairingsAsWritten(standings: seq<StandingsEntry>, matches: seq<MatchRow>): Run<seq<Pairing>>
    decreases |standings|
  {
    if standings == [] then Returns([])
    else
      var p := standings[0];
      var rest := standings[1..];
      match RemovePreviousOpponentsAsWritten(PyRow(p), matches)
      case IndexError => IndexError
      case TypeError => TypeError
      case Returns((opponents, left)) =>
        match FirstNewOpponent(rest, opponents)
        case None => TypeError
        case Some(i) =>
          match SwissPairingsAsWritten(RemoveAt(rest, i), left)
          case Returns(ps) => Returns([PairOf(p, rest[i])] + ps)
          case IndexError => IndexError
          case TypeError => TypeError
  }

  /** The loop as written never pops the row at enumerate's current position, so never the first row. */
  lemma {:induction false} RemoveLoopKeepsPrefix(player: PyValue, matches: seq<MatchRow>, k: nat, found: seq<int>)
    requires k < |matches|
    requires RemoveLoop(player, matches, k, found).Returns?
    ensures var left := RemoveLoop(player, matches, k, found).value.1;
      |left| > k && left[..k + 1] == matches[..k + 1]
    decreases |matches| - k
  {
    var m := matches[k + 1];
    var next := if PyEquals(player, m.player1) || PyEquals(player, m.player2)
                then RemoveAt(matches, k + 1) else matches;
    assert next[..k + 1] == matches[..k + 1];
    if k + 1 < |next| {
      RemoveLoopKeepsPrefix(player, next, k + 1, if PyEquals(player, m.player1) then found + [m.player2]
                                                 else if PyEquals(player, m.player2) then found + [m.player1]
                                                 else found);
    }
  }

  /** As written, whenever it returns, the first history row is still there: it was never claimed. */
  lemma AsWrittenNeverClaimsFirstRow(player: PyValue, matches: seq<MatchRow>)
    requires matches != [] && RemovePreviousOpponentsAsWritten(player, matches).Returns?
    ensures var left := RemovePreviousOpponentsAsWritten(player, matches).value.1;
      |left| > 0 && left[0] == matches[0]
  {
    RemoveLoopKeepsPrefix(player, matches, 0, []);
  }

  /** With a key that equals no id, the loop as written pops nothing and reads past the end. */
  lemma {:induction false} RowKeyLoop(e: StandingsEntry, matches: seq<MatchRow>, k: nat, found: seq<int>)
    ensures RemoveLoop(PyRow(e), matches, k, found)
         == if k >= |matches| then Returns((found, matches)) else IndexError
    decreases |matches| - k
  {
    if k + 1 < |matches| {
      RowKeyLoop(e, matches, k + 1, found);
    }
  }

  /** Called with a standings row, as swissPairings calls it, removePreviousOpponents claims nothing. */
  lemma RowKeyClaimsNothing(e: StandingsEntry, matches: seq<MatchRow>)
    ensures RemovePreviousOpponentsAsWritten(PyRow(e), matches)
         == if matches == [] then Returns(([], [])) else IndexError
  {
    RowKeyLoop(e, matches, 0, []);
  }

  /** As written, swissPairings raises IndexError for every non-empty history. */
  lemma AsWrittenFailsOnAnyHistory(standings: seq<StandingsEntry>, matches: seq<MatchRow>)
    requires standings != [] && matches != []
    ensures SwissPairingsAsWritten(standings, matches) == IndexError
  {
    RowKeyClaimsNothing(standings[0], matches);
  }

  /**
   On an empty history, as in a first round, the code as written pairs as
   documented; where no partner is left it raises TypeError.
   */
  lemma {:induction false} AsWrittenAgreesOnEmptyHistory(standings: seq<StandingsEntry>)
    ensures SwissPairingsAsWritten(standings, [])
         == match Pairings(standings, [])
            case Paired(ps) => Returns(ps)
            case NoEligiblePartner(_) => TypeError
    decreases |standings|
  {
    if standings != [] {
      var p := standings[0];
      var rest := standings[1..];
      RowKeyClaimsNothing(p, []);
      assert ClaimedOpponents(p.id, []) == [] && Unclaimed(p.id, []) == [];
      match FirstNewOpponent(rest, [])
      case None =>
      case Some(i) =>
        AsWrittenAgreesOnEmptyHistory(RemoveAt(rest, i));
    }
  }

  /** One previous match: as written the loop reads past the end; as documented the opponent is claimed. */
  lemma SingleRowReadsPastEnd()
    ensures RemovePreviousOpponentsAsWritten(PyInt(1), [MatchRow(1, 2)]) == IndexError
    ensures ClaimedOpponents(1, [MatchRow(1, 2)]) == [2] && Unclaimed(1, [MatchRow(1, 2)]) == []
  {
  }

  /** Two previous matches: as written only the second is found and the first stays unclaimed. */
  lemma FirstRowSkipped()
    ensures RemovePreviousOpponentsAsWritten(PyInt(1), [MatchRow(1, 2), MatchRow(1, 3)])
         == Returns(([3], [MatchRow(1, 2)]))
    ensures ClaimedOpponents(1, [MatchRow(1, 2), MatchRow(1, 3)]) == [2, 3]
    ensures Unclaimed(1, [MatchRow(1, 2), MatchRow(1, 3)]) == []
  {
    var m := [MatchRow(1, 2), MatchRow(1, 3)];
    assert RemoveAt(m, 1) == [MatchRow(1, 2)];
    assert RemoveLoop(PyInt(1), [MatchRow(1, 2)], 1, [3]) == Returns(([3], [MatchRow(1, 2)]));
    var nothing: seq<int> := [];
    assert m[1] == MatchRow(1, 3) && nothing + [3] == [3];
    assert RemoveLoop(PyInt(1), m, 0, nothing) == RemoveLoop(PyInt(1), RemoveAt(m, 1), 1, nothing + [3]);
    assert m[1..] == [MatchRow(1, 3)] && m[1..][1..] == [];
  }

  /**
   The second round of four players after P1 beat P2 and P3 beat P4, with
   standings P1, P3, P2, P4: as documented P1 meets P3 and P2 meets P4; as
   written the run ends in IndexError.
   */
  lemma SecondRoundCrashes()
    ensures var p1, p2, p3, p4 := StandingsEntry(1, "P1", 1, 1), StandingsEntry(2, "P2", 0, 1),
                                  StandingsEntry(3, "P3", 1, 1), StandingsEntry(4, "P4", 0, 1);
      var history := [MatchRow(1, 2), MatchRow(3, 4)];
      && SwissPairingsAsWritten([p1, p3, p2, p4], history) == IndexError
      && Pairings([p1, p3, p2, p4], history) == Paired([PairOf(p1, p3), PairOf(p2, p4)])
  {
    var p1, p2, p3, p4 := StandingsEntry(1, "P1", 1, 1), StandingsEntry(2, "P2", 0, 1),
                          StandingsEntry(3, "P3", 1, 1), StandingsEntry(4, "P4", 0, 1);
    var history := [MatchRow(1, 2), MatchRow(3, 4)];
    AsWrittenFailsOnAnyHistory([p1, p3, p2, p4], history);
    assert history[1..] == [MatchRow(3, 4)] && history[1..][1..] == [];
    assert ClaimedOpponents(1, history) == [2];
    assert Unclaimed(1, history) == [MatchRow(3, 4)];
    assert [p1, p3, p2, p4][1..] == [p3, p2, p4];
    assert FirstNewOpponent([p3, p2, p4], [2]) == Some(0);
    assert RemoveAt([p3, p2, p4], 0) == [p2, p4];
    assert ClaimedOpponents(2, [MatchRow(3, 4)]) == [];
    assert Unclaimed(2, [MatchRow(3, 4)]) == [MatchRow(3, 4)];
    assert [p2, p4][1..] == [p4];
    assert FirstNewOpponent([p4], []) == Some(0);
    assert RemoveAt([p4], 0) == [];
    assert Pairings([p2, p4], [MatchRow(3, 4)]) == Paired([PairOf(p2, p4)]);
    assert Pairings([p1, p3, p2, p4], history)
        == Prepend([PairOf(p1, p3)], Pairings([p2, p4], [MatchRow(3, 4)]));
  }
}
