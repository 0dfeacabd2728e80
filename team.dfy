/**
 * `build_best_xi_for_team` as a whole: the roster is read, then each player's
 * innings table is tallied and folded into the team table and the export
 * rows. The two page loads are inputs: `rosterPage` is the roster table, or
 * `None` when its wait timed out, and `innings(id)` is the innings table of
 * the player with that id, or `None` when that wait timed out.
 */
module Team {
  import opened Wrappers
  import opened Roster
  import opened PositionTally
  import opened BestXi

  /** What this team's run ends on when an exception leaves the function. */
  datatype TeamError =
    | RosterTimeout
    | RosterLinkMissing(row: nat)
    | InningsTimeout(player: nat)
    | InningsIndexError(player: nat, row: nat)

  /** The returned table and the rows that would be written to the team's file. */
  datatype TeamOutput = TeamOutput(best: map<int, Slot>, rows: seq<ExportRow>)

  /** A player whose innings table loads and has no row that raises. */
  predicate Readable(innings: string -> Option<seq<Row>>, p: Player) {
    innings(p.id).Some? && NoShortRow(innings(p.id).value)
  }

  /** Every player of the roster can be tallied. */
  predicate AllReadable(players: seq<Player>, innings: string -> Option<seq<Row>>) {
    players == [] || (AllReadable(players[..|players| - 1], innings) && Readable(innings, players[|players| - 1]))
  }

  /** The tallies of the players, in roster order. */
  function Gathered(players: seq<Player>, innings: string -> Option<seq<Row>>): (stats: seq<PlayerStats>)
    ensures |stats| == |players|
  {
    if players == [] then []
    else
      var p := players[|players| - 1];
      var rows := if innings(p.id).Some? then innings(p.id).value else [];
      Gathered(players[..|players| - 1], innings) + [PlayerStats(p.name, Tally(rows))]
  }

  lemma GatheredPrefix(players: seq<Player>, innings: string -> Option<seq<Row>>, i: nat)
    requires i < |players| && innings(players[i].id).Some?
    ensures Gathered(players[..i + 1], innings)
            == Gathered(players[..i], innings) + [PlayerStats(players[i].name, Tally(innings(players[i].id).value))]
    ensures AllReadable(players[..i + 1], innings) <==> AllReadable(players[..i], innings) && Readable(innings, players[i])
  {
    assert players[..i + 1][..i] == players[..i];
  }

  /** The first player who cannot be tallied makes the whole roster fail. */
  lemma AllReadableStop(players: seq<Player>, innings: string -> Option<seq<Row>>, i: nat)
    requires i < |players| && AllReadable(players[..i], innings) && !Readable(innings, players[i])
    ensures !AllReadable(players, innings)
  {
    assert players[..i + 1][..i] == players[..i];
    AllReadableShrink(players, innings, i + 1);
  }

  /** A roster whose players can all be tallied has prefixes whose players can. */
  lemma {:induction false} AllReadableShrink(players: seq<Player>, innings: string -> Option<seq<Row>>, j: nat)
    requires j <= |players|
    ensures AllReadable(players, innings) ==> AllReadable(players[..j], innings)
  {
    if j < |players| {
      var n := |players| - 1;
      assert players[..n][..j] == players[..j];
      AllReadableShrink(players[..n], innings, j);
    } else {
      assert players[..j] == players;
    }
  }

  /** `AllReadable` says that every player's page loads and has no row that raises. */
  lemma {:induction false} AllReadableIff(players: seq<Player>, innings: string -> Option<seq<Row>>)
    ensures AllReadable(players, innings) <==> forall k :: 0 <= k < |players| ==> Readable(innings, players[k])
  {
    if players != [] {
      var n := |players| - 1;
      AllReadableIff(players[..n], innings);
      assert forall k :: 0 <= k < n ==> players[..n][k] == players[k];
    }
  }

  /** The gathered tallies are tallies of the players' own pages, as `TallyPositions` describes them. */
  lemma {:induction false} GatheredTallied(players: seq<Player>, innings: string -> Option<seq<Row>>, k: nat)
    requires k < |players|
    ensures |Gathered(players, innings)| == |players|
    ensures Gathered(players, innings)[k].name == players[k].name
    ensures innings(players[k].id).Some? ==>
              Describes(innings(players[k].id).value, Gathered(players, innings)[k].tally)
  {
    var n := |players| - 1;
    if k < n {
      assert players[..n][k] == players[k];
      GatheredTallied(players[..n], innings, k);
    } else if innings(players[k].id).Some? {
      TallyDescribes(innings(players[k].id).value);
    }
  }

  /**
   * The per-player loop of `build_best_xi_for_team` (lines 93-111) over the
   * players the roster gave: one innings page that times out or raises ends
   * the loop and the team's run.
   */
  method GatherTeam(team: string, players: seq<Player>, innings: string -> Option<seq<Row>>)
    returns (r: Result<TeamOutput, TeamError>)
    ensures r.Success? <==> AllReadable(players, innings)
    ensures r.Failure? ==>
              && (r.error.InningsTimeout? || r.error.InningsIndexError?)
              && r.error.player < |players|
              && AllReadable(players[..r.error.player], innings)
              && !Readable(innings, players[r.error.player])
              && (r.error.InningsTimeout? <==> innings(players[r.error.player].id).None?)
    ensures r.Failure? && r.error.InningsIndexError? ==>
              var page := innings(players[r.error.player].id).value;
              r.error.row < |page| && 0 < |page[r.error.row]| <= PosColumn && NoShortRow(page[..r.error.row])
    ensures r.Success? ==> r.value.best == Best(Gathered(players, innings))
    ensures r.Success? ==> r.value.rows == ExportRows(team, Gathered(players, innings))
  {
    var best := InitialTable;
    var rows: seq<ExportRow> := [];
    ghost var stats: seq<PlayerStats> := [];
    BestEmpty();
    var i := 0;
    while i < |players|
      invariant 0 <= i <= |players|
      invariant AllReadable(players[..i], innings)
      invariant stats == Gathered(players[..i], innings)
      invariant best == Best(stats)
      invariant rows == ExportRows(team, stats)
    {
      var player := players[i];
      var page := innings(player.id);
      if page.None? {
        AllReadableStop(players, innings, i);
        return Failure(InningsTimeout(i));
      }
      GatheredPrefix(players, innings, i);
      var tallied := TallyPositions(page.value);
      if tallied.Failure? {
        AllReadableStop(players, innings, i);
        return Failure(InningsIndexError(i, tallied.error.row));
      }
      TallyTallied(page.value);
      var x := PlayerStats(player.name, tallied.value);
      best, rows := AddPlayer(team, best, rows, stats, x);
      stats := stats + [x];
      i := i + 1;
    }
    assert players[..i] == players;
    return Success(TeamOutput(best, rows));
  }

  /**
   * The body of `build_best_xi_for_team` without its prints and its file
   * write. Any exception in the roster fetch or in any player's fetch ends
   * the whole team's run; nothing of the team is returned then.
   */
  method BuildBestXiForTeam(team: string, rosterPage: Option<seq<RosterRow>>, innings: string -> Option<seq<Row>>)
    returns (r: Result<TeamOutput, TeamError>)
    ensures rosterPage.None? ==> r == Failure(RosterTimeout)
    ensures rosterPage.Some? && !AllLinked(rosterPage.value) ==>
              r.Failure? && r.error.RosterLinkMissing? && r.error.row < |rosterPage.value|
              && LacksLink(rosterPage.value[r.error.row]) && AllLinked(rosterPage.value[..r.error.row])
    ensures rosterPage.Some? && AllLinked(rosterPage.value) ==>
              var players := Kept(rosterPage.value);
              && (r.Success? <==> AllReadable(players, innings))
              && (r.Failure? ==>
                    && (r.error.InningsTimeout? || r.error.InningsIndexError?)
                    && r.error.player < |players|
                    && AllReadable(players[..r.error.player], innings)
                    && !Readable(innings, players[r.error.player])
                    && (r.error.InningsTimeout? <==> innings(players[r.error.player].id).None?)
                    && (r.error.InningsIndexError? ==>
                          var page := innings(players[r.error.player].id).value;
                          r.error.row < |page| && 0 < |page[r.error.row]| <= PosColumn && NoShortRow(page[..r.error.row])))
              && (r.Success? ==>
                    && r.value.best == Best(Gathered(players, innings))
                    && r.value.rows == ExportRows(team, Gathered(players, innings)))
  {
    if rosterPage.None? {
      return Failure(RosterTimeout);
    }
    var fetched := FetchPlayers(rosterPage.value);
    if fetched.Failure? {
      return Failure(RosterLinkMissing(fetched.error.row));
    }
    r := GatherTeam(team, fetched.value, innings);
  }
}
