/**
 * The best-XI fold of `build_best_xi_for_team`: for each player in roster
 * order, one export row per entry of their position tally is appended, and
 * each of the eleven slots of the team table is taken over by the player
 * when their count there is strictly greater than the slot's.
 */
module BestXi {
  import opened Seqs
  import opened PositionTally

  /** One entry of the team table: `{"player": ..., "matches": ...}`. */
  datatype Slot = Slot(player: string, matches: nat)

  /** A player as the fold sees them: the roster name and the tally of their innings. */
  datatype PlayerStats = PlayerStats(name: string, tally: PositionCounts)

  /** One element of `all_player_data`, a line of the exported file. */
  datatype ExportRow = ExportRow(team: string, player: string, position: int, matches: nat)

  /** The keys of the team table, `range(1, 12)`. */
  const Positions: set<int> := set p | 1 <= p <= 11

  /** The table before any player is folded in. */
  const InitialTable: map<int, Slot> := map p | 1 <= p <= 11 :: Slot("", 0)

  /** A tally as `TallyPositions` returns it: a well-formed dict whose keys are positions. */
  ghost predicate Tallied(t: PositionCounts) {
    t.Valid() && forall p :: p in t.counts ==> p in Positions && t.counts[p] >= 1
  }

  function CountAt(x: PlayerStats, p: int): nat {
    CountOf(x.tally, p)
  }

  function Max(a: nat, b: nat): nat {
    if a >= b then a else b
  }

  // ---------------------------------------------------------------------
  // The table the fold is meant to produce
  // ---------------------------------------------------------------------

  /** The largest count any of the players has at `p`, and 0 when none has one. */
  function MaxAt(stats: seq<PlayerStats>, p: int): nat {
    if stats == [] then 0
    else Max(MaxAt(stats[..|stats| - 1], p), CountAt(stats[|stats| - 1], p))
  }

  /** The index of the first player whose count at `p` is at least `m`; `|stats|` when there is none. */
  function FirstReaching(stats: seq<PlayerStats>, p: int, m: nat): (k: nat)
    ensures k <= |stats|
  {
    if stats == [] then 0
    else
      var n := |stats| - 1;
      var k := FirstReaching(stats[..n], p, m);
      if k < n then k
      else if CountAt(stats[n], p) >= m then n
      else |stats|
  }

  /** No player has more than `MaxAt` at `p`. */
  lemma {:induction false} MaxAtUpper(stats: seq<PlayerStats>, p: int, k: nat)
    requires k < |stats|
    ensures CountAt(stats[k], p) <= MaxAt(stats, p)
  {
    var n := |stats| - 1;
    if k < n {
      assert stats[..n][k] == stats[k];
      MaxAtUpper(stats[..n], p, k);
    }
  }

  /** Some player has exactly `MaxAt` at `p`. */
  lemma {:induction false} MaxAtAttained(stats: seq<PlayerStats>, p: int) returns (k: nat)
    requires stats != []
    ensures k < |stats| && CountAt(stats[k], p) == MaxAt(stats, p)
  {
    var n := |stats| - 1;
    if n > 0 && MaxAt(stats[..n], p) >= CountAt(stats[n], p) {
      k := MaxAtAttained(stats[..n], p);
      assert stats[..n][k] == stats[k];
    } else {
      k := n;
    }
  }

  /** `FirstReaching` finds a player reaching `m`, and no earlier player does. */
  lemma {:induction false} FirstReachingIsFirst(stats: seq<PlayerStats>, p: int, m: nat)
    ensures FirstReaching(stats, p, m) < |stats| ==> CountAt(stats[FirstReaching(stats, p, m)], p) >= m
    ensures forall j :: 0 <= j < FirstReaching(stats, p, m) && j < |stats| ==> CountAt(stats[j], p) < m
  {
    if stats != [] {
      var n := |stats| - 1;
      var init := stats[..n];
      FirstReachingIsFirst(init, p, m);
      var k := FirstReaching(stats, p, m);
      forall j | 0 <= j < k && j < n ensures CountAt(stats[j], p) < m {
        assert stats[j] == init[j];
      }
      if k < n {
        assert stats[k] == init[k];
      }
    }
  }

  /** Any player reaching `m` bounds `FirstReaching` from above. */
  lemma FirstReachingFound(stats: seq<PlayerStats>, p: int, m: nat, k: nat)
    requires k < |stats| && CountAt(stats[k], p) >= m
    ensures FirstReaching(stats, p, m) <= k
  {
    FirstReachingIsFirst(stats, p, m);
  }

  lemma MaxAtReached(stats: seq<PlayerStats>, p: int)
    ensures MaxAt(stats, p) > 0 ==> FirstReaching(stats, p, MaxAt(stats, p)) < |stats|
  {
    if stats != [] {
      var k := MaxAtAttained(stats, p);
      FirstReachingFound(stats, p, MaxAt(stats, p), k);
    }
  }

  /** The player holding slot `p` after the fold: the first to reach the maximum, `""` when it is 0. */
  function Leader(stats: seq<PlayerStats>, p: int): string {
    var m := MaxAt(stats, p);
    if m == 0 then ""
    else
      MaxAtReached(stats, p);
      stats[FirstReaching(stats, p, m)].name
  }

  /** The whole team table after folding in `stats`. */
  function Best(stats: seq<PlayerStats>): (best: map<int, Slot>)
    ensures forall p :: p in best <==> 1 <= p <= 11
  {
    map p | p in Positions :: Slot(Leader(stats, p), MaxAt(stats, p))
  }

  /**
   * What slot `p` holds after the fold: a player whose count there is the
   * maximum over all players, with every earlier player strictly below it.
   */
  lemma LeaderIsFirstMax(stats: seq<PlayerStats>, p: int) returns (k: nat)
    requires MaxAt(stats, p) > 0
    ensures k < |stats| && Leader(stats, p) == stats[k].name
    ensures CountAt(stats[k], p) == MaxAt(stats, p)
    ensures forall j :: 0 <= j < |stats| ==> CountAt(stats[j], p) <= CountAt(stats[k], p)
    ensures forall j :: 0 <= j < k ==> CountAt(stats[j], p) < CountAt(stats[k], p)
  {
    var m := MaxAt(stats, p);
    MaxAtReached(stats, p);
    k := FirstReaching(stats, p, m);
    FirstReachingIsFirst(stats, p, m);
    MaxAtUpper(stats, p, k);
    forall j | 0 <= j < |stats| ensures CountAt(stats[j], p) <= m {
      MaxAtUpper(stats, p, j);
    }
  }

  /** With no player folded in, the table is the initial one. */
  lemma BestEmpty()
    ensures Best([]) == InitialTable
  {
  }

  // ---------------------------------------------------------------------
  // One player's step
  // ---------------------------------------------------------------------

  /** The update of one slot: a strictly greater count takes it over, an equal or smaller one does not. */
  function Challenge(s: Slot, name: string, count: nat): (r: Slot)
    ensures r.matches >= s.matches
    ensures r != s ==> count > s.matches && r == Slot(name, count)
    ensures count > s.matches ==> r == Slot(name, count)
  {
    if count > s.matches then Slot(name, count) else s
  }

  /** Challenging the slot of the fold so far with the next player gives the slot of the longer fold. */
  lemma ChallengeStep(stats: seq<PlayerStats>, x: PlayerStats, p: int)
    ensures Challenge(Slot(Leader(stats, p), MaxAt(stats, p)), x.name, CountAt(x, p))
            == Slot(Leader(stats + [x], p), MaxAt(stats + [x], p))
  {
    var all := stats + [x];
    var n := |stats|;
    assert all[..n] == stats;
    assert all[n] == x;
    var m, c := MaxAt(stats, p), CountAt(x, p);
    if c > m {
      var k := FirstReaching(stats, p, c);
      if k < n {
        FirstReachingIsFirst(stats, p, c);
        MaxAtUpper(stats, p, k);
      }
      assert FirstReaching(all, p, c) == n;
    } else if m > 0 {
      MaxAtReached(stats, p);
      assert FirstReaching(all, p, m) == FirstReaching(stats, p, m);
    }
  }

  /** Updating every slot of `Best(stats)` with the next player yields `Best` of the longer fold. */
  lemma BestStep(best: map<int, Slot>, best': map<int, Slot>, stats: seq<PlayerStats>, x: PlayerStats)
    requires best == Best(stats)
    requires best'.Keys == best.Keys
    requires forall q :: q in best ==> best'[q] == Challenge(best[q], x.name, CountAt(x, q))
    ensures best' == Best(stats + [x])
  {
    forall q | q in Positions ensures best'[q] == Best(stats + [x])[q] {
      ChallengeStep(stats, x, q);
    }
  }

  /**
   * The update loop of lines 108-111 for one player, over the entries of
   * their tally in insertion order.
   */
  method UpdateBest(best: map<int, Slot>, name: string, t: PositionCounts) returns (best': map<int, Slot>)
    requires t.Valid()
    requires forall p :: p in t.counts ==> p in best
    ensures best'.Keys == best.Keys
    ensures forall q :: q in best ==> best'[q] == Challenge(best[q], name, CountOf(t, q))
    ensures forall q :: q in best && q !in t.counts ==> best'[q] == best[q]
  {
    best' := best;
    var j := 0;
    while j < |t.order|
      invariant 0 <= j <= |t.order|
      invariant best'.Keys == best.Keys
      invariant forall q :: q in best ==>
                  best'[q] == if q in t.order[..j] then Challenge(best[q], name, CountOf(t, q)) else best[q]
    {
      var pos := t.order[j];
      assert pos !in t.order[..j] by {
        forall k | 0 <= k < j ensures t.order[..j][k] != pos {
          assert t.order[..j][k] == t.order[k];
        }
      }
      assert t.order[..j + 1] == t.order[..j] + [pos];
      var matches := t.counts[pos];
      if matches > best'[pos].matches {
        best' := best'[pos := Slot(name, matches)];
      }
      j := j + 1;
    }
    assert t.order[..j] == t.order;
  }

  // ---------------------------------------------------------------------
  // The export rows
  // ---------------------------------------------------------------------

  /** The rows one player contributes: one per tally entry, in insertion order. */
  function PlayerRows(team: string, name: string, t: PositionCounts): (rows: seq<ExportRow>)
    ensures |rows| == |t.order|
  {
    seq(|t.order|, k requires 0 <= k < |t.order| => ExportRow(team, name, t.order[k], CountOf(t, t.order[k])))
  }

  /** All rows of a fold over `stats`, player after player. */
  function ExportRows(team: string, stats: seq<PlayerStats>): (rows: seq<ExportRow>)
    ensures |rows| == TotalEntries(stats)
  {
    if stats == [] then []
    else
      var x := stats[|stats| - 1];
      ExportRows(team, stats[..|stats| - 1]) + PlayerRows(team, x.name, x.tally)
  }

  /** The number of tally entries over all players. */
  function TotalEntries(stats: seq<PlayerStats>): nat {
    if stats == [] then 0 else TotalEntries(stats[..|stats| - 1]) + |stats[|stats| - 1].tally.order|
  }

  lemma ExportRowsSnoc(team: string, stats: seq<PlayerStats>, x: PlayerStats)
    ensures ExportRows(team, stats + [x]) == ExportRows(team, stats) + PlayerRows(team, x.name, x.tally)
    ensures TotalEntries(stats + [x]) == TotalEntries(stats) + |x.tally.order|
  {
    assert (stats + [x])[..|stats|] == stats;
  }

  /** The rows of two runs of players are the rows of the first followed by those of the second. */
  lemma {:induction false} ExportRowsAppend(team: string, a: seq<PlayerStats>, b: seq<PlayerStats>)
    ensures ExportRows(team, a + b) == ExportRows(team, a) + ExportRows(team, b)
    ensures TotalEntries(a + b) == TotalEntries(a) + TotalEntries(b)
  {
    if b == [] {
      assert a + b == a;
    } else {
      var n := |b| - 1;
      var b', x := b[..n], b[n];
      SnocSplit(a, b);
      calc {
        ExportRows(team, a + b);
        { ExportRowsSnoc(team, a + b', x); }
        ExportRows(team, a + b') + PlayerRows(team, x.name, x.tally);
        { ExportRowsAppend(team, a, b'); }
        ExportRows(team, a) + ExportRows(team, b') + PlayerRows(team, x.name, x.tally);
        { ExportRowsSnoc(team, b', x); }
        ExportRows(team, a) + ExportRows(team, b);
      }
    }
  }

  /** Entry `j` of player `k`'s tally is written at offset `j` after the entries of the earlier players. */
  lemma ExportRowsAt(team: string, stats: seq<PlayerStats>, k: nat, j: nat)
    requires k < |stats| && j < |stats[k].tally.order|
    ensures TotalEntries(stats[..k]) + j < |ExportRows(team, stats)|
    ensures ExportRows(team, stats)[TotalEntries(stats[..k]) + j]
            == ExportRow(team, stats[k].name, stats[k].tally.order[j], CountOf(stats[k].tally, stats[k].tally.order[j]))
  {
    var x := stats[k];
    assert stats == (stats[..k] + [x]) + stats[k + 1..];
    ExportRowsAppend(team, stats[..k] + [x], stats[k + 1..]);
    ExportRowsSnoc(team, stats[..k], x);
  }

  /** Rows of tallies as `TallyPositions` returns them name a position 1..11 and a count of at least 1. */
  lemma {:induction false} ExportRowsInRange(team: string, stats: seq<PlayerStats>)
    requires forall k :: 0 <= k < |stats| ==> Tallied(stats[k].tally)
    ensures forall r :: r in ExportRows(team, stats) ==> r.position in Positions && r.matches >= 1
  {
    if stats != [] {
      var n := |stats| - 1;
      var x := stats[n];
      assert forall k :: 0 <= k < n ==> stats[..n][k] == stats[k];
      ExportRowsInRange(team, stats[..n]);
      assert Tallied(x.tally);
      forall r | r in PlayerRows(team, x.name, x.tally) ensures r.position in Positions && r.matches >= 1 {
        var k :| 0 <= k < |x.tally.order| && PlayerRows(team, x.name, x.tally)[k] == r;
        assert x.tally.order[k] in x.tally.counts;
      }
    }
  }

  /** The export loop of lines 99-105 for one player. */
  method AppendPlayerRows(team: string, name: string, t: PositionCounts, rows: seq<ExportRow>)
    returns (rows': seq<ExportRow>)
    requires t.Valid()
    ensures rows' == rows + PlayerRows(team, name, t)
  {
    rows' := rows;
    var j := 0;
    while j < |t.order|
      invariant 0 <= j <= |t.order|
      invariant rows' == rows + PlayerRows(team, name, t)[..j]
    {
      var pos := t.order[j];
      var matches := t.counts[pos];
      assert PlayerRows(team, name, t)[..j + 1] == PlayerRows(team, name, t)[..j] + [ExportRow(team, name, pos, matches)];
      rows' := rows' + [ExportRow(team, name, pos, matches)];
      j := j + 1;
    }
    assert PlayerRows(team, name, t)[..j] == PlayerRows(team, name, t);
  }

  /** Every tally `TallyPositions` can return is one the fold accepts. */
  lemma TallyTallied(rows: seq<Row>)
    ensures Tallied(Tally(rows))
  {
    TallyDescribes(rows);
    var t := Tally(rows);
    forall p | p in t.counts ensures p in Positions {
      assert InRange(p);
    }
  }

  /**
   * Lines 97-111 for one player whose innings were tallied: the export rows
   * are appended, then the team table is updated.
   */
  method AddPlayer(team: string, best: map<int, Slot>, rows: seq<ExportRow>, ghost stats: seq<PlayerStats>, x: PlayerStats)
    returns (best': map<int, Slot>, rows': seq<ExportRow>)
    requires Tallied(x.tally)
    requires best == Best(stats) && rows == ExportRows(team, stats)
    ensures best' == Best(stats + [x])
    ensures rows' == ExportRows(team, stats + [x])
  {
    rows' := AppendPlayerRows(team, x.name, x.tally, rows);
    ExportRowsSnoc(team, stats, x);
    best' := UpdateBest(best, x.name, x.tally);
    BestStep(best, best', stats, x);
  }
}
