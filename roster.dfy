/**
 * The roster step of `fetch_players`: turning the rows of a team's player
 * table into `(name, id)` pairs. Each row is given as its cells; the first
 * cell carries the player's name text and the `href` of its link.
 */
module Roster {
  import opened Wrappers
  import opened Text
  import opened Seqs

  /**
   * One table cell: its text and the `href` of the `<a>` inside it. `None`
   * stands for a cell with no `<a>` element (`find_element` raises) or an
   * `<a>` without `href` (`get_attribute` returns `None` and `.split` then
   * raises); both abort the roster fetch.
   */
  datatype Cell = Cell(text: string, href: Option<string>)

  type RosterRow = seq<Cell>

  datatype Player = Player(name: string, id: string)

  /** The exception that ends the roster fetch, with the index of the row that raised it. */
  datatype RosterError = LinkMissing(row: nat)

  /** `link.split("/")[-1].split(".")[0]`: the last path segment, cut at its first dot. */
  function PlayerId(link: string): (id: string)
    ensures '/' !in id && '.' !in id
  {
    var segments := Split(link, '/');
    var last := segments[|segments| - 1];
    SplitPiecesLackSeparator(link, '/');
    SplitPiecesLackSeparator(last, '.');
    SplitKeepsAbsent(last, '.', '/');
    Split(last, '.')[0]
  }

  /** A link built as `base/id.ext` yields back `id`. */
  lemma PlayerIdOfLink(base: string, id: string, ext: string)
    requires '/' !in id && '.' !in id && '/' !in ext
    ensures PlayerId(base + "/" + id + "." + ext) == id
  {
    var tail := id + "." + ext;
    assert '/' !in tail by {
      forall k | 0 <= k < |tail| ensures tail[k] != '/' {
        if k < |id| { assert tail[k] == id[k]; }
        else if k > |id| { assert tail[k] == ext[k - |id| - 1]; }
      }
    }
    assert base + "/" + id + "." + ext == base + ['/'] + tail;
    SplitAtSeparator(base, tail, '/');
    SplitWithoutSeparator(tail, '/');
    assert tail == id + ['.'] + ext;
    SplitAtSeparator(id, ext, '.');
    SplitWithoutSeparator(id, '.');
  }

  /** A non-empty row whose first cell has no usable link: the fetch raises there. */
  predicate LacksLink(row: RosterRow) {
    |row| > 0 && row[0].href.None?
  }

  /** No row with cells lacks its link, so the whole table can be read. */
  predicate AllLinked(rows: seq<RosterRow>) {
    rows == [] || (AllLinked(rows[..|rows| - 1]) && !LacksLink(rows[|rows| - 1]))
  }

  /** `AllLinked` says that no row lacks its link. */
  lemma {:induction false} AllLinkedIff(rows: seq<RosterRow>)
    ensures AllLinked(rows) <==> forall k :: 0 <= k < |rows| ==> !LacksLink(rows[k])
  {
    if rows != [] {
      var n := |rows| - 1;
      AllLinkedIff(rows[..n]);
      assert forall k :: 0 <= k < n ==> rows[..n][k] == rows[k];
    }
  }

  lemma AllLinkedPrefix(rows: seq<RosterRow>, i: nat)
    requires i < |rows|
    ensures AllLinked(rows[..i + 1]) <==> AllLinked(rows[..i]) && !LacksLink(rows[i])
  {
    assert rows[..i + 1][..i] == rows[..i];
  }

  /** A readable table has readable prefixes. */
  lemma AllLinkedShrink(rows: seq<RosterRow>, j: nat)
    requires j <= |rows|
    ensures AllLinked(rows) ==> AllLinked(rows[..j])
  {
    AllLinkedIff(rows);
    AllLinkedIff(rows[..j]);
    assert forall k :: 0 <= k < j ==> rows[..j][k] == rows[k];
  }

  /** The player a row contributes: only a row with a link, a non-blank name and a non-empty id. */
  function Candidate(row: RosterRow): (r: Option<Player>)
    ensures r.Some? ==> r.value.name != [] && r.value.id != []
  {
    if |row| == 0 || row[0].href.None? then None
    else
      var name := Strip(row[0].text);
      var id := PlayerId(row[0].href.value);
      if name != [] && id != [] then Some(Player(name, id)) else None
  }

  /** A row yields a candidate exactly when its link gives a non-empty id and its stripped name is non-empty. */
  lemma CandidateIff(row: RosterRow)
    ensures Candidate(row).Some? <==>
              |row| > 0 && row[0].href.Some? && Strip(row[0].text) != [] && PlayerId(row[0].href.value) != []
    ensures Candidate(row).Some? ==>
              Candidate(row).value == Player(Strip(row[0].text), PlayerId(row[0].href.value))
  {
  }

  /** What every roster entry satisfies: a name, and an id without '/' or '.'. */
  predicate ValidPlayer(p: Player) {
    p.name != [] && p.id != [] && '/' !in p.id && '.' !in p.id
  }

  /** The players of a roster in table order, one per row that yields a candidate. */
  function Kept(rows: seq<RosterRow>): (players: seq<Player>)
    ensures |players| <= |rows|
  {
    if rows == [] then []
    else
      var init := Kept(rows[..|rows| - 1]);
      match Candidate(rows[|rows| - 1])
      case Some(p) => init + [p]
      case None => init
  }

  /** The players one row contributes. */
  function RowPlayers(row: RosterRow): seq<Player> {
    match Candidate(row)
    case Some(p) => [p]
    case None => []
  }

  lemma KeptSnoc(rows: seq<RosterRow>, row: RosterRow)
    ensures Kept(rows + [row]) == Kept(rows) + RowPlayers(row)
  {
    var all := rows + [row];
    assert all[..|all| - 1] == rows;
    assert all[|all| - 1] == row;
  }

  /** One more row of the table adds that row's players. */
  lemma KeptPrefix(rows: seq<RosterRow>, i: nat)
    requires i < |rows|
    ensures Kept(rows[..i + 1]) == Kept(rows[..i]) + RowPlayers(rows[i])
  {
    assert rows[..i + 1] == rows[..i] + [rows[i]];
    KeptSnoc(rows[..i], rows[i]);
  }

  /** Every kept player has a name and an id, and the id holds no '/' or '.'. */
  lemma {:induction false} KeptValid(rows: seq<RosterRow>)
    ensures forall k :: 0 <= k < |Kept(rows)| ==> ValidPlayer(Kept(rows)[k])
  {
    if rows != [] {
      var n := |rows| - 1;
      KeptValid(rows[..n]);
      KeptSnoc(rows[..n], rows[n]);
      SnocSplit([], rows);
    }
  }

  /** Keeping is per row, so the order of the table is preserved. */
  lemma {:induction false} KeptAppend(a: seq<RosterRow>, b: seq<RosterRow>)
    ensures Kept(a + b) == Kept(a) + Kept(b)
  {
    if b == [] {
      assert a + b == a;
    } else {
      var n := |b| - 1;
      var b', last := b[..n], b[n];
      KeptAppend(a, b');
      SnocSplit(a, b);
      KeptSnoc(b', last);
      KeptSnoc(a + b', last);
    }
  }

  /** Every row that yields a candidate contributes it to the roster. */
  lemma {:induction false} KeptComplete(rows: seq<RosterRow>, k: nat)
    requires k < |rows| && Candidate(rows[k]).Some?
    ensures Candidate(rows[k]).value in Kept(rows)
  {
    var n := |rows| - 1;
    var init := rows[..n];
    SnocSplit([], rows);
    KeptSnoc(init, rows[n]);
    if k < n {
      assert init[k] == rows[k];
      KeptComplete(init, k);
    }
  }

  /** Every kept player is the candidate of some row. */
  lemma {:induction false} KeptSound(rows: seq<RosterRow>, p: Player)
    requires p in Kept(rows)
    ensures exists k :: 0 <= k < |rows| && Candidate(rows[k]) == Some(p)
  {
    var n := |rows| - 1;
    var init := rows[..n];
    if p in Kept(init) {
      KeptSound(init, p);
      var k :| 0 <= k < |init| && Candidate(init[k]) == Some(p);
      assert rows[k] == init[k];
    } else {
      assert Candidate(rows[n]) == Some(p);
    }
  }

  /**
   * The loop of `fetch_players`: skips rows without cells, raises at the first
   * row whose first cell has no link, and appends each candidate otherwise.
   */
  method FetchPlayers(rows: seq<RosterRow>) returns (r: Result<seq<Player>, RosterError>)
    ensures r.Failure? <==> !AllLinked(rows)
    ensures r.Failure? ==> r.error.row < |rows| && LacksLink(rows[r.error.row])
                           && AllLinked(rows[..r.error.row])
    ensures r.Success? ==> r.value == Kept(rows)
  {
    var players: seq<Player> := [];
    var i := 0;
    while i < |rows|
      invariant 0 <= i <= |rows|
      invariant AllLinked(rows[..i])
      invariant players == Kept(rows[..i])
    {
      var columns := rows[i];
      ghost var before := players;
      KeptPrefix(rows, i);
      AllLinkedPrefix(rows, i);
      if |columns| > 0 {
        if columns[0].href.None? {
          AllLinkedShrink(rows, i + 1);
          return Failure(LinkMissing(i));
        }
        var name := Strip(columns[0].text);
        var id := PlayerId(columns[0].href.value);
        if name != [] && id != [] {
          players := players + [Player(name, id)];
        }
      }
      assert players == before + RowPlayers(columns);
      i := i + 1;
    }
    assert rows[..i] == rows;
    return Success(players);
  }
}
