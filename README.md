# Best-XI scraper core, modelled in Dafny

The scraper in `common-xi-scraper/cricinfodata.py` builds a "best XI" for each
of the eleven teams in the script's team map (lines 122-134). It works in three steps:

- **Roster.** It reads the team's 2010–2019 player table. From each player row it
  takes the player's name (the stripped text of the first cell) and id (the file
  name of the cell's profile link, cut at its first '.', so `a.b.html` gives `a`). A row is kept
  only when both are non-empty.
- **Tally.** For each player it reads the innings table. It counts how many
  innings the player batted at each position from 1 to 11, using the 'Pos'
  column (index 6). Rows without cells, a 'Pos' cell that is not a number, and
  numbers outside 1..11 are skipped.
- **Fold.** It folds the tallies into an eleven-slot team table, in roster order.
  A slot goes to the player whose count there is strictly greater than the count
  the slot holds. So the first player to reach the maximum keeps the slot. Along
  the way it collects one export row (team, player, position, matches) per tally
  entry.

The model keeps the loops of the source as Dafny methods with loop invariants:

- `Roster.FetchPlayers`
- `PositionTally.TallyPositions` and its per-row step `PositionTally.CountRow`
- `BestXi.UpdateBest` and `BestXi.AppendPlayerRows`, joined by `BestXi.AddPlayer`
- `Team.GatherTeam` and `Team.BuildBestXiForTeam`

Each method is proved equal to a function over the prefix of the input it has
consumed:

- `Roster.Kept`
- `PositionTally.Tally`
- `BestXi.Best`
- `BestXi.ExportRows`
- `Team.Gathered`

Each of those functions is tied by lemmas to an independent description:

- **`Kept`** contains exactly the rows' candidates, in table order.
- **`Tally`** is the unique dictionary that `PositionTally.Describes` accepts:
  - its keys are positions, in the order each was first seen;
  - each count is the number of rows counted there.
- **`Best`** gives each slot as the maximum count over the players and the first
  player who reaches it.

A Python dict is modelled as the list of its keys in insertion order plus a map.
This matters because the export rows follow `dict.items()` order.

The page loads are inputs and are not modelled:

- The roster is given as a list of rows of cells; `None` stands for the wait
  timing out.
- Each player's innings table is given by a function from player id to rows;
  `None` again stands for the wait timing out.

An exception is modelled as a `Failure` value that names the row or player where
it was raised:

- a roster row with cells but no link;
- an innings row with cells but no 'Pos' cell, where `columns[6]` raises
  `IndexError`, which `except ValueError` does not catch;
- a timeout.

A failed fetch for one player does not just skip that player.
`build_best_xi_for_team` has no `try`, so any exception ends the team's whole
run, and the top-level loop catches it. `Team.BuildBestXiForTeam` fails on a
roster timeout and on a roster row without a link. Once the roster is read, it
fails exactly when some player cannot be tallied, and it returns nothing for the
team in that case.

`str.strip`, `str.split` and `int` are modelled in `Text`. Stripping removes the
characters Python counts as whitespace; `int` reads only ASCII digits. Lemmas
there fix their meaning:

- stripping removes exactly the whitespace at both ends;
- joining the pieces of a split with the separator gives back the text, and so
  does splitting the join;
- for natural numbers, `int` reads back what `str` wrote.

## Model

| member | source | states |
|---|---|---|
| Roster.FetchPlayers | common-xi-scraper/cricinfodata.py:43-57 | Fails exactly when some row with cells has no link. The error names the first such row; every earlier row is linked. Otherwise returns `Kept(rows)`, the candidates in table order. |
| Roster.Candidate | common-xi-scraper/cricinfodata.py:44-55 | A row yields a player only with a non-empty name and a non-empty id. |
| Roster.CandidateIff | common-xi-scraper/cricinfodata.py:44-55 | A row yields a player if and only if it has cells, its first cell has a link, and both the stripped name and the id are non-empty. The player is then (the stripped text, the id of the link). |
| Roster.Kept | common-xi-scraper/cricinfodata.py:43-57 | At most one player per row. |
| Roster.KeptComplete | common-xi-scraper/cricinfodata.py:43-57 | Every row's candidate is in the result. |
| Roster.KeptSound | common-xi-scraper/cricinfodata.py:43-57 | Every player in the result is the candidate of some row. |
| Roster.KeptAppend | common-xi-scraper/cricinfodata.py:43-57 | The players of two tables read one after the other are the concatenation of each table's players, so table order is kept. |
| Roster.KeptSnoc | common-xi-scraper/cricinfodata.py:43-55 | One more row appends exactly that row's player, if it has one. |
| Roster.KeptValid | common-xi-scraper/cricinfodata.py:49-55 | Every kept player has a non-empty name and a non-empty id that contains neither '/' nor '.'. |
| Roster.PlayerId | common-xi-scraper/cricinfodata.py:51 | The extracted id contains neither '/' nor '.'. What it extracts from a profile link is given by `Roster.PlayerIdOfLink`. |
| Roster.PlayerIdOfLink | common-xi-scraper/cricinfodata.py:51 | For a link `base/id.ext` whose id has no '/' or '.' and whose extension has no '/', the extracted id is `id`. |
| Roster.AllLinkedIff | common-xi-scraper/cricinfodata.py:44-50 | The roster can be read through if and only if every row that has cells has a link. |
| Text.Strip | common-xi-scraper/cricinfodata.py:49 | Stripping never lengthens the text. What it removes is given by `Text.StripIsInfix`, `Text.StripEdges` and `Text.StripPadded`. |
| Text.StripEdges | common-xi-scraper/cricinfodata.py:49 | A stripped text is empty or starts and ends with non-whitespace. |
| Text.StripIsInfix | common-xi-scraper/cricinfodata.py:49 | The text is some whitespace, then its stripped form, then some whitespace. |
| Text.StripPadded | common-xi-scraper/cricinfodata.py:78 | Stripping whitespace padding off a text with non-space edges gives that text back. |
| Text.StripIdempotent | common-xi-scraper/cricinfodata.py:49 | Stripping twice is stripping once. |
| Text.TrimStartRemovesSpace | common-xi-scraper/cricinfodata.py:49 | Left-trimming removes a prefix made only of whitespace. |
| Text.TrimEndRemovesSpace | common-xi-scraper/cricinfodata.py:49 | Right-trimming removes a suffix made only of whitespace. |
| Text.Split | common-xi-scraper/cricinfodata.py:51 | A split gives at least one piece, so `[-1]` and `[0]` always exist. What the pieces are is given by `Text.JoinSplit`, `Text.SplitJoin` and `Text.SplitPiecesLackSeparator`. |
| Text.SplitPiecesLackSeparator | common-xi-scraper/cricinfodata.py:51 | No piece of a split contains the separator. |
| Text.SplitAtSeparator | common-xi-scraper/cricinfodata.py:51 | Splitting `a + sep + b` gives the pieces of `a` followed by the pieces of `b`. |
| Text.SplitWithoutSeparator | common-xi-scraper/cricinfodata.py:51 | A text without the separator splits into itself alone. |
| Text.JoinSplit | common-xi-scraper/cricinfodata.py:51 | Joining the pieces of a split with the separator gives back the text. |
| Text.SplitJoin | common-xi-scraper/cricinfodata.py:51 | Splitting a join of separator-free pieces gives back the pieces. |
| Text.ParseInt | common-xi-scraper/cricinfodata.py:78 | A text that parses is non-empty, and a negative value comes only from a leading '-'. |
| Text.ParseIntDigits | common-xi-scraper/cricinfodata.py:78 | Every character after the first of a text that parses is a decimal digit. |
| Text.ParseShowNat | common-xi-scraper/cricinfodata.py:78 | Parsing the decimal spelling of `n` gives `n`. |
| PositionTally.TallyPositions | common-xi-scraper/cricinfodata.py:69-84 | Fails exactly when some row has cells but no 'Pos' cell. The error names the first such row; no earlier row is short. Otherwise returns `Tally(rows)`. |
| PositionTally.CountRow | common-xi-scraper/cricinfodata.py:72-82 | For a row with a 'Pos' cell: a counted row increments its position and appends the key if it is new; any other row leaves the dict unchanged. |
| PositionTally.Classify | common-xi-scraper/cricinfodata.py:72-82 | A row is skipped as blank exactly when it has no cells and raises exactly when it has 1 to 6 cells. A counted position is in 1..11. |
| PositionTally.ClassifyCounted | common-xi-scraper/cricinfodata.py:77-80 | A row is counted at `p` if and only if its stripped 'Pos' cell parses to `p` and `p` is in 1..11. |
| PositionTally.ClassifySkipped | common-xi-scraper/cricinfodata.py:77-82 | A row with a 'Pos' cell is skipped if and only if that cell is not a number (`ValueError`) or is a number outside 1..11. |
| PositionTally.Tally | common-xi-scraper/cricinfodata.py:69-84 | Each row adds at most one key. What the dict holds is given by `PositionTally.TallyDescribes` and `PositionTally.DescribesUnique`. |
| PositionTally.Bumped | common-xi-scraper/cricinfodata.py:80 | `+= 1` on the `defaultdict` raises the count at `p` by one from its default of 0 and leaves every other count alone. The keys become the old keys plus `p` and nothing else; the existing keys keep their order, and `p` is appended when new. |
| PositionTally.TallyDescribes | common-xi-scraper/cricinfodata.py:69-84 | The tally is a well-formed dict. Its keys are positions in 1..11, each with a count of at least 1. The count at each position is the number of rows counted there. Keys appear in the order of their first counted row. |
| PositionTally.DescribesUnique | common-xi-scraper/cricinfodata.py:69-84 | At most one dict (keys, order and counts) fits that description of a list of rows. |
| PositionTally.FirstSeenOrderUnique | common-xi-scraper/cricinfodata.py:80 | Two key orders with the same keys, both sorted by first occurrence, are equal. |
| PositionTally.OccurrencesZero | common-xi-scraper/cricinfodata.py:79-80 | A position has count 0 if and only if no row is counted there. |
| PositionTally.FirstIndexIsFirst | common-xi-scraper/cricinfodata.py:80 | The first-occurrence index of a position is a row counted there, and no earlier row is. |
| PositionTally.NoShortRowIff | common-xi-scraper/cricinfodata.py:72-78 | The loop gets through if and only if no row has between 1 and 6 cells. |
| PositionTally.BumpedValid | common-xi-scraper/cricinfodata.py:80 | Incrementing a key keeps the dict well formed. |
| PositionTally.DescribesCount | common-xi-scraper/cricinfodata.py:80 | Incrementing at a counted row's position turns a description of the earlier rows into one of the longer list. |
| PositionTally.DescribesSkip | common-xi-scraper/cricinfodata.py:73-82 | A skipped row leaves a correct tally correct. |
| BestXi.BestEmpty | common-xi-scraper/cricinfodata.py:91 | With no players, every slot 1..11 is `("", 0)`. |
| BestXi.Best | common-xi-scraper/cricinfodata.py:91-111 | The table has exactly the slots 1..11. What each slot holds is given by `BestXi.LeaderIsFirstMax`, `BestXi.MaxAtUpper` and `BestXi.MaxAtAttained`. |
| BestXi.Challenge | common-xi-scraper/cricinfodata.py:109-111 | A slot's count never decreases. The slot becomes (this player, this count) if and only if the count is strictly greater; otherwise it is unchanged. |
| BestXi.ChallengeStep | common-xi-scraper/cricinfodata.py:108-111 | One more player challenging each slot turns the best table of the earlier players into the best table of all of them. |
| BestXi.BestStep | common-xi-scraper/cricinfodata.py:108-111 | A table updated slot by slot by one player's challenges is `Best` of the longer player list. |
| BestXi.UpdateBest | common-xi-scraper/cricinfodata.py:108-111 | The same slots remain. Each slot is challenged with the player's count there, and slots the player never batted in are unchanged. |
| BestXi.LeaderIsFirstMax | common-xi-scraper/cricinfodata.py:94-111 | A slot with a positive count belongs to a player whose count there is the maximum over all players. No earlier player reaches that count, so the first to reach the maximum wins ties. |
| BestXi.MaxAtUpper | common-xi-scraper/cricinfodata.py:108-111 | No player's count at a position exceeds the slot's count. |
| BestXi.MaxAtAttained | common-xi-scraper/cricinfodata.py:108-111 | Some player's count at a position equals the slot's count. |
| BestXi.FirstReachingIsFirst | common-xi-scraper/cricinfodata.py:109 | The player found for a count reaches it, and no earlier player does. |
| BestXi.AppendPlayerRows | common-xi-scraper/cricinfodata.py:99-105 | Appends one row per tally entry, for that player, in the dict's order. |
| BestXi.AddPlayer | common-xi-scraper/cricinfodata.py:97-111 | One player's step extends both the table and the export rows to those of the longer player list. |
| BestXi.PlayerRows | common-xi-scraper/cricinfodata.py:99-105 | One row per tally entry of the player. The content of each row is given by `BestXi.ExportRowsAt`. |
| BestXi.ExportRows | common-xi-scraper/cricinfodata.py:92-105 | There are exactly as many export rows as tally entries over all players, so nothing is merged or dropped. Their order and content are given by `BestXi.ExportRowsAppend` and `BestXi.ExportRowsAt`. |
| BestXi.ExportRowsAppend | common-xi-scraper/cricinfodata.py:94-105 | The rows of two groups of players are the rows of the first group followed by those of the second. |
| BestXi.ExportRowsAt | common-xi-scraper/cricinfodata.py:99-105 | Row number (entries of earlier players + j) is entry j of player k: team, name, position, count. |
| BestXi.ExportRowsInRange | common-xi-scraper/cricinfodata.py:99-105 | With tallies as the counting loop returns them, every export row has a position in 1..11 and a count of at least 1. |
| BestXi.TallyTallied | common-xi-scraper/cricinfodata.py:79-80 | Every tally has keys in 1..11 only, so the update loop's lookup always finds its slot. |
| Team.GatherTeam | common-xi-scraper/cricinfodata.py:94-111 | Succeeds exactly when every player's innings page loads with no short row. Otherwise it names the first failing player together with the reason (timeout or `IndexError`). For an `IndexError` it also names the first row of that player's page that has cells but no 'Pos' cell. On success the table is `Best` and the rows are `ExportRows` of all players' tallies. |
| Team.BuildBestXiForTeam | common-xi-scraper/cricinfodata.py:86-119 | Covers both failure sources. A roster timeout and a roster row without a link each fail the team. When the roster is readable, the outcome is `GatherTeam`'s over the roster's players: success exactly when every player can be tallied, and then the best table and the export rows. On failure it names the first failing player, the reason, and for an `IndexError` the first short row of that player's page. |
| Team.AllReadableIff | common-xi-scraper/cricinfodata.py:94-96 | The team can be processed if and only if every player's page loads and has no short row. |
| Team.GatheredTallied | common-xi-scraper/cricinfodata.py:94-96 | There is one tally per player, in roster order, under the player's name, and each describes that player's innings rows. |
| Team.Gathered | common-xi-scraper/cricinfodata.py:94-96 | One tally per player. Which tally is given by `Team.GatheredTallied`. |
| Scenarios.NotANumberRow | common-xi-scraper/cricinfodata.py:81-82 | A 'DNB' position cell is the `ValueError` case. |
| Scenarios.OutOfRangeRow | common-xi-scraper/cricinfodata.py:79 | A position of 15 is parsed and then skipped. |
| Scenarios.PaddedRow | common-xi-scraper/cricinfodata.py:78-80 | A padded `" 3 "` is counted at 3. |
| Scenarios.SeparatorPaddedRow | common-xi-scraper/cricinfodata.py:78-80 | A position padded with U+001C and U+00A0, which `str.strip()` removes, is counted at 3. |
| Scenarios.TallySkipsJunk | common-xi-scraper/cricinfodata.py:71-84 | Rows reading 'DNB', 15 and `" 3 "` tally to `{3: 1}`. |
| Scenarios.SlotAfterTwo | common-xi-scraper/cricinfodata.py:108-111 | After two players, a slot is the initial slot challenged by each of them in turn. |
| Scenarios.TieKeepsFirst | common-xi-scraper/cricinfodata.py:109 | With equal counts, the earlier player keeps the slot. |
| Scenarios.GreaterTakesOver | common-xi-scraper/cricinfodata.py:109-111 | A strictly greater later count takes the slot. |
| Scenarios.RowsOfTwoPlayers | common-xi-scraper/cricinfodata.py:99-105 | Every entry of every player is exported, player after player, in dict order. |
| Scenarios.SinglePlayerTeam | common-xi-scraper/cricinfodata.py:91-111 | A lone player takes the slots they batted in; the other slots stay `("", 0)`. |
| Scenarios.ProfileLinkId | common-xi-scraper/cricinfodata.py:51 | The id of `/ci/content/player/253802.html` is `253802`. |

## Left out

- The browser session is not modelled: the Selenium driver, page loads, `WebDriverWait` timeouts and element lookups (lines 10-13, 33-40, 59-68). Pages arrive as inputs, and a timed-out wait is `None`.
- The URL templates (lines 15-29) and `team_id` are not modelled, because they serve only to build URLs for the browser.
- The CSV file write (lines 113-117) is not modelled. The model returns the list of rows that would be written instead.
- The progress prints (lines 89, 95) are left out, because they are output only.
- The top-level loop over the team mapping, its `try`/`except`, and `driver.quit()` are left out (lines 121 onwards). Each team's run is one call of `Team.BuildBestXiForTeam`, whose `Failure` result stands for the exception that loop catches.
- ParseInt: models `int()` on a stripped text as an optional sign followed by ASCII digits. It does not model `_` digit separators or non-ASCII Unicode digits, which Python also accepts.
- PositionTally.CountRow: models `position_counts[position] += 1` on the `defaultdict` as a read with default 0 followed by one store. A new key is appended to the key order, as Python's dict does.
- Text.Strip: its own contract states only that stripping does not lengthen the text. What stripping removes is stated by `Text.StripIsInfix`, `Text.StripEdges` and `Text.StripPadded`.
- Text.Split: its own contract states only that a split gives at least one piece. What the pieces are is stated by `Text.JoinSplit`, `Text.SplitJoin` and `Text.SplitPiecesLackSeparator`.
