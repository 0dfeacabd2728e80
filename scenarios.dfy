/**
 * Worked examples of the model on small inputs, one per behaviour the scraper
 * is expected to show.
 */
module Scenarios {
  import opened Wrappers
  import opened Text
  import opened Roster
  import opened PositionTally
  import opened BestXi

  /** An innings row of the eleven-column table whose 'Pos' cell reads `pos`. */
  function InningsRow(pos: string): Row {
    ["45", "60", "75.00", "5", "1", "b", pos, "1", "v Ind", "Lord's", "1 Jan 2015"]
  }

  /** A tally with the single entry `p: n`. */
  function Single(p: int, n: nat): PositionCounts {
    PositionCounts([p], map[p := n])
  }

  /** A 'Pos' cell that is not a number is skipped. */
  lemma NotANumberRow()
    ensures Classify(InningsRow("DNB")) == NotANumber
  {
    StripPadded([], "DNB", []);
    assert [] + "DNB" + [] == "DNB";
  }

  /** A number that is not a batting position is skipped. */
  lemma OutOfRangeRow()
    ensures Classify(InningsRow("15")) == OutOfRange(15)
  {
    StripPadded([], "15", []);
    assert [] + "15" + [] == "15";
    assert "15"[1..] == "5" && "5"[1..] == [];
    assert IsDigits("5") && IsDigits("15");
    assert "15"[..1] == "1" && "1"[..0] == [];
    assert DigitsValue("1") == 1;
    assert DigitsValue("15") == 15;
  }

  /** A padded position is stripped and counted. */
  lemma PaddedRow()
    ensures Classify(InningsRow(" 3 ")) == Counted(3)
  {
    StripPadded(" ", "3", " ");
    assert " " + "3" + " " == " 3 ";
    assert ParseInt("3") == Some(3);
  }

  /** A file separator character is whitespace to `str.strip()`, so the position is still read. */
  lemma SeparatorPaddedRow()
    ensures Classify(InningsRow("\U{001C}3\U{00A0}")) == Counted(3)
  {
    StripPadded("\U{001C}", "3", "\U{00A0}");
    assert "\U{001C}" + "3" + "\U{00A0}" == "\U{001C}3\U{00A0}";
    assert ParseInt("3") == Some(3);
  }

  /** 'DNB' is not a number and 15 is not a position; only the padded 3 is counted. */
  lemma TallySkipsJunk()
    ensures NoShortRow([InningsRow("DNB"), InningsRow("15"), InningsRow(" 3 ")])
    ensures Tally([InningsRow("DNB"), InningsRow("15"), InningsRow(" 3 ")]) == Single(3, 1)
  {
    var rows := [InningsRow("DNB"), InningsRow("15"), InningsRow(" 3 ")];
    NoShortRowIff(rows);
    NotANumberRow();
    OutOfRangeRow();
    PaddedRow();
    assert rows[..2][..1] == rows[..1] && rows[..1][..0] == [];
    assert Tally(rows[..1]) == PositionCounts([], map[]);
    assert Tally(rows[..2]) == PositionCounts([], map[]);
  }

  /** Slot `p` after two players, as two challenges of the initial slot. */
  lemma SlotAfterTwo(x: PlayerStats, y: PlayerStats, p: int)
    requires p in Positions
    ensures Best([x, y])[p] == Challenge(Challenge(Slot("", 0), x.name, CountAt(x, p)), y.name, CountAt(y, p))
  {
    ChallengeStep([], x, p);
    ChallengeStep([x], y, p);
    assert [] + [x] == [x] && [x] + [y] == [x, y];
  }

  /** Equal counts: the player folded in first keeps the slot. */
  lemma TieKeepsFirst()
    ensures Best([PlayerStats("A", Single(4, 10)), PlayerStats("B", Single(4, 10))])[4] == Slot("A", 10)
  {
    SlotAfterTwo(PlayerStats("A", Single(4, 10)), PlayerStats("B", Single(4, 10)), 4);
  }

  /** A strictly greater later count takes the slot over. */
  lemma GreaterTakesOver()
    ensures Best([PlayerStats("A", Single(4, 8)), PlayerStats("B", Single(4, 9))])[4] == Slot("B", 9)
  {
    SlotAfterTwo(PlayerStats("A", Single(4, 8)), PlayerStats("B", Single(4, 9)), 4);
  }

  /** Every tally entry of every player is written, player after player, whoever ends up best. */
  lemma RowsOfTwoPlayers()
    ensures ExportRows("T", [PlayerStats("P1", PositionCounts([1, 2], map[1 := 5, 2 := 2])),
                             PlayerStats("P2", Single(1, 3))])
            == [ExportRow("T", "P1", 1, 5), ExportRow("T", "P1", 2, 2), ExportRow("T", "P2", 1, 3)]
  {
    var p1 := PlayerStats("P1", PositionCounts([1, 2], map[1 := 5, 2 := 2]));
    var p2 := PlayerStats("P2", Single(1, 3));
    ExportRowsSnoc("T", [], p1);
    ExportRowsSnoc("T", [p1], p2);
    assert [] + [p1] == [p1] && [p1] + [p2] == [p1, p2];
    assert PlayerRows("T", "P1", p1.tally) == [ExportRow("T", "P1", 1, 5), ExportRow("T", "P1", 2, 2)];
    assert PlayerRows("T", "P2", p2.tally) == [ExportRow("T", "P2", 1, 3)];
  }

  /** One player with `{1: 7}`: slot 1 is theirs, every other slot stays empty. */
  lemma SinglePlayerTeam()
    ensures Best([PlayerStats("X", Single(1, 7))])[1] == Slot("X", 7)
    ensures forall p :: 2 <= p <= 11 ==> Best([PlayerStats("X", Single(1, 7))])[p] == Slot("", 0)
  {
    var x := PlayerStats("X", Single(1, 7));
    assert [] + [x] == [x];
    ChallengeStep([], x, 1);
    forall p | 2 <= p <= 11 ensures Best([x])[p] == Slot("", 0) {
      ChallengeStep([], x, p);
    }
  }

  /** The id of a profile link is its file name without the extension. */
  lemma ProfileLinkId()
    ensures PlayerId("/ci/content/player/253802.html") == "253802"
  {
    PlayerIdOfLink("/ci/content/player", "253802", "html");
    assert "/ci/content/player" + "/" + "253802" + "." + "html" == "/ci/content/player/253802.html";
  }
}
