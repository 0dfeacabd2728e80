/**
 * The counting loop of `fetch_position_stats`: from the innings rows of one
 * player's results table to a batting-position -> innings-count dictionary
 * that keeps its keys in first-seen order.
 */
module PositionTally {
  import opened Wrappers
  import opened Text

  /** One innings row of the results table: the text of its cells. */
  type Row = seq<string>

  /** Index of the 'Pos' column. */
  const PosColumn: nat := 6

  /** The batting positions 1..11 that are counted. */
  predicate InRange(p: int) {
    1 <= p <= 11
  }

  /** What the loop does with one row. */
  datatype RowKind =
    | Blank                  // no cells: skipped
    | TooShort               // cells but no 'Pos' cell: `columns[6]` raises IndexError
    | NotANumber             // `int(...)` raises ValueError: skipped
    | OutOfRange(value: int) // parsed but not 1..11: skipped
    | Counted(pos: int)      // counted at `pos`

  function Classify(row: Row): (k: RowKind)
    ensures k.Blank? <==> row == []
    ensures k.TooShort? <==> 0 < |row| <= PosColumn
    ensures k.Counted? ==> InRange(k.pos)
  {
    if |row| == 0 then Blank
    else if |row| <= PosColumn then TooShort
    else
      match ParseInt(Strip(row[PosColumn]))
      case None => NotANumber
      case Some(n) => if InRange(n) then Counted(n) else OutOfRange(n)
  }

  /**
   * A row is counted at `p` exactly when it has a 'Pos' cell whose stripped
   * text parses to `p` and `p` is in 1..11.
   */
  lemma ClassifyCounted(row: Row, p: int)
    ensures Classify(row) == Counted(p) <==>
              |row| > PosColumn && ParseInt(Strip(row[PosColumn])) == Some(p) && InRange(p)
  {
  }

  /** A row with a 'Pos' cell is skipped exactly when that cell is not a number or not in 1..11. */
  lemma ClassifySkipped(row: Row)
    requires |row| > PosColumn
    ensures Classify(row).NotANumber? <==> ParseInt(Strip(row[PosColumn])).None?
    ensures Classify(row).OutOfRange? <==>
              ParseInt(Strip(row[PosColumn])).Some? && !InRange(ParseInt(Strip(row[PosColumn])).value)
  {
  }

  /**
   * A Python dict from position to count: `order` lists the keys in insertion
   * order, `counts` holds the values.
   */
  datatype PositionCounts = PositionCounts(order: seq<int>, counts: map<int, nat>) {
    ghost predicate Valid() {
      && (forall i, j :: 0 <= i < j < |order| ==> order[i] != order[j])
      && (forall p :: p in counts <==> p in order)
    }
  }

  /** The count stored for `p`, 0 when `p` is not a key. */
  function CountOf(t: PositionCounts, p: int): nat {
    if p in t.counts then t.counts[p] else 0
  }

  /** The number of rows counted at position `p`. */
  function Occurrences(rows: seq<Row>, p: int): (n: nat)
    ensures n <= |rows|
  {
    if rows == [] then 0
    else Occurrences(rows[..|rows| - 1], p) + (if Classify(rows[|rows| - 1]) == Counted(p) then 1 else 0)
  }

  /** The index of the first row counted at `p`; `|rows|` when there is none. */
  function FirstIndex(rows: seq<Row>, p: int): (i: nat)
    ensures i <= |rows|
    ensures Occurrences(rows, p) > 0 <==> i < |rows|
  {
    if rows == [] then 0
    else
      var n := |rows| - 1;
      if Occurrences(rows[..n], p) > 0 then FirstIndex(rows[..n], p)
      else if Classify(rows[n]) == Counted(p) then n
      else |rows|
  }

  /** No occurrence means no row counted at `p`, and conversely. */
  lemma {:induction false} OccurrencesZero(rows: seq<Row>, p: int)
    ensures Occurrences(rows, p) == 0 <==> forall j :: 0 <= j < |rows| ==> Classify(rows[j]) != Counted(p)
  {
    if rows != [] {
      var init := rows[..|rows| - 1];
      OccurrencesZero(init, p);
      assert forall j :: 0 <= j < |init| ==> init[j] == rows[j];
    }
  }

  /** `FirstIndex` is the index of the first row counted at `p`. */
  lemma {:induction false} FirstIndexIsFirst(rows: seq<Row>, p: int)
    ensures FirstIndex(rows, p) < |rows| ==> Classify(rows[FirstIndex(rows, p)]) == Counted(p)
    ensures forall j :: 0 <= j < FirstIndex(rows, p) && j < |rows| ==> Classify(rows[j]) != Counted(p)
  {
    if rows != [] {
      var n := |rows| - 1;
      var init := rows[..n];
      FirstIndexIsFirst(init, p);
      var f := FirstIndex(rows, p);
      if Occurrences(init, p) > 0 {
        assert f == FirstIndex(init, p) < n;
        assert rows[f] == init[f];
        forall j | 0 <= j < f ensures Classify(rows[j]) != Counted(p) {
          assert rows[j] == init[j];
        }
      } else {
        OccurrencesZero(init, p);
        forall j | 0 <= j < f && j < n ensures Classify(rows[j]) != Counted(p) {
          assert rows[j] == init[j];
        }
      }
    }
  }

  /**
   * What the result of the loop is for `rows`: a well-formed dict whose keys
   * are positions 1..11, each holding the number of rows counted there, listed
   * in the order in which each was first counted.
   */
  ghost predicate Describes(rows: seq<Row>, t: PositionCounts) {
    && t.Valid()
    && (forall p :: p in t.counts ==> InRange(p) && t.counts[p] >= 1)
    && (forall p :: CountOf(t, p) == Occurrences(rows, p))
    && FirstSeenOrder(rows, t.order)
  }

  /** The keys are listed by the index of the row that first counted them. */
  ghost predicate FirstSeenOrder(rows: seq<Row>, order: seq<int>) {
    forall a, b :: 0 <= a < b < |order| ==> FirstIndex(rows, order[a]) < FirstIndex(rows, order[b])
  }

  /** Two key lists holding the same keys, both in first-seen order, are the same list. */
  lemma {:induction false} FirstSeenOrderUnique(rows: seq<Row>, a: seq<int>, b: seq<int>)
    requires FirstSeenOrder(rows, a) && FirstSeenOrder(rows, b)
    requires forall q :: q in a <==> q in b
    ensures a == b
  {
    if a != [] {
      FirstSeenHead(rows, a, b);
      FirstSeenTail(rows, a);
      FirstSeenTail(rows, b);
      forall q ensures q in a[1..] <==> q in b[1..] {
        assert q in a <==> q in b;
      }
      FirstSeenOrderUnique(rows, a[1..], b[1..]);
    } else if b != [] {
      FirstSeenHead(rows, b, a);
    }
  }

  /** The list after its first key is in first-seen order too, and no longer holds that key. */
  lemma FirstSeenTail(rows: seq<Row>, a: seq<int>)
    requires FirstSeenOrder(rows, a) && a != []
    ensures FirstSeenOrder(rows, a[1..])
    ensures a == [a[0]] + a[1..] && a[0] !in a[1..]
    ensures forall q :: q in a[1..] ==> FirstIndex(rows, a[0]) < FirstIndex(rows, q)
  {
    forall x, y | 0 <= x < y < |a| - 1 ensures FirstIndex(rows, a[1..][x]) < FirstIndex(rows, a[1..][y]) {
      assert a[1..][x] == a[x + 1] && a[1..][y] == a[y + 1];
    }
    forall q | q in a[1..] ensures FirstIndex(rows, a[0]) < FirstIndex(rows, q) {
      var k :| 0 <= k < |a[1..]| && a[1..][k] == q;
      assert a[k + 1] == q;
    }
  }

  /** Two such lists with the same keys start with the same key: the one counted first. */
  lemma FirstSeenHead(rows: seq<Row>, a: seq<int>, b: seq<int>)
    requires FirstSeenOrder(rows, a) && FirstSeenOrder(rows, b)
    requires forall q :: q in a <==> q in b
    requires a != []
    ensures b != [] && a[0] == b[0]
  {
    assert a[0] in a;
    FirstSeenTail(rows, a);
    FirstSeenTail(rows, b);
    assert a[0] in b;
    assert b[0] in b;
  }

  /**
   * A table has exactly one description: the dict that the loop builds is
   * fixed by the rows, so tallying the same rows twice gives the same dict.
   */
  lemma DescribesUnique(rows: seq<Row>, t1: PositionCounts, t2: PositionCounts)
    requires Describes(rows, t1) && Describes(rows, t2)
    ensures t1 == t2
  {
    forall q ensures q in t1.counts <==> q in t2.counts {
      assert CountOf(t1, q) == CountOf(t2, q);
    }
    assert t1.counts == t2.counts by {
      forall q | q in t1.counts ensures t1.counts[q] == t2.counts[q] {
        assert CountOf(t1, q) == CountOf(t2, q);
      }
    }
    FirstSeenOrderUnique(rows, t1.order, t2.order);
  }

  /** The IndexError raised by `columns[6]`, with the index of the row. */
  datatype TallyError = IndexError(row: nat)

  /** No row of the table is too short, so the loop runs to the end. */
  predicate NoShortRow(rows: seq<Row>) {
    rows == [] || (NoShortRow(rows[..|rows| - 1]) && !Classify(rows[|rows| - 1]).TooShort?)
  }

  /** `NoShortRow` says that no row has cells but fewer than seven. */
  lemma {:induction false} NoShortRowIff(rows: seq<Row>)
    ensures NoShortRow(rows) <==> forall k :: 0 <= k < |rows| ==> !(0 < |rows[k]| <= PosColumn)
  {
    if rows != [] {
      var n := |rows| - 1;
      NoShortRowIff(rows[..n]);
      assert forall k :: 0 <= k < n ==> rows[..n][k] == rows[k];
    }
  }

  lemma NoShortRowPrefix(rows: seq<Row>, i: nat)
    requires i < |rows|
    ensures NoShortRow(rows[..i + 1]) <==> NoShortRow(rows[..i]) && !Classify(rows[i]).TooShort?
  {
    assert rows[..i + 1][..i] == rows[..i];
  }

  /** A table without short rows has no short rows in any prefix. */
  lemma NoShortRowShrink(rows: seq<Row>, j: nat)
    requires j <= |rows|
    ensures NoShortRow(rows) ==> NoShortRow(rows[..j])
  {
    NoShortRowIff(rows);
    NoShortRowIff(rows[..j]);
    assert forall k :: 0 <= k < j ==> rows[..j][k] == rows[k];
  }

  lemma OccurrencesSnoc(rows: seq<Row>, x: Row, p: int)
    ensures Occurrences(rows + [x], p) == Occurrences(rows, p) + (if Classify(x) == Counted(p) then 1 else 0)
    ensures Occurrences(rows, p) > 0 ==> FirstIndex(rows + [x], p) == FirstIndex(rows, p)
    ensures Occurrences(rows, p) == 0 && Classify(x) == Counted(p) ==> FirstIndex(rows + [x], p) == |rows|
  {
    var all := rows + [x];
    assert all[..|all| - 1] == rows;
    assert all[|all| - 1] == x;
  }

  /** A skipped row changes nothing. */
  lemma DescribesSkip(rows: seq<Row>, x: Row, t: PositionCounts)
    requires Describes(rows, t)
    requires !Classify(x).Counted?
    ensures Describes(rows + [x], t)
  {
    forall p ensures Occurrences(rows + [x], p) == Occurrences(rows, p) {
      OccurrencesSnoc(rows, x, p);
    }
    forall a, b | 0 <= a < b < |t.order|
      ensures FirstIndex(rows + [x], t.order[a]) < FirstIndex(rows + [x], t.order[b])
    {
      assert t.order[a] in t.order && t.order[b] in t.order;
      OccurrencesSnoc(rows, x, t.order[a]);
      OccurrencesSnoc(rows, x, t.order[b]);
    }
  }

  /** The dict after `position_counts[p] += 1` on a `defaultdict(int)`. */
  function Bumped(t: PositionCounts, p: int): (r: PositionCounts)
    ensures CountOf(r, p) == CountOf(t, p) + 1
    ensures forall q :: q != p ==> CountOf(r, q) == CountOf(t, q)
    ensures t.order <= r.order && |r.order| <= |t.order| + 1
    ensures r.counts.Keys == t.counts.Keys + {p}
  {
    PositionCounts(if p in t.counts then t.order else t.order + [p], t.counts[p := CountOf(t, p) + 1])
  }

  /** Bumping keeps the dict well formed. */
  lemma BumpedValid(t: PositionCounts, p: int)
    requires t.Valid()
    ensures Bumped(t, p).Valid()
  {
    var t' := Bumped(t, p);
    if p !in t.counts {
      assert p !in t.order;
      forall q ensures q in t'.counts <==> q in t'.order {
        assert q in t.order + [p] <==> q in t.order || q == p;
      }
    }
  }

  /** Bumping at the position of a counted row keeps every count equal to the occurrences. */
  lemma BumpedCounts(rows: seq<Row>, x: Row, t: PositionCounts, p: int)
    requires forall q :: CountOf(t, q) == Occurrences(rows, q)
    requires Classify(x) == Counted(p)
    ensures forall q :: CountOf(Bumped(t, p), q) == Occurrences(rows + [x], q)
  {
    forall q ensures CountOf(Bumped(t, p), q) == Occurrences(rows + [x], q) {
      OccurrencesSnoc(rows, x, q);
    }
  }

  /** A key appended by bumping is first seen at the new row, after every existing key. */
  lemma BumpedOrder(rows: seq<Row>, x: Row, t: PositionCounts, p: int)
    requires Describes(rows, t)
    requires Classify(x) == Counted(p)
    ensures forall a, b :: 0 <= a < b < |Bumped(t, p).order| ==>
              FirstIndex(rows + [x], Bumped(t, p).order[a]) < FirstIndex(rows + [x], Bumped(t, p).order[b])
  {
    var order' := Bumped(t, p).order;
    forall a, b | 0 <= a < b < |order'|
      ensures FirstIndex(rows + [x], order'[a]) < FirstIndex(rows + [x], order'[b])
    {
      var qa, qb := order'[a], order'[b];
      assert qa == t.order[a] && qa in t.order;
      assert Occurrences(rows, qa) > 0;
      OccurrencesSnoc(rows, x, qa);
      OccurrencesSnoc(rows, x, qb);
      if b < |t.order| {
        assert qb == t.order[b] && qb in t.order;
      } else {
        assert qb == p && p !in t.counts;
      }
    }
  }

  /** A row counted at `p` adds one to `p`, appending `p` as a new key the first time. */
  lemma DescribesCount(rows: seq<Row>, x: Row, t: PositionCounts, p: int)
    requires Describes(rows, t)
    requires Classify(x) == Counted(p)
    ensures Describes(rows + [x], Bumped(t, p))
  {
    BumpedValid(t, p);
    BumpedCounts(rows, x, t, p);
    BumpedOrder(rows, x, t, p);
  }

  /**
   * The dict the loop has built after `rows`, when none of them raised: a
   * fold of `Bumped` over the counted rows.
   */
  function Tally(rows: seq<Row>): (t: PositionCounts)
    ensures |t.order| <= |rows|
  {
    if rows == [] then PositionCounts([], map[])
    else
      var t := Tally(rows[..|rows| - 1]);
      match Classify(rows[|rows| - 1])
      case Counted(p) => Bumped(t, p)
      case _ => t
  }

  /** The fold gives the dict of counts in first-seen order. */
  lemma {:induction false} TallyDescribes(rows: seq<Row>)
    ensures Describes(rows, Tally(rows))
  {
    if rows == [] {
      assert forall p :: Occurrences(rows, p) == 0;
    } else {
      var n := |rows| - 1;
      var init := rows[..n];
      TallyDescribes(init);
      assert rows == init + [rows[n]];
      match Classify(rows[n])
      case Counted(p) => DescribesCount(init, rows[n], Tally(init), p);
      case _ => DescribesSkip(init, rows[n], Tally(init));
    }
  }

  lemma TallyPrefix(rows: seq<Row>, i: nat)
    requires i < |rows|
    ensures Classify(rows[i]).Counted? ==> Tally(rows[..i + 1]) == Bumped(Tally(rows[..i]), Classify(rows[i]).pos)
    ensures !Classify(rows[i]).Counted? ==> Tally(rows[..i + 1]) == Tally(rows[..i])
  {
    assert rows[..i + 1][..i] == rows[..i];
  }

  /**
   * The `try` block for a row that has a 'Pos' cell: parse the stripped
   * cell, and when it is a position add one to it. `order` and `counts`
   * together are the dict `position_counts`.
   */
  method CountRow(order: seq<int>, counts: map<int, nat>, columns: Row) returns (order': seq<int>, counts': map<int, nat>)
    requires |columns| > PosColumn
    ensures Classify(columns).Counted? ==> PositionCounts(order', counts') == Bumped(PositionCounts(order, counts), Classify(columns).pos)
    ensures !Classify(columns).Counted? ==> order' == order && counts' == counts
  {
    order', counts' := order, counts;
    var parsed := ParseInt(Strip(columns[PosColumn]));
    if parsed.Some? && 1 <= parsed.value <= 11 {
      var position := parsed.value;
      // `position_counts[position] += 1` on a defaultdict: a missing key
      // reads as 0 and is added at the end of the key order.
      var current := if position in counts then counts[position] else 0;
      if position !in counts {
        order' := order + [position];
      }
      counts' := counts[position := current + 1];
    }
  }

  /**
   * The loop of `fetch_position_stats` over the rows of the innings table: a
   * row with no cells is skipped, a row with cells but fewer than seven raises
   * IndexError (which `except ValueError` does not catch), a 'Pos' cell that is
   * not a number or not in 1..11 is skipped, and every other row adds one to
   * its position.
   */
  method TallyPositions(rows: seq<Row>) returns (r: Result<PositionCounts, TallyError>)
    ensures r.Failure? <==> !NoShortRow(rows)
    ensures r.Failure? ==> r.error.row < |rows| && 0 < |rows[r.error.row]| <= PosColumn
                           && NoShortRow(rows[..r.error.row])
    ensures r.Success? ==> r.value == Tally(rows)
  {
    var order: seq<int> := [];
    var counts: map<int, nat> := map[];
    var i := 0;
    while i < |rows|
      invariant 0 <= i <= |rows|
      invariant NoShortRow(rows[..i])
      invariant PositionCounts(order, counts) == Tally(rows[..i])
    {
      var columns := rows[i];
      NoShortRowPrefix(rows, i);
      TallyPrefix(rows, i);
      if |columns| > 0 {
        if |columns| <= PosColumn {
          NoShortRowShrink(rows, i + 1);
          return Failure(IndexError(i));
        }
        order, counts := CountRow(order, counts, columns);
      }
      i := i + 1;
    }
    assert rows[..i] == rows;
    return Success(PositionCounts(order, counts));
  }
}
