/**
 * The rank step of `clean_data`: sort a category's table by one stat
 * column, ascending or descending, renumber the rows, and add the column
 * `<category> Rank` holding position + 1. pandas promises no order among
 * equal stats, so the specification leaves it open; rows without the stat
 * are placed last.
 */
module Ranking {
  import opened Wrappers
  import opened Tables
  import opened Text
  import opened Sorting

  /** A row of a ranked table together with its `<category> Rank`. */
  datatype Ranked = Ranked(row: Record, rank: nat)

  /** Renumbers the sorted rows: the row at position i is ranked i + 1. */
  function Numbered(rows: Table): (r: seq<Ranked>)
    ensures |r| == |rows|
    ensures forall i :: 0 <= i < |rows| ==> r[i] == Ranked(rows[i], i + 1)
  {
    seq(|rows|, i requires 0 <= i < |rows| => Ranked(rows[i], i + 1))
  }

  /** The rows of a ranked table, without their ranks. */
  function RowsOf(r: seq<Ranked>): (t: Table)
    ensures |t| == |r|
    ensures forall i :: 0 <= i < |r| ==> t[i] == r[i].row
  {
    seq(|r|, i requires 0 <= i < |r| => r[i].row)
  }

  /**
   * `out` ranks the table `t` by `key` under `le`: it holds the rows of `t`,
   * each once, ranked 1..N by position without gap or repeat, and every
   * two rows that both have the stat appear in the order `le`.
   */
  ghost predicate IsRanking<K>(t: Table, out: seq<Ranked>, key: Record -> Option<K>, le: (K, K) -> bool)
  {
    && |out| == |t|
    && multiset(RowsOf(out)) == multiset(t)
    && (forall i :: 0 <= i < |out| ==> out[i].rank == i + 1)
    && (forall i, j :: 0 <= i < j < |out| && key(out[i].row).Some? && key(out[j].row).Some? ==>
          le(key(out[i].row).value, key(out[j].row).value))
  }

  /** Sorts the table by the key (rows without it last) and numbers it. */
  function RankBy<K(!new)>(t: Table, key: Record -> Option<K>, le: (K, K) -> bool): (out: seq<Ranked>)
    requires TotalPreorder(le)
    ensures IsRanking(t, out, key, le)
  {
    ByKeyPreorder(key, le);
    var sorted := SortBy(t, ByKey(key, le));
    SortBySorted(t, ByKey(key, le));
    assert RowsOf(Numbered(sorted)) == sorted;
    Numbered(sorted)
  }

  /** Rows without the stat come after every row that has it (pandas' `na_position='last'`). */
  lemma {:induction false} MissingStatLast<K(!new)>(t: Table, key: Record -> Option<K>, le: (K, K) -> bool, i: nat, j: nat)
    requires TotalPreorder(le)
    requires i < j < |t|
    requires key(RankBy(t, key, le)[i].row).None?
    ensures key(RankBy(t, key, le)[j].row).None?
  {
    ByKeyPreorder(key, le);
    var sorted := SortBy(t, ByKey(key, le));
    SortBySorted(t, ByKey(key, le));
    assert ByKey(key, le)(sorted[i], sorted[j]);
  }

  lemma LexLePreorder()
    ensures TotalPreorder((a: string, b: string) => LexLe(a, b))
  {
    forall a: string, b: string ensures LexLe(a, b) || LexLe(b, a) {
      LexLeTotal(a, b);
    }
    forall a: string, b: string, c: string | LexLe(a, b) && LexLe(b, c) ensures LexLe(a, c) {
      LexLeTransitive(a, b, c);
    }
  }

  /** The ordering of numbers, as a comparison. */
  function NumberOrder(): (real, real) -> bool
  {
    (a: real, b: real) => a <= b
  }

  /** The stat as the table holds it: the cell's text. */
  function StatText(stat: string): Record -> Option<string>
  {
    (row: Record) => Field(row, stat)
  }

  /** The stat as a number; a cell whose text is no decimal number counts as missing. */
  function StatValue(stat: string): Record -> Option<real>
  {
    (row: Record) => if stat in row then DecimalValue(row[stat]) else None
  }

  /**
   * `clean_data` as written: the stat column holds the text of the
   * extractor's cells, so `sort_values` compares strings, character by
   * character.
   */
  function RankByText(t: Table, stat: string, ascending: bool): (out: seq<Ranked>)
    ensures IsRanking(t, out, StatText(stat), Directed(TextOrder(), ascending))
  {
    LexLePreorder();
    DirectedPreorder(TextOrder(), ascending);
    RankBy(t, StatText(stat), Directed(TextOrder(), ascending))
  }

  /** `clean_data` as intended: rows are ordered by the numeric value of the stat. */
  function RankByValue(t: Table, stat: string, ascending: bool): (out: seq<Ranked>)
    ensures IsRanking(t, out, StatValue(stat), Directed(NumberOrder(), ascending))
  {
    DirectedPreorder(NumberOrder(), ascending);
    RankBy(t, StatValue(stat), Directed(NumberOrder(), ascending))
  }

  const PointsColumn: string := "PPG"
  const OpponentPointsColumn: string := "OPPG"

  /** Offense ranking: most points per game first. */
  function OffenseRanking(t: Table): (out: seq<Ranked>)
    ensures |out| == |t| && multiset(RowsOf(out)) == multiset(t)
    ensures forall i :: 0 <= i < |out| ==> out[i].rank == i + 1
    ensures forall i, j ::
      (0 <= i < j < |out| && StatValue(PointsColumn)(out[i].row).Some? && StatValue(PointsColumn)(out[j].row).Some?) ==>
        StatValue(PointsColumn)(out[i].row).value >= StatValue(PointsColumn)(out[j].row).value
  {
    RankByValue(t, PointsColumn, false)
  }

  /** Defense ranking: fewest opponent points per game first. */
  function DefenseRanking(t: Table): (out: seq<Ranked>)
    ensures |out| == |t| && multiset(RowsOf(out)) == multiset(t)
    ensures forall i :: 0 <= i < |out| ==> out[i].rank == i + 1
    ensures forall i, j ::
      (0 <= i < j < |out| && StatValue(OpponentPointsColumn)(out[i].row).Some? && StatValue(OpponentPointsColumn)(out[j].row).Some?) ==>
        StatValue(OpponentPointsColumn)(out[i].row).value <= StatValue(OpponentPointsColumn)(out[j].row).value
  {
    RankByValue(t, OpponentPointsColumn, true)
  }

  /**
   * With the stat compared as text, a team scoring 99.1 points per game is
   * ranked ahead of one scoring 100.5.
   */
  lemma TextRankingMisordersPoints()
    ensures var t := [map[TeamColumn := "A", PointsColumn := "100.5"], map[TeamColumn := "B", PointsColumn := "99.1"]];
      RankByText(t, PointsColumn, false)[0].row[TeamColumn] == "B"
  {
    var a := map[TeamColumn := "A", PointsColumn := "100.5"];
    var b := map[TeamColumn := "B", PointsColumn := "99.1"];
    assert !LexLe("99.1", "100.5");
    assert SortBy([a, b], ByKey(StatText(PointsColumn), Directed(TextOrder(), false))) == [b, a];
  }

  /** Of two teams with a points-per-game value, the one scoring more is ranked first on offense. */
  lemma HigherPointsFirst(a: Record, b: Record)
    requires StatValue(PointsColumn)(a).Some? && StatValue(PointsColumn)(b).Some?
    requires StatValue(PointsColumn)(a).value > StatValue(PointsColumn)(b).value
    ensures OffenseRanking([a, b])[0].row == a
  {
    var out := OffenseRanking([a, b]);
    assert RowsOf(out) == [out[0].row, out[1].row];
    TwoRowsInOrder(out[0].row, out[1].row, a, b, StatValue(PointsColumn));
  }

  /** Two rows holding `a` and `b`, the first with at least the second's value, start with `a` when `a`'s value is larger. */
  lemma TwoRowsInOrder(first: Record, second: Record, a: Record, b: Record, points: Record -> Option<real>)
    requires multiset{first, second} == multiset{a, b}
    requires points(a).Some? && points(b).Some? && points(a).value > points(b).value
    requires points(first).Some? && points(second).Some? ==> points(first).value >= points(second).value
    ensures first == a
  {
    assert first in multiset{a, b} && second in multiset{a, b};
  }

  /** Compared by value, the same table ranks the team scoring 100.5 first. */
  lemma ValueRankingOrdersPoints()
    ensures var t := [map[TeamColumn := "A", PointsColumn := "100.5"], map[TeamColumn := "B", PointsColumn := "99.1"]];
      OffenseRanking(t)[0].row[TeamColumn] == "A"
  {
    HundredPointFive();
    NinetyNinePointOne();
    HigherPointsFirst(map[TeamColumn := "A", PointsColumn := "100.5"], map[TeamColumn := "B", PointsColumn := "99.1"]);
  }

  lemma HundredPointFive()
    ensures DecimalValue("100.5") == Some(100.5)
  {
    assert IndexOfDot("100.5") == 3;
    assert "100.5"[..3] == "100" && "100.5"[4..] == "5";
    assert DigitsValue("100") == 100 by {
      assert "100"[..2] == "10" && "10"[..1] == "1" && "1"[..0] == "";
    }
    assert DigitsValue("5") == 5 by {
      assert "5"[..0] == "";
    }
    assert Pow10(1) == 10;
    assert UnsignedDecimal("100.5") == Some(100.5);
  }

  lemma NinetyNinePointOne()
    ensures DecimalValue("99.1") == Some(99.1)
  {
    assert IndexOfDot("99.1") == 2;
    assert "99.1"[..2] == "99" && "99.1"[3..] == "1";
    assert DigitsValue("99") == 99 by {
      assert "99"[..1] == "9" && "9"[..0] == "";
    }
    assert DigitsValue("1") == 1 by {
      assert "1"[..0] == "";
    }
    assert Pow10(1) == 10;
    assert UnsignedDecimal("99.1") == Some(99.1);
  }
}
