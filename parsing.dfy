/**
 * The record flattener (`parse_resp`): the extractor's pages hold groups,
 * the groups hold rows, and each row maps a column name to a list of cell
 * objects. Every row becomes one flat record holding, per column, the
 * `text` of its first cell and, when that cell is a link, its `src` under
 * `<column>_link`.
 */
module Parsing {
  import opened Wrappers
  import opened Tables

  /** One cell object: its `text` and, for a link, its `src`. Either key may be missing from the JSON. */
  datatype Cell = Cell(text: Option<string>, src: Option<string>)

  /** One `name: [cell, ...]` entry of a row object. */
  datatype Column = Column(name: string, cells: seq<Cell>)

  /** A row object, its entries in the object's key order. */
  type Row = seq<Column>

  /** One element of `data`: an object whose `group` holds the rows. */
  datatype Group = Group(rows: seq<Row>)

  /** One decoded document of the response; `data` is its `result.extractorData.data`. */
  datatype Page = Page(data: seq<Group>)

  /** The exceptions the flattener lets through: an empty cell list (IndexError), a cell without `text` (KeyError). */
  datatype ParseError = NoCell(column: string) | NoText(column: string)

  /** The key under which a column's link is stored. */
  function LinkKey(column: string): (k: string)
    ensures |k| == |column| + 5 && k[..|column|] == column
  {
    column + "_link"
  }

  lemma LinkKeyInjective(a: string, b: string)
    requires LinkKey(a) == LinkKey(b)
    ensures a == b
  {
    assert a == LinkKey(a)[..|a|] && b == LinkKey(b)[..|b|];
  }

  predicate Readable(c: Column)
  {
    |c.cells| > 0 && c.cells[0].text.Some?
  }

  /** Writes one column into the record under construction: the text first, then the link if there is one. */
  function WriteColumn(acc: Record, c: Column): Result<Record, ParseError>
  {
    if |c.cells| == 0 then Failure(NoCell(c.name))
    else match c.cells[0].text
      case None => Failure(NoText(c.name))
      case Some(t) =>
        var withText := acc[c.name := t];
        match c.cells[0].src
        case None => Success(withText)
        case Some(link) => Success(withText[LinkKey(c.name) := link])
  }

  /** The flat record of a row: its columns written one after another, in key order. */
  function FlattenRow(row: Row): Result<Record, ParseError>
    decreases |row|
  {
    if row == [] then Success(map[])
    else match FlattenRow(row[..|row| - 1])
      case Failure(e) => Failure(e)
      case Success(acc) => WriteColumn(acc, row[|row| - 1])
  }

  /** The rows of the groups, group after group. */
  function GroupRows(groups: seq<Group>): seq<Row>
    decreases |groups|
  {
    if groups == [] then [] else GroupRows(groups[..|groups| - 1]) + groups[|groups| - 1].rows
  }

  /** The rows of the pages, page after page: the order in which the flattener visits them. */
  function PageRows(pages: seq<Page>): seq<Row>
    decreases |pages|
  {
    if pages == [] then [] else PageRows(pages[..|pages| - 1]) + GroupRows(pages[|pages| - 1].data)
  }

  /** The records of the rows in order, or the exception of the first row that raises one. */
  function FlattenRows(rows: seq<Row>): Result<seq<Record>, ParseError>
    decreases |rows|
  {
    if rows == [] then Success([])
    else match FlattenRows(rows[..|rows| - 1])
      case Failure(e) => Failure(e)
      case Success(out) =>
        match FlattenRow(rows[|rows| - 1])
        case Failure(e) => Failure(e)
        case Success(rec) => Success(out + [rec])
  }

  // ----- The flattener, as the source runs it -----

  /** Builds the record of one row in place, column by column. */
  method BuildRecord(row: Row) returns (r: Result<Record, ParseError>)
    ensures r == FlattenRow(row)
  {
    var output: Record := map[];
    var i := 0;
    while i < |row|
      invariant 0 <= i <= |row|
      invariant FlattenRow(row[..i]) == Success(output)
    {
      var c := row[i];
      assert row[..i + 1][..i] == row[..i];
      if |c.cells| == 0 {
        FlattenRowFailurePersists(row, i + 1);
        return Failure(NoCell(c.name));
      }
      var first := c.cells[0];
      if first.text.None? {
        FlattenRowFailurePersists(row, i + 1);
        return Failure(NoText(c.name));
      }
      output := output[c.name := first.text.value];
      if first.src.Some? {
        output := output[LinkKey(c.name) := first.src.value];
      }
      i := i + 1;
    }
    assert row[..i] == row;
    r := Success(output);
  }

  /** `parse_resp`: one record per row, visiting pages, then groups, then rows. */
  method ParseResp(pages: seq<Page>) returns (r: Result<seq<Record>, ParseError>)
    ensures r == FlattenRows(PageRows(pages))
  {
    var output: seq<Record> := [];
    var p := 0;
    while p < |pages|
      invariant 0 <= p <= |pages|
      invariant FlattenRows(PageRows(pages[..p])) == Success(output)
    {
      assert pages[..p + 1][..p] == pages[..p];
      var res := FlattenGroups(pages[p].data, PageRows(pages[..p]), output);
      if res.Failure? {
        assert pages == pages[..p + 1] + pages[p + 1..];
        PageRowsAppend(pages[..p + 1], pages[p + 1..]);
        FlattenRowsFailurePersists(PageRows(pages[..p + 1]), PageRows(pages[p + 1..]));
        return res;
      }
      output := res.value;
      p := p + 1;
    }
    assert pages[..p] == pages;
    r := Success(output);
  }

  /** The loop over the groups of one page, continuing the records `output` of the rows `before`. */
  method FlattenGroups(groups: seq<Group>, ghost before: seq<Row>, output: seq<Record>)
    returns (r: Result<seq<Record>, ParseError>)
    requires FlattenRows(before) == Success(output)
    ensures r == FlattenRows(before + GroupRows(groups))
  {
    var out := output;
    var g := 0;
    assert before + GroupRows(groups[..0]) == before;
    while g < |groups|
      invariant 0 <= g <= |groups|
      invariant FlattenRows(before + GroupRows(groups[..g])) == Success(out)
    {
      GroupRowsPrefix(groups, g);
      var res := FlattenGroup(groups[g].rows, before + GroupRows(groups[..g]), out);
      assert before + GroupRows(groups[..g + 1]) == (before + GroupRows(groups[..g])) + groups[g].rows;
      if res.Failure? {
        GroupsFailurePersists(before, groups, g);
        return res;
      }
      out := res.value;
      g := g + 1;
    }
    assert groups[..g] == groups;
    r := Success(out);
  }

  /** The loop over the rows of one group, appending each row's record to `output`. */
  method FlattenGroup(rows: seq<Row>, ghost before: seq<Row>, output: seq<Record>)
    returns (r: Result<seq<Record>, ParseError>)
    requires FlattenRows(before) == Success(output)
    ensures r == FlattenRows(before + rows)
  {
    var out := output;
    var k := 0;
    assert before + rows[..0] == before;
    while k < |rows|
      invariant 0 <= k <= |rows|
      invariant FlattenRows(before + rows[..k]) == Success(out)
    {
      var rec := BuildRecord(rows[k]);
      ghost var now := before + rows[..k + 1];
      assert now[..|now| - 1] == before + rows[..k];
      if rec.Failure? {
        assert before + rows == now + rows[k + 1..];
        FlattenRowsFailurePersists(now, rows[k + 1..]);
        return Failure(rec.error);
      }
      out := out + [rec.value];
      k := k + 1;
    }
    assert rows[..k] == rows;
    r := Success(out);
  }

  // ----- Lemmas the flattener's proof uses -----

  lemma {:induction false} FlattenRowFailurePersists(row: Row, i: nat)
    requires i <= |row| && FlattenRow(row[..i]).Failure?
    ensures FlattenRow(row) == FlattenRow(row[..i])
    decreases |row|
  {
    if i < |row| {
      var init := row[..|row| - 1];
      assert init[..i] == row[..i];
      FlattenRowFailurePersists(init, i);
    } else {
      assert row[..i] == row;
    }
  }

  lemma {:induction false} FlattenRowsFailurePersists(rows: seq<Row>, more: seq<Row>)
    requires FlattenRows(rows).Failure?
    ensures FlattenRows(rows + more) == FlattenRows(rows)
    decreases |more|
  {
    if more == [] {
      assert rows + more == rows;
    } else {
      var init := more[..|more| - 1];
      assert (rows + more)[..|rows + more| - 1] == rows + init;
      FlattenRowsFailurePersists(rows, init);
    }
  }

  lemma {:induction false} GroupRowsAppend(a: seq<Group>, b: seq<Group>)
    ensures GroupRows(a + b) == GroupRows(a) + GroupRows(b)
    decreases |b|
  {
    if b == [] {
      assert a + b == a;
    } else {
      var init := b[..|b| - 1];
      assert (a + b)[..|a + b| - 1] == a + init && (a + b)[|a + b| - 1] == b[|b| - 1];
      GroupRowsAppend(a, init);
      assert GroupRows(a + b) == (GroupRows(a) + GroupRows(init)) + b[|b| - 1].rows;
      assert GroupRows(b) == GroupRows(init) + b[|b| - 1].rows;
    }
  }

  lemma GroupRowsPrefix(groups: seq<Group>, g: nat)
    requires g < |groups|
    ensures GroupRows(groups[..g + 1]) == GroupRows(groups[..g]) + groups[g].rows
  {
    assert groups[..g + 1][..g] == groups[..g];
  }

  /** Once the rows of the first g + 1 groups fail, the later groups change nothing. */
  lemma GroupsFailurePersists(before: seq<Row>, groups: seq<Group>, g: nat)
    requires g < |groups| && FlattenRows(before + GroupRows(groups[..g + 1])).Failure?
    ensures FlattenRows(before + GroupRows(groups)) == FlattenRows(before + GroupRows(groups[..g + 1]))
  {
    assert groups == groups[..g + 1] + groups[g + 1..];
    GroupRowsAppend(groups[..g + 1], groups[g + 1..]);
    assert before + GroupRows(groups) == (before + GroupRows(groups[..g + 1])) + GroupRows(groups[g + 1..]);
    FlattenRowsFailurePersists(before + GroupRows(groups[..g + 1]), GroupRows(groups[g + 1..]));
  }

  lemma {:induction false} PageRowsAppend(a: seq<Page>, b: seq<Page>)
    ensures PageRows(a + b) == PageRows(a) + PageRows(b)
    decreases |b|
  {
    if b == [] {
      assert a + b == a;
    } else {
      var init := b[..|b| - 1];
      assert (a + b)[..|a + b| - 1] == a + init && (a + b)[|a + b| - 1] == b[|b| - 1];
      PageRowsAppend(a, init);
      assert PageRows(a + b) == (PageRows(a) + PageRows(init)) + GroupRows(b[|b| - 1].data);
      assert PageRows(b) == PageRows(init) + GroupRows(b[|b| - 1].data);
    }
  }

  // ----- What the flattener promises -----

  /** A table of records has one record per row, in order, exactly when no row raises; otherwise the first raise is reported. */
  lemma {:induction false} FlattenRowsSpec(rows: seq<Row>)
    ensures FlattenRows(rows).Success? <==> forall i :: 0 <= i < |rows| ==> FlattenRow(rows[i]).Success?
    ensures FlattenRows(rows).Success? ==>
      |FlattenRows(rows).value| == |rows| &&
      forall i :: 0 <= i < |rows| ==> FlattenRows(rows).value[i] == FlattenRow(rows[i]).value
    ensures FlattenRows(rows).Failure? ==>
      exists i :: 0 <= i < |rows| && FlattenRow(rows[i]).Failure? &&
        FlattenRows(rows).error == FlattenRow(rows[i]).error && forall j :: 0 <= j < i ==> FlattenRow(rows[j]).Success?
    decreases |rows|
  {
    if rows != [] {
      var init := rows[..|rows| - 1];
      FlattenRowsSpec(init);
      assert forall i :: 0 <= i < |init| ==> init[i] == rows[i];
    }
  }

  /** The number of rows of all groups of all pages. */
  function RowCount(pages: seq<Page>): nat
  {
    if pages == [] then 0 else GroupSizes(pages[0].data) + RowCount(pages[1..])
  }

  function GroupSizes(groups: seq<Group>): nat
  {
    if groups == [] then 0 else |groups[0].rows| + GroupSizes(groups[1..])
  }

  lemma {:induction false} GroupRowsCount(groups: seq<Group>)
    ensures |GroupRows(groups)| == GroupSizes(groups)
    decreases |groups|
  {
    if groups != [] {
      assert groups == [groups[0]] + groups[1..];
      GroupRowsAppend([groups[0]], groups[1..]);
      assert [groups[0]][..0] == [];
      GroupRowsCount(groups[1..]);
    }
  }

  /** The flattener yields exactly as many records as all groups hold rows together. */
  lemma {:induction false} ParseRespCount(pages: seq<Page>)
    requires FlattenRows(PageRows(pages)).Success?
    ensures |FlattenRows(PageRows(pages)).value| == RowCount(pages)
  {
    FlattenRowsSpec(PageRows(pages));
    PageRowsCount(pages);
  }

  lemma {:induction false} PageRowsCount(pages: seq<Page>)
    ensures |PageRows(pages)| == RowCount(pages)
    decreases |pages|
  {
    if pages != [] {
      assert pages == [pages[0]] + pages[1..];
      PageRowsAppend([pages[0]], pages[1..]);
      assert [pages[0]][..0] == [];
      GroupRowsCount(pages[0].data);
      PageRowsCount(pages[1..]);
    }
  }

  /** A row is flattened without raising exactly when every column has a first cell with a `text`. */
  lemma {:induction false} FlattenRowSucceeds(row: Row)
    ensures FlattenRow(row).Success? <==> forall i :: 0 <= i < |row| ==> Readable(row[i])
    ensures FlattenRow(row).Failure? ==>
      exists i :: 0 <= i < |row| && !Readable(row[i]) && (forall j :: 0 <= j < i ==> Readable(row[j])) &&
        FlattenRow(row).error == (if |row[i].cells| == 0 then NoCell(row[i].name) else NoText(row[i].name))
    decreases |row|
  {
    if row != [] {
      var init := row[..|row| - 1];
      FlattenRowSucceeds(init);
      assert forall i :: 0 <= i < |init| ==> init[i] == row[i];
    }
  }

  /** The names of a row's columns. */
  function Names(row: Row): set<string>
  {
    set c | c in row :: c.name
  }

  /** The link keys a row adds: one per column whose first cell carries a `src`. */
  function Links(row: Row): set<string>
  {
    set c | c in row && |c.cells| > 0 && c.cells[0].src.Some? :: LinkKey(c.name)
  }

  /** A flattened record holds exactly the row's column names and the link keys of its linked columns. */
  lemma {:induction false} FlattenRowKeys(row: Row)
    requires FlattenRow(row).Success?
    ensures FlattenRow(row).value.Keys == Names(row) + Links(row)
    decreases |row|
  {
    if row != [] {
      var init := row[..|row| - 1];
      var last := row[|row| - 1];
      FlattenRowKeys(init);
      assert row == init + [last];
      NamesLinksAppend(init, last);
      WriteColumnKeys(FlattenRow(init).value, last);
    }
  }

  /** Writing a column adds its name, and its link key when its first cell has a `src`. */
  lemma WriteColumnKeys(acc: Record, c: Column)
    requires WriteColumn(acc, c).Success?
    ensures |c.cells| > 0
    ensures WriteColumn(acc, c).value.Keys == acc.Keys + {c.name} + (if c.cells[0].src.Some? then {LinkKey(c.name)} else {})
  {
  }

  lemma NamesLinksAppend(init: Row, last: Column)
    ensures Names(init + [last]) == Names(init) + {last.name}
    ensures Links(init + [last]) ==
      Links(init) + (if |last.cells| > 0 && last.cells[0].src.Some? then {LinkKey(last.name)} else {})
  {
    assert forall c :: c in init + [last] <==> c in init || c == last;
  }

  /**
   * No two columns share a name and no column is named like another's link
   * key; otherwise the later write to a key replaces the earlier one.
   */
  predicate NoClash(row: Row)
  {
    forall i, j :: 0 <= i < |row| && 0 <= j < |row| ==>
      (row[i].name == row[j].name ==> i == j) && row[i].name != LinkKey(row[j].name)
  }

  /** Without clashes, each column's name maps to its first cell's text, and its link key to the cell's `src`. */
  lemma {:induction false} FlattenRowValues(row: Row)
    requires FlattenRow(row).Success? && NoClash(row)
    ensures forall i :: 0 <= i < |row| ==>
      Readable(row[i]) &&
      row[i].name in FlattenRow(row).value &&
      FlattenRow(row).value[row[i].name] == row[i].cells[0].text.value &&
      (LinkKey(row[i].name) in FlattenRow(row).value <==> row[i].cells[0].src.Some?) &&
      (row[i].cells[0].src.Some? ==> FlattenRow(row).value[LinkKey(row[i].name)] == row[i].cells[0].src.value)
    decreases |row|
  {
    if row != [] {
      var n := |row| - 1;
      var init := row[..n];
      var last := row[n];
      var acc := FlattenRow(init).value;
      var r := FlattenRow(row).value;
      assert r == WriteColumn(acc, last).value;
      NoClashInit(row);
      FlattenRowValues(init);
      FlattenRowSucceeds(row);
      FlattenRowKeys(row);
      forall i | 0 <= i < |row|
        ensures row[i].name in r && r[row[i].name] == row[i].cells[0].text.value
        ensures LinkKey(row[i].name) in r <==> row[i].cells[0].src.Some?
        ensures row[i].cells[0].src.Some? ==> r[LinkKey(row[i].name)] == row[i].cells[0].src.value
      {
        assert Readable(row[i]);
        if LinkKey(row[i].name) in r {
          OnlyOwnLink(row, i);
        }
        if i < n {
          assert init[i] == row[i];
          assert row[i].name != last.name && row[i].name != LinkKey(last.name);
          WriteColumnOther(acc, last, row[i].name);
          if row[i].cells[0].src.Some? {
            assert LinkKey(row[i].name) != last.name;
            if LinkKey(row[i].name) == LinkKey(last.name) {
              LinkKeyInjective(row[i].name, last.name);
            }
            WriteColumnOther(acc, last, LinkKey(row[i].name));
          }
        } else {
          WriteColumnOwn(acc, last);
        }
      }
    }
  }

  lemma NoClashInit(row: Row)
    requires NoClash(row) && row != []
    ensures NoClash(row[..|row| - 1])
  {
    var init := row[..|row| - 1];
    forall i, j | 0 <= i < |init| && 0 <= j < |init|
      ensures (init[i].name == init[j].name ==> i == j) && init[i].name != LinkKey(init[j].name)
    {
      assert init[i] == row[i] && init[j] == row[j];
    }
  }

  /** Writing a column stores its text under its name, and its `src`, if any, under its link key. */
  lemma WriteColumnOwn(acc: Record, c: Column)
    requires WriteColumn(acc, c).Success?
    ensures |c.cells| > 0 && c.cells[0].text.Some?
    ensures c.name in WriteColumn(acc, c).value && WriteColumn(acc, c).value[c.name] == c.cells[0].text.value
    ensures c.cells[0].src.Some? ==>
      LinkKey(c.name) in WriteColumn(acc, c).value && WriteColumn(acc, c).value[LinkKey(c.name)] == c.cells[0].src.value
  {
    assert c.name != LinkKey(c.name) by {
      assert |LinkKey(c.name)| == |c.name| + 5;
    }
  }

  /** Writing a column leaves every other key as it was. */
  lemma WriteColumnOther(acc: Record, c: Column, k: string)
    requires WriteColumn(acc, c).Success? && k != c.name && k != LinkKey(c.name)
    ensures k in WriteColumn(acc, c).value <==> k in acc
    ensures k in acc ==> WriteColumn(acc, c).value[k] == acc[k]
  {
  }

  /** Without clashes, a column's link key can only come from that column's own `src`. */
  lemma OnlyOwnLink(row: Row, i: nat)
    requires NoClash(row) && i < |row| && LinkKey(row[i].name) in Names(row) + Links(row)
    ensures |row[i].cells| > 0 && row[i].cells[0].src.Some?
  {
    var k := LinkKey(row[i].name);
    assert k !in Names(row);
    var c :| c in row && |c.cells| > 0 && c.cells[0].src.Some? && LinkKey(c.name) == k;
    var j :| 0 <= j < |row| && row[j] == c;
    LinkKeyInjective(c.name, row[i].name);
    assert j == i;
  }
}
