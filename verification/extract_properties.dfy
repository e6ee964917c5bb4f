/** What `tableToJson` guarantees: one record per data row, keys drawn from the
    headings, no field ever overwritten, row spans copied downward and cut off at
    the end of the table, cells consumed once from the left, and on a table
    without spans the plain row-by-row reading. */
module ExtractProperties {
  import opened PyStr
  import opened TableModel

  /** Every key of every record is a heading. */
  ghost predicate KeysWithin(items: seq<Record>, hs: seq<string>) {
    forall k, key :: 0 <= k < |items| && key in items[k] ==> key in hs
  }

  /** From row `ind` downward the key sets never grow: whatever a span has filled
      below `ind` it has filled in every row between `ind` and there. */
  ghost predicate TailClosed(items: seq<Record>, ind: nat) {
    forall j, k :: ind <= j <= k < |items| ==> items[k].Keys <= items[j].Keys
  }

  /** `b` keeps every field of `a` with its value (it may add fields). */
  ghost predicate Extends(a: seq<Record>, b: seq<Record>) {
    |a| == |b| && forall k, key :: 0 <= k < |a| && key in a[k] ==> key in b[k] && b[k][key] == a[k][key]
  }

  /** Every field `b` has and `a` lacks is one of the headings `hs`. */
  ghost predicate AddsOnly(a: seq<Record>, b: seq<Record>, hs: seq<string>) {
    |a| == |b| && forall k, key :: 0 <= k < |a| && key in b[k] && key !in a[k] ==> key in hs
  }

  /** Every value has no leading or trailing whitespace. */
  ghost predicate ValuesStripped(items: seq<Record>) {
    forall k, key :: 0 <= k < |items| && key in items[k] ==> IsStripped(items[k][key])
  }

  /** `rest` is what is left of `cols` after popping some cells from the left. */
  ghost predicate PoppedFrom(rest: seq<Cell>, cols: seq<Cell>) {
    |rest| <= |cols| && rest == cols[|cols| - |rest|..]
  }

  /** Visiting an unfilled heading while cells remain pops exactly the first cell and
      spreads its value over the rows it spans (`Spread` cuts the span off at the end
      of the table); every record the span can reach lacks the heading beforehand, so
      the write never overwrites a field. */
  lemma StepSpreadsFreshly(f: Fill, ind: nat, h: string)
    requires ind < |f.items| && TailClosed(f.items, ind)
    requires h !in f.items[ind] && f.cols != []
    ensures Step(f, ind, h) == Fill(Spread(f.items, ind, h, CellValue(f.cols[0]), Span(f.cols[0])), f.cols[1..])
    ensures forall k :: ind <= k < |f.items| ==> h !in f.items[k]
  {
    forall k | ind <= k < |f.items|
      ensures h !in f.items[k]
    {
      assert f.items[k].Keys <= f.items[ind].Keys;
    }
  }

  /** A heading the record already holds is skipped: no cell is consumed. */
  lemma StepSkipsFilled(f: Fill, ind: nat, h: string)
    requires ind < |f.items| && h in f.items[ind]
    ensures Step(f, ind, h) == f
  {
  }

  /** What a fresh write of `h := v` over a span keeps: earlier fields, the tail
      closure and the rows above `ind`; it adds only `h`, and only a stripped value
      when `v` is stripped. */
  lemma SpreadInvariants(items: seq<Record>, ind: nat, h: string, v: string, span: int)
    requires ind < |items| && TailClosed(items, ind)
    requires forall k :: ind <= k < |items| ==> h !in items[k]
    ensures var r := Spread(items, ind, h, v, span);
      && Extends(items, r)
      && AddsOnly(items, r, [h])
      && TailClosed(r, ind)
      && (forall k :: 0 <= k < ind ==> r[k] == items[k])
      && (ValuesStripped(items) && IsStripped(v) ==> ValuesStripped(r))
  {
    var r := Spread(items, ind, h, v, span);
    forall j, k | ind <= j <= k < |r|
      ensures r[k].Keys <= r[j].Keys
    {
      assert items[k].Keys <= items[j].Keys;
    }
  }

  /** What one visit keeps: earlier fields, the tail closure, earlier rows; it pops at
      most one cell, writes only `h`, and writes only stripped values. */
  lemma StepInvariants(f: Fill, ind: nat, h: string)
    requires ind < |f.items| && TailClosed(f.items, ind)
    ensures var r := Step(f, ind, h);
      && Extends(f.items, r.items)
      && AddsOnly(f.items, r.items, [h])
      && TailClosed(r.items, ind)
      && PoppedFrom(r.cols, f.cols) && |f.cols| - |r.cols| <= 1
      && (forall k :: 0 <= k < ind ==> r.items[k] == f.items[k])
      && (ValuesStripped(f.items) ==> ValuesStripped(r.items))
  {
    if h !in f.items[ind] && f.cols != [] {
      StepSpreadsFreshly(f, ind, h);
      var c := f.cols[0];
      SpreadInvariants(f.items, ind, h, CellValue(c), Span(c));
    }
  }

  /** The visits of all headings of one data row: fields already present stay, only
      headings are added, the closure is kept, rows above are untouched, cells are
      popped from the left and at most one per heading. */
  lemma {:induction false} FillRowInvariants(f: Fill, ind: nat, hs: seq<string>)
    requires ind < |f.items| && TailClosed(f.items, ind)
    ensures var r := FillRow(f, ind, hs);
      && Extends(f.items, r.items)
      && AddsOnly(f.items, r.items, hs)
      && TailClosed(r.items, ind)
      && PoppedFrom(r.cols, f.cols) && |f.cols| - |r.cols| <= |hs|
      && (forall k :: 0 <= k < ind ==> r.items[k] == f.items[k])
      && (ValuesStripped(f.items) ==> ValuesStripped(r.items))
    decreases |hs|
  {
    if hs != [] {
      var g := Step(f, ind, hs[0]);
      StepInvariants(f, ind, hs[0]);
      FillRowInvariants(g, ind, hs[1..]);
      var r := FillRow(g, ind, hs[1..]);
      assert r == FillRow(f, ind, hs);
      forall k, key | 0 <= k < |f.items| && key in r.items[k] && key !in f.items[k]
        ensures key in hs
      {
        if key in g.items[k] {
          assert key in [hs[0]];
        } else {
          assert key in hs[1..];
        }
      }
    }
  }

  /** When every cell spans at least one row, a heading left unfilled on a row means
      the row ran out of cells: while cells remain, no heading of the row is left
      empty. */
  lemma {:induction false} UnfilledMeansNoCellsLeft(f: Fill, ind: nat, hs: seq<string>)
    requires ind < |f.items| && TailClosed(f.items, ind)
    requires forall i :: 0 <= i < |f.cols| ==> Span(f.cols[i]) >= 1
    ensures forall h :: h in hs && h !in FillRow(f, ind, hs).items[ind] ==> FillRow(f, ind, hs).cols == []
    decreases |hs|
  {
    if hs != [] {
      var g := Step(f, ind, hs[0]);
      StepInvariants(f, ind, hs[0]);
      FillRowInvariants(g, ind, hs[1..]);
      UnfilledMeansNoCellsLeft(g, ind, hs[1..]);
      var r := FillRow(g, ind, hs[1..]);
      if hs[0] !in r.items[ind] {
        // hs[0] is not filled by the first visit either, so no cell was left then
        assert hs[0] !in g.items[ind];
        assert f.cols == [];
        assert r.cols == [];
      }
    }
  }

  /** Once set, a field keeps its value through all the remaining rows: the final
      records extend every intermediate state of the extraction, and they add only
      headings and only stripped values. */
  lemma {:induction false} FillFromKeepsFields(items: seq<Record>, hs: seq<string>, rows: seq<Row>, ind: nat)
    requires |items| == |rows| && ind <= |rows| && TailClosed(items, ind)
    ensures Extends(items, FillFrom(items, hs, rows, ind))
    ensures AddsOnly(items, FillFrom(items, hs, rows, ind), hs)
    ensures ValuesStripped(items) ==> ValuesStripped(FillFrom(items, hs, rows, ind))
    decreases |rows| - ind
  {
    if ind < |rows| {
      var next := FillRow(Fill(items, rows[ind].cells), ind, hs).items;
      FillRowInvariants(Fill(items, rows[ind].cells), ind, hs);
      FillFromKeepsFields(next, hs, rows, ind + 1);
    }
  }

  /** A table needs its header row; otherwise there is one record per data row. */
  lemma ExtractRecordCount(table: seq<Row>)
    ensures Extract(table).Failure? <==> table == []
    ensures Extract(table).Success? ==> |Extract(table).value| == |table| - 1
  {
  }

  /** Every key of every record is one of the header row's strings. */
  lemma ExtractKeysAreHeadings(table: seq<Row>)
    requires table != []
    ensures KeysWithin(Extract(table).value, table[0].strings)
  {
    var body := table[1..];
    FillFromKeepsFields(EmptyRecords(|body|), table[0].strings, body, 0);
  }

  /** Every value in the output is stripped, so testing it against `''` is the same
      as testing whether it is blank. */
  lemma ExtractValuesStripped(table: seq<Row>)
    requires table != []
    ensures ValuesStripped(Extract(table).value)
  {
    var body := table[1..];
    FillFromKeepsFields(EmptyRecords(|body|), table[0].strings, body, 0);
  }

  // ---------------------------------------------------------------------------
  // Tables without spans: the row-by-row reading

  ghost predicate Distinct(hs: seq<string>) {
    forall i, j :: 0 <= i < j < |hs| ==> hs[i] != hs[j]
  }

  ghost predicate SingleRowSpans(cells: seq<Cell>) {
    forall i :: 0 <= i < |cells| ==> Span(cells[i]) == 1
  }

  /** The record a row yields on its own: the i-th heading paired with the i-th
      cell, as far as both go. */
  function RowRecord(hs: seq<string>, cells: seq<Cell>): (r: Record)
    ensures forall key :: key in r ==> key in hs
  {
    if hs == [] || cells == [] then map[]
    else RowRecord(hs[1..], cells[1..])[hs[0] := CellValue(cells[0])]
  }

  /** With distinct headings, a row's record holds exactly the first
      min(|hs|, |cells|) headings, the i-th mapped to the i-th cell's text. */
  lemma {:induction false} RowRecordFields(hs: seq<string>, cells: seq<Cell>)
    requires Distinct(hs)
    ensures forall key :: key in RowRecord(hs, cells) <==>
      exists i :: 0 <= i < |hs| && i < |cells| && hs[i] == key
    ensures forall i :: 0 <= i < |hs| && i < |cells| ==> RowRecord(hs, cells)[hs[i]] == CellValue(cells[i])
  {
    if hs != [] && cells != [] {
      RowRecordFields(hs[1..], cells[1..]);
      var r := RowRecord(hs, cells);
      forall key | key in r
        ensures exists i :: 0 <= i < |hs| && i < |cells| && hs[i] == key
      {
        if key != hs[0] {
          assert key in RowRecord(hs[1..], cells[1..]);
          var i :| 0 <= i < |hs| - 1 && i < |cells| - 1 && hs[1..][i] == key;
          assert hs[i + 1] == key;
        }
      }
      forall i | 0 <= i < |hs| && i < |cells|
        ensures hs[i] in r && r[hs[i]] == CellValue(cells[i])
      {
        if i > 0 {
          assert hs[1..][i - 1] == hs[i];
        }
      }
    }
  }

  /** Visiting the headings with no cells left changes nothing. */
  lemma {:induction false} FillRowWithoutCells(f: Fill, ind: nat, hs: seq<string>)
    requires ind < |f.items| && f.cols == []
    ensures FillRow(f, ind, hs) == f
    decreases |hs|
  {
    if hs != [] {
      FillRowWithoutCells(Step(f, ind, hs[0]), ind, hs[1..]);
    }
  }

  /** On a row whose cells span one row each and whose distinct headings are all
      unfilled, the visits add exactly the row's own record and touch no other row. */
  lemma {:induction false} FillRowWithoutSpans(f: Fill, ind: nat, hs: seq<string>)
    requires ind < |f.items| && Distinct(hs) && SingleRowSpans(f.cols)
    requires forall h :: h in hs ==> h !in f.items[ind]
    ensures FillRow(f, ind, hs).items == f.items[ind := f.items[ind] + RowRecord(hs, f.cols)]
    decreases |hs|
  {
    if hs == [] {
      assert f.items[ind] + RowRecord(hs, f.cols) == f.items[ind];
    } else if f.cols == [] {
      FillRowWithoutCells(f, ind, hs);
      assert f.items[ind] + RowRecord(hs, f.cols) == f.items[ind];
    } else {
      var h, v := hs[0], CellValue(f.cols[0]);
      var g := Step(f, ind, h);
      assert Span(f.cols[0]) == 1;
      assert g == Fill(Spread(f.items, ind, h, v, 1), f.cols[1..]);
      SpreadOneRow(f.items, ind, h, v);
      assert forall i :: 0 <= i < |hs| - 1 ==> hs[1..][i] == hs[i + 1];
      FillRowWithoutSpans(g, ind, hs[1..]);
      var rest := RowRecord(hs[1..], f.cols[1..]);
      assert h !in rest;
      assert f.items[ind][h := v] + rest == f.items[ind] + rest[h := v];
    }
  }

  /** A span of one row writes the current record only. */
  lemma SpreadOneRow(items: seq<Record>, ind: nat, h: string, v: string)
    requires ind < |items|
    ensures Spread(items, ind, h, v, 1) == items[ind := items[ind][h := v]]
  {
  }

  lemma {:induction false} FillFromWithoutSpans(items: seq<Record>, hs: seq<string>, rows: seq<Row>, ind: nat)
    requires |items| == |rows| && ind <= |rows| && Distinct(hs)
    requires forall k :: 0 <= k < |rows| ==> SingleRowSpans(rows[k].cells)
    requires forall k :: ind <= k < |rows| ==> items[k] == map[]
    ensures forall k :: 0 <= k < |rows| ==>
      FillFrom(items, hs, rows, ind)[k] == if k < ind then items[k] else RowRecord(hs, rows[k].cells)
    decreases |rows| - ind
  {
    if ind < |rows| {
      var row := RowRecord(hs, rows[ind].cells);
      FillRowWithoutSpans(Fill(items, rows[ind].cells), ind, hs);
      var next := FillRow(Fill(items, rows[ind].cells), ind, hs).items;
      assert map[] + row == row;
      assert next == items[ind := row];
      FillFromWithoutSpans(next, hs, rows, ind + 1);
    }
  }

  /** A table with distinct headings and no spans reads row by row: record k holds
      the i-th heading mapped to the i-th cell of data row k, for every i that both
      have, and nothing else; a full row yields exactly the headings as keys. */
  lemma ExtractWithoutSpans(table: seq<Row>)
    requires table != [] && Distinct(table[0].strings)
    requires forall k :: 1 <= k < |table| ==> SingleRowSpans(table[k].cells)
    ensures Extract(table).Success? && |Extract(table).value| == |table| - 1
    ensures forall k :: 0 <= k < |table| - 1 ==> Extract(table).value[k] == RowRecord(table[0].strings, table[k + 1].cells)
  {
    var body := table[1..];
    assert forall k :: 0 <= k < |body| ==> body[k] == table[k + 1];
    FillFromWithoutSpans(EmptyRecords(|body|), table[0].strings, body, 0);
  }

  // ---------------------------------------------------------------------------
  // A spanning cell, worked through

  /** A cell holding one stripped word has that word as its value. */
  lemma OneWordCellValue(w: string, rowspan: Option<int>)
    requires w != [] && IsStripped(w)
    ensures CellValue(Cell([w], rowspan)) == w
  {
    assert Join([w], " ") == w;
    StripFixedPoints(w);
  }

  // A first-column cell spanning three rows, then a span of five on the last row.
  const YearTeam: seq<string> := ["Year", "Team"]
  const SpanRows: seq<Row> := [
    Row([], [Cell(["2001"], Some(3)), Cell(["Ajax"], None)]),
    Row([], [Cell(["Milan"], None)]),
    Row([], [Cell(["Porto"], None), Cell(["x"], None)]),
    Row([], [Cell(["2004"], Some(5)), Cell(["Inter"], None)])]
  const Y2001: Record := map["Year" := "2001"]
  const Y2004: Record := map["Year" := "2004"]
  const Ajax2001: Record := map["Year" := "2001", "Team" := "Ajax"]
  const Milan2001: Record := map["Year" := "2001", "Team" := "Milan"]
  const Porto2001: Record := map["Year" := "2001", "Team" := "Porto"]
  const Inter2004: Record := map["Year" := "2004", "Team" := "Inter"]
  const AfterRow0: seq<Record> := [Ajax2001, Y2001, Y2001, map[]]
  const AfterRow1: seq<Record> := [Ajax2001, Milan2001, Y2001, map[]]
  const AfterRow2: seq<Record> := [Ajax2001, Milan2001, Porto2001, map[]]
  const AfterRow3: seq<Record> := [Ajax2001, Milan2001, Porto2001, Inter2004]

  lemma SpanRow0()
    ensures FillRow(Fill(EmptyRecords(4), SpanRows[0].cells), 0, YearTeam).items == AfterRow0
  {
    var e: Record := map[];
    assert EmptyRecords(4) == [e, e, e, e];
    OneWordCellValue("2001", Some(3));
    OneWordCellValue("Ajax", None);
    var f1 := Step(Fill(EmptyRecords(4), SpanRows[0].cells), 0, "Year");
    assert f1 == Fill([Y2001, Y2001, Y2001, e], SpanRows[0].cells[1..]);
    assert Step(f1, 0, "Team") == Fill(AfterRow0, []);
  }

  lemma SpanRow1()
    ensures FillRow(Fill(AfterRow0, SpanRows[1].cells), 1, YearTeam).items == AfterRow1
  {
    OneWordCellValue("Milan", None);
    var f1 := Step(Fill(AfterRow0, SpanRows[1].cells), 1, "Year");
    assert f1 == Fill(AfterRow0, SpanRows[1].cells);
    assert Step(f1, 1, "Team") == Fill(AfterRow1, []);
  }

  lemma SpanRow2()
    ensures FillRow(Fill(AfterRow1, SpanRows[2].cells), 2, YearTeam).items == AfterRow2
  {
    OneWordCellValue("Porto", None);
    var f1 := Step(Fill(AfterRow1, SpanRows[2].cells), 2, "Year");
    assert f1 == Fill(AfterRow1, SpanRows[2].cells);
    assert Step(f1, 2, "Team") == Fill(AfterRow2, SpanRows[2].cells[1..]);
  }

  lemma SpanRow3()
    ensures FillRow(Fill(AfterRow2, SpanRows[3].cells), 3, YearTeam).items == AfterRow3
  {
    OneWordCellValue("2004", Some(5));
    OneWordCellValue("Inter", None);
    var f1 := Step(Fill(AfterRow2, SpanRows[3].cells), 3, "Year");
    assert f1 == Fill(AfterRow2[3 := Y2004], SpanRows[3].cells[1..]);
    assert Step(f1, 3, "Team") == Fill(AfterRow3, []);
  }

  /** The three-row span fills "Year" in its own record and the two below it, whose
      own cells then go to "Team" (a surplus cell is ignored); the span of five on
      the last row is cut off at the end of the table without error. */
  lemma SpanningCellExample()
    ensures Extract([Row(YearTeam, [])] + SpanRows) == Success([Ajax2001, Milan2001, Porto2001, Inter2004])
  {
    var table := [Row(YearTeam, [])] + SpanRows;
    assert table[1..] == SpanRows;
    SpanRow0();
    SpanRow1();
    SpanRow2();
    SpanRow3();
    assert FillFrom(AfterRow3, YearTeam, SpanRows, 4) == AfterRow3;
    assert FillFrom(AfterRow2, YearTeam, SpanRows, 3) == AfterRow3;
    assert FillFrom(AfterRow1, YearTeam, SpanRows, 2) == AfterRow3;
    assert FillFrom(AfterRow0, YearTeam, SpanRows, 1) == AfterRow3;
    assert FillFrom(EmptyRecords(4), YearTeam, SpanRows, 0) == AfterRow3;
    assert table != [] && table[0].strings == YearTeam && |table[1..]| == 4;
    assert Extract(table) == Success(AfterRow3);
  }
}
