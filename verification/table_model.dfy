/** The data of `wikitable_to_json.py` once the HTML tree is out of the way, and
    the specification functions of its two table operations: `Extract` for
    `tableToJson` and `CleanAll` for `removeEmptyValues`. */
module TableModel {
  import opened PyStr

  datatype Option<T> = None | Some(value: T)

  datatype Result<T, E> = Success(value: T) | Failure(error: E)

  /** One output object: heading name to cell text. */
  type Record = map<string, string>

  /** A `td` element: its `stripped_strings` and its parsed `rowspan` attribute. */
  datatype Cell = Cell(fragments: seq<string>, rowspan: Option<int>)

  /** A `tr` element: its own `stripped_strings` (read for the header row only)
      and its `td` descendants (read for data rows only). */
  datatype Row = Row(strings: seq<string>, cells: seq<Cell>)

  /** `rows[0]` on a table body without rows raises IndexError. */
  datatype TableError = MissingHeaderRow

  /** The span of a cell: a missing `rowspan` attribute means 1. */
  function Span(c: Cell): (span: int) {
    match c.rowspan
    case None => 1
    case Some(n) => n
  }

  /** The text a cell contributes: its fragments joined by single spaces, stripped. */
  function CellValue(c: Cell): (v: string) {
    Strip(Join(c.fragments, " "))
  }

  function EmptyRecords(n: nat): (r: seq<Record>)
    ensures |r| == n && forall k :: 0 <= k < n ==> r[k] == map[]
  {
    seq(n, _ => map[])
  }

  /** The records after writing `key := v` into the records `ind`, ..., `ind + span - 1`
      that exist; nothing is written when `span <= 0`. */
  function Spread(items: seq<Record>, ind: nat, key: string, v: string, span: int): (r: seq<Record>)
  {
    seq(|items|, k requires 0 <= k < |items| =>
      if ind <= k < ind + span then items[k][key := v] else items[k])
  }

  /** Widening a span by one row writes one more record, if that record exists. */
  lemma SpreadWiden(items: seq<Record>, ind: nat, key: string, v: string, span: nat)
    ensures Spread(items, ind, key, v, span + 1) ==
      if ind + span < |items| then Spread(items, ind, key, v, span)[ind + span := items[ind + span][key := v]]
      else Spread(items, ind, key, v, span)
  {
  }

  /** A span of zero rows or fewer writes nothing. */
  lemma SpreadNone(items: seq<Record>, ind: nat, key: string, v: string, span: int)
    requires span <= 0
    ensures Spread(items, ind, key, v, span) == items
  {
  }

  /** The state of a data row while its headings are being visited: all records
      and the row's cells not consumed yet. */
  datatype Fill = Fill(items: seq<Record>, cols: seq<Cell>)

  /** One visit of `heading` on data row `ind`: skipped when the record already
      holds it or no cell is left; otherwise the next cell is consumed and its
      value spread over the rows it spans. */
  function Step(f: Fill, ind: nat, heading: string): (r: Fill)
    requires ind < |f.items|
    ensures |r.items| == |f.items|
  {
    if heading in f.items[ind] || f.cols == [] then f
    else
      var col := f.cols[0];
      Fill(Spread(f.items, ind, heading, CellValue(col), Span(col)), f.cols[1..])
  }

  /** The visits of the headings `hs`, in order, on data row `ind`. */
  function FillRow(f: Fill, ind: nat, hs: seq<string>): (r: Fill)
    requires ind < |f.items|
    ensures |r.items| == |f.items|
    decreases |hs|
  {
    if hs == [] then f else FillRow(Step(f, ind, hs[0]), ind, hs[1..])
  }

  /** The records once data rows `ind`, ..., `|rows| - 1` have been processed in
      order under the headings `hs`. */
  function FillFrom(items: seq<Record>, hs: seq<string>, rows: seq<Row>, ind: nat): (r: seq<Record>)
    requires |items| == |rows| && ind <= |rows|
    ensures |r| == |rows|
    decreases |rows| - ind
  {
    if ind == |rows| then items
    else FillFrom(FillRow(Fill(items, rows[ind].cells), ind, hs).items, hs, rows, ind + 1)
  }

  /** `tableToJson`: the header row gives the headings, every later row one record. */
  function Extract(table: seq<Row>): (r: Result<seq<Record>, TableError>)
  {
    if table == [] then Failure(MissingHeaderRow)
    else
      var body := table[1..];
      Success(FillFrom(EmptyRecords(|body|), table[0].strings, body, 0))
  }

  /** One record after `removeEmptyValues`: the keys mapped to exactly `''` are gone. */
  function Clean(item: Record): (r: Record) {
    map key | key in item && item[key] != "" :: item[key]
  }

  /** `removeEmptyValues` on the whole list. */
  function CleanAll(items: seq<Record>): (r: seq<Record>)
    ensures |r| == |items|
    ensures forall k :: 0 <= k < |items| ==> r[k] == Clean(items[k])
  {
    seq(|items|, k requires 0 <= k < |items| => Clean(items[k]))
  }
}
