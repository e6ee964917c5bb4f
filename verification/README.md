# wikitable_to_json: table extraction, modelled in Dafny

`wikitable_to_json.py` fetches a Wikipedia page. It finds a table by the text of
the heading above it and writes the table as a JSON array of flat objects. The
two functions that do the work are modelled here:

- `tableToJson` takes the strings of the first `tr` as the headings. It then
  gives every later row one record. Row by row and heading by heading, an
  unfilled heading takes the row's next unconsumed `td`. The cell's text
  fragments are joined with single spaces and stripped. That value is copied
  into the current record and the records of the next `rowspan - 1` rows,
  stopping at the end of the table.
- `removeEmptyValues` deletes, in place, every key whose value is exactly `''`.

The model also covers the heading-tag test `re.match('h[1-6]|p', name)` that the
driver applies to the element holding the table's title.

Layout:

- `py_str.dfy` (module `PyStr`) holds Python's `str.isspace`, `strip`, `lstrip`,
  `rstrip` and `' '.join`, with lemmas that characterise `strip`.
- `table_model.dfy` (module `TableModel`) holds the data model and the
  specification functions:
  - A `Row` is the `tr`'s `stripped_strings` plus its `td` cells.
  - A `Cell` is its `stripped_strings` plus an already parsed `rowspan`.
  - `Step`, `FillRow` and `FillFrom` are one heading visit, one row and the
    remaining rows.
  - `Extract` is the whole of `tableToJson`.
  - `Clean` and `CleanAll` are `removeEmptyValues`.
- `wikitable_to_json.dfy` (module `WikitableToJson`) holds the script's code in
  its own imperative form:
  - `TableToJson` fills an array of records with nested index loops. It pops
    the header row and the cells, and it is proved equal to `Extract`. Its span
    loop is the method `CopyDown`.
  - `RemoveEmptyValues` collects the empty keys of each record, then deletes
    them from the array in place. It is proved equal to `CleanAll`.
  - `IsHeadingTag` is the heading-tag test.
- `extract_properties.dfy` (module `ExtractProperties`) and
  `cleanup_properties.dfy` (module `CleanupProperties`) hold the properties.

The central invariant is `TailClosed`: from the row being processed downward,
key sets never grow. A span always starts at the row that owns the cell, so
anything a span filled below the current row it also filled in every row in
between, the current row included. The "already filled" check on the current
row is therefore enough to make every span write land on an absent key. This is
why no field is ever overwritten.

`removeEmptyValues` compares each value with `''` exactly (line 40), so a blank
value such as `' '` is kept (`CleanKeepsBlankValue`). On `tableToJson`'s output
this is the same as a blank-after-trimming test, because every extracted value is
already stripped (`CleanAfterExtract`).

A header cell whose text has several fragments (for example, text split by a
`<br>`) yields several headings. The reason is that headings come from the whole
header row's `stripped_strings`, not one per cell. The model keeps this
behaviour as written.

## Model

| member | source | states |
|---|---|---|
| `WikitableToJson.TableToJson` | wikitable_to_json.py:7-34 | The imperative extraction returns exactly `Extract(rows)`. A table without rows is a failure, where the source raises IndexError at `rows[0]`. |
| `WikitableToJson.CopyDown` | wikitable_to_json.py:31-33 | The span loop leaves the array equal to `Spread` of its old contents: rows `ind .. ind+rowspan-1` that exist get the heading set to the value, and every other field and row is unchanged. A span of 0 or less writes nothing. |
| `ExtractProperties.ExtractRecordCount` | wikitable_to_json.py:10-19 | Extraction fails if and only if there is no header row. Otherwise it yields exactly one record per remaining row (`len(rows) - 1`). |
| `ExtractProperties.ExtractKeysAreHeadings` | wikitable_to_json.py:10-33 | Every key of every output record is one of the header row's strings. |
| `ExtractProperties.StepSpreadsFreshly` | wikitable_to_json.py:23-33 | Visiting an unfilled heading while cells remain pops the first cell. Its stripped, joined text goes to rows `ind .. ind+span-1`, cut off at the table's end. None of those records held the heading before, so nothing is overwritten. |
| `ExtractProperties.SpreadInvariants` | wikitable_to_json.py:31-33 | A span write onto absent keys keeps every earlier field and the tail closure. It leaves the rows above untouched, adds only that heading, and adds only stripped values when the value is stripped. |
| `ExtractProperties.StepInvariants` | wikitable_to_json.py:22-33 | One heading visit keeps existing fields, adds only that heading and keeps the tail closure. It leaves earlier rows unchanged, pops at most one cell from the left and writes only stripped values. |
| `ExtractProperties.FillRowInvariants` | wikitable_to_json.py:21-33 | Processing one data row keeps every existing field with its value and adds only headings. It keeps the tail closure and leaves earlier rows unchanged. Its remaining cells are a suffix of the row's cells, and at most one cell is popped per heading. |
| `ExtractProperties.UnfilledMeansNoCellsLeft` | wikitable_to_json.py:24-25 | When every span is at least 1, a heading left absent on a row implies the row ran out of cells, so while cells remain no heading of the row is left empty. |
| `ExtractProperties.FillFromKeepsFields` | wikitable_to_json.py:20-33 | Once a field is set, the final records keep it with the same value. The remaining rows add only headings and only stripped values. |
| `ExtractProperties.ExtractValuesStripped` | wikitable_to_json.py:26 | Every value in the output has no leading or trailing whitespace. |
| `ExtractProperties.RowRecordFields` | wikitable_to_json.py:22-26 | With distinct headings, the row-by-row record holds exactly the first min(headings, cells) headings. The i-th heading maps to the i-th cell's text. |
| `ExtractProperties.FillRowWithoutCells` | wikitable_to_json.py:24 | With no cells left, visiting headings changes nothing, so a short row leaves its remaining headings absent without error. |
| `ExtractProperties.FillRowWithoutSpans` | wikitable_to_json.py:22-33 | On a row whose cells all span one row and whose distinct headings are unfilled, processing adds exactly the row-by-row record to that row only. |
| `ExtractProperties.FillFromWithoutSpans` | wikitable_to_json.py:20-33 | Without spans, each remaining row's record becomes its row-by-row record. Records above are untouched. |
| `ExtractProperties.ExtractWithoutSpans` | wikitable_to_json.py:7-34 | A table with distinct headings and no spans reads row by row. Record k pairs the i-th heading with the i-th cell of data row k and holds nothing else. |
| `ExtractProperties.OneWordCellValue` | wikitable_to_json.py:26 | A cell holding one stripped word has that word as its value. |
| `ExtractProperties.SpanningCellExample` | wikitable_to_json.py:20-33 | Worked table: a `rowspan=3` cell fills its own record and the two below. Those rows' own cells then fill the next heading, and a surplus cell is ignored. A `rowspan=5` on the last row is cut off at the end of the table. |
| `PyStr.Strip` | wikitable_to_json.py:26 | `strip()` leaves neither end as whitespace. |
| `PyStr.StripOfPadded` | wikitable_to_json.py:26 | `strip()` of a stripped core padded with any whitespace on either side is that core. |
| `PyStr.StripOfAllSpace` | wikitable_to_json.py:26 | `strip()` of a whitespace-only string is `''`. |
| `PyStr.StripFixedPoints` | wikitable_to_json.py:26 | `strip()` leaves a string unchanged exactly when it is stripped, so `strip()` is idempotent. |
| `PyStr.JoinOfStrippedParts` | wikitable_to_json.py:26 | Space-joining non-empty stripped fragments gives a stripped string. It is empty exactly when there are no fragments, so the `.strip()` after the join changes nothing. |
| `WikitableToJson.RemoveEmptyValues` | wikitable_to_json.py:36-43 | After the in-place pass, each array slot holds `Clean` of its old record. The length of the array is unchanged. |
| `CleanupProperties.CleanKeepsExactlyNonEmpty` | wikitable_to_json.py:36-43 | A cleaned record keeps exactly the entries whose value is not `''`, each with its value unchanged. No `''` value remains. |
| `CleanupProperties.CleanAllShape` | wikitable_to_json.py:36-43 | Cleaning keeps the number of records. An all-empty record becomes `{}` rather than being dropped. A second pass changes nothing. |
| `CleanupProperties.CleanKeepsBlankValue` | wikitable_to_json.py:40 | The test is exact equality with `''`, so a value of one space is kept. |
| `CleanupProperties.CleanAfterExtract` | wikitable_to_json.py:36-43 | On `tableToJson`'s output, a field is removed exactly when its text strips to `''`. |
| `WikitableToJson.HeadingTagIsPatternPrefix` | wikitable_to_json.py:65 | The heading-tag test holds exactly when one of `h1`..`h6`, `p` is a prefix of the tag name, as `re.match` anchors only at the start. |
| `WikitableToJson.HeadingTagExamples` | wikitable_to_json.py:65 | `h2`, `p`, `pre` and `h1x` pass. `h7`, `h`, `div` and the empty name do not. |

## Left out

- Fetching the page (`requests.get`) and parsing HTML (BeautifulSoup) are foreign library calls. A table reaches the model as already extracted rows, cells, text fragments and `rowspan` values.
- Navigating the tree is left out for the same reason: `table.tbody`, `findChildren`, `findAll(text=...)`, `parent` and the `next_sibling` walk to the next `table`. Only the tag-name test on line 65 is modelled.
- BeautifulSoup's `stripped_strings` is taken as given. Where a lemma relies on fragments being non-empty and stripped, it says so in its `requires`.
- Parsing the `rowspan` attribute with `int(...)` is not modelled, and neither is its ValueError on non-numeric text. A cell carries an already parsed `Option<int>`.
- The interactive `input()` loop with its `-1` sentinel, `os.mkdir` of the page title, the "No such table" message and `json.dump(..., indent=4, sort_keys=True)` are I/O. A record is a `map`, which has no key order, so the sorted output order is a property of serialisation only.
- Records are values held in an array. In the source each record is a separate dict, so nothing is shared between records and nothing is lost by this.
- `twitter/x_follow_bot.py` is browser automation, timed sleeps, logging and config reading, and is not part of this model.
