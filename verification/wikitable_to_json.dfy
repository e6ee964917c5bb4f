/** The table-extraction functions of `wikitable_to_json.py`, written as the
    script runs them: index loops that update a list of records in place. */
module WikitableToJson {
  import opened TableModel

  /** `tableToJson`: the header row's strings become the headings; each data row
      fills its record heading by heading, popping its cells from the left and
      copying a cell's value down over the rows it spans. */
  method TableToJson(rows: seq<Row>) returns (r: Result<seq<Record>, TableError>)
    ensures r == Extract(rows)
  {
    if |rows| == 0 {
      return Failure(MissingHeaderRow);
    }
    var headerRow := rows[0];
    var headings: seq<string> := [];
    for j := 0 to |headerRow.strings|
      invariant headings == headerRow.strings[..j]
    {
      headings := headings + [headerRow.strings[j]];
    }
    assert headings == headerRow.strings;
    var body := rows[1..];
    var numItems := |body|;
    var items := new Record[numItems](_ => map[]);
    assert items[..] == EmptyRecords(numItems);
    for ind := 0 to numItems
      invariant FillFrom(items[..], headings, body, ind) == FillFrom(EmptyRecords(numItems), headings, body, 0)
    {
      var cols := body[ind].cells;
      ghost var rowStart := items[..];
      for j := 0 to |headings|
        invariant FillRow(Fill(items[..], cols), ind, headings[j..]) == FillRow(Fill(rowStart, body[ind].cells), ind, headings)
      {
        var heading := headings[j];
        ghost var f := Fill(items[..], cols);
        if heading !in items[ind] && |cols| > 0 {
          var col := cols[0];
          cols := cols[1..];
          var val := CellValue(col);  // the joined, stripped text of the cell
          var rowspan := Span(col);  // 1 when the attribute is missing
          CopyDown(items, ind, heading, val, rowspan);
        }
        assert Fill(items[..], cols) == Step(f, ind, heading);
        assert headings[j..][1..] == headings[j + 1..];
      }
    }
    return Success(items[..]);
  }

  /** The span loop of `tableToJson`: writes `val` under `heading` into the records
      of rows `ind .. ind + rowspan - 1` that exist, leaving every other field alone. */
  method CopyDown(items: array<Record>, ind: nat, heading: string, val: string, rowspan: int)
    modifies items
    ensures items[..] == Spread(old(items[..]), ind, heading, val, rowspan)
  {
    ghost var before := items[..];
    SpreadNone(before, ind, heading, val, 0);
    var i := 0;
    while i < rowspan
      invariant 0 <= i && (i <= rowspan || i == 0)
      invariant items[..] == Spread(before, ind, heading, val, i)
    {
      SpreadWiden(before, ind, heading, val, i);
      if ind + i < items.Length {
        items[ind + i] := items[ind + i][heading := val];
      }
      i := i + 1;
    }
    if rowspan <= 0 {
      SpreadNone(before, ind, heading, val, rowspan);
    }
  }

  /** `removeEmptyValues`: for each record, collect the keys whose value is exactly
      `''`, then delete them from that record in place. */
  method RemoveEmptyValues(items: array<Record>)
    modifies items
    ensures items[..] == CleanAll(old(items[..]))
  {
    for ind := 0 to items.Length
      invariant forall k :: 0 <= k < ind ==> items[k] == Clean(old(items[k]))
      invariant forall k :: ind <= k < items.Length ==> items[k] == old(items[k])
    {
      var item := items[ind];
      var emptyKeys: seq<string> := [];
      var unseen := item.Keys;
      while unseen != {}
        invariant unseen <= item.Keys
        invariant forall key :: key in emptyKeys ==> key in item && item[key] == ""
        invariant forall key :: key in item && key !in unseen && item[key] == "" ==> key in emptyKeys
        decreases unseen
      {
        var key :| key in unseen;
        if item[key] == "" {
          emptyKeys := emptyKeys + [key];
        }
        unseen := unseen - {key};
      }
      ghost var deleted: set<string> := {};
      for j := 0 to |emptyKeys|
        invariant items[ind] == item - deleted
        invariant forall key :: key in deleted <==> key in emptyKeys[..j]
        invariant forall k :: 0 <= k < ind ==> items[k] == Clean(old(items[k]))
        invariant forall k :: ind < k < items.Length ==> items[k] == old(items[k])
      {
        items[ind] := items[ind] - {emptyKeys[j]};
        deleted := deleted + {emptyKeys[j]};
        assert emptyKeys[..j + 1] == emptyKeys[..j] + [emptyKeys[j]];
      }
      assert emptyKeys[..|emptyKeys|] == emptyKeys;
      assert items[ind] == Clean(item);
    }
  }

  /** The test `re.match('h[1-6]|p', name)` that decides whether the element holding
      the table's title is a heading or paragraph: `re.match` anchors at the start
      only, so any name beginning with `h1`..`h6` or with `p` is accepted. */
  predicate IsHeadingTag(name: string) {
    || (|name| >= 2 && name[0] == 'h' && '1' <= name[1] <= '6')
    || (|name| >= 1 && name[0] == 'p')
  }

  /** The words the pattern `h[1-6]|p` can match. */
  const HeadingPatternWords: seq<string> := ["h1", "h2", "h3", "h4", "h5", "h6", "p"]

  /** `IsHeadingTag` is exactly "some word of the pattern is a prefix of the name",
      which is what `re.match` tests. */
  lemma HeadingTagIsPatternPrefix(name: string)
    ensures IsHeadingTag(name) <==>
      exists i :: 0 <= i < |HeadingPatternWords| && HeadingPatternWords[i] <= name
  {
    if |name| >= 2 && name[0] == 'h' && '1' <= name[1] <= '6' {
      var i := name[1] as int - '1' as int;
      assert HeadingPatternWords[i] == name[..2];
    } else if |name| >= 1 && name[0] == 'p' {
      assert HeadingPatternWords[6] == name[..1];
    }
  }

  /** The anchoring at the start only lets longer names through. */
  lemma HeadingTagExamples()
    ensures IsHeadingTag("h2") && IsHeadingTag("p") && IsHeadingTag("pre") && IsHeadingTag("h1x")
    ensures !IsHeadingTag("h7") && !IsHeadingTag("h") && !IsHeadingTag("div") && !IsHeadingTag("")
  {
  }
}
