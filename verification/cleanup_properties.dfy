/** What `removeEmptyValues` guarantees, alone and after `tableToJson`. */
module CleanupProperties {
  import opened PyStr
  import opened TableModel
  import ExtractProperties

  /** A cleaned record holds exactly the entries of the original whose value is not
      `''`, each with its original value; so no `''` value is left. */
  lemma CleanKeepsExactlyNonEmpty(item: Record)
    ensures forall key :: key in Clean(item) <==> key in item && item[key] != ""
    ensures forall key :: key in Clean(item) ==> Clean(item)[key] == item[key] && Clean(item)[key] != ""
  {
  }

  /** Cleaning keeps the number and order of records, turns a record whose values
      are all `''` into an empty record rather than dropping it, and a second pass
      changes nothing. */
  lemma {:induction false} CleanAllShape(items: seq<Record>)
    ensures |CleanAll(items)| == |items|
    ensures forall k :: 0 <= k < |items| && (forall key :: key in items[k] ==> items[k][key] == "") ==>
      CleanAll(items)[k] == map[]
    ensures CleanAll(CleanAll(items)) == CleanAll(items)
  {
    var once := CleanAll(items);
    forall k | 0 <= k < |items|
      ensures Clean(once[k]) == once[k]
    {
      CleanKeepsExactlyNonEmpty(items[k]);
      CleanKeepsExactlyNonEmpty(once[k]);
    }
    forall k | 0 <= k < |items| && (forall key :: key in items[k] ==> items[k][key] == "")
      ensures once[k] == map[]
    {
      CleanKeepsExactlyNonEmpty(items[k]);
    }
  }

  /** The test is equality with `''`, not blankness: a value of one space stays. */
  lemma CleanKeepsBlankValue()
    ensures Clean(map["note" := " "]) == map["note" := " "]
  {
  }

  /** On the output of `tableToJson` the exact test and a blankness test agree: every
      value there is already stripped, so a field is removed exactly when its text
      strips to nothing. */
  lemma CleanAfterExtract(table: seq<Row>)
    requires table != []
    ensures var out := Extract(table).value;
      forall k, key :: 0 <= k < |out| ==>
        (key in CleanAll(out)[k] <==> key in out[k] && Strip(out[k][key]) != "")
  {
    var out := Extract(table).value;
    ExtractProperties.ExtractValuesStripped(table);
    forall k, key | 0 <= k < |out| && key in out[k]
      ensures Strip(out[k][key]) == out[k][key]
    {
      StripFixedPoints(out[k][key]);
    }
  }
}
