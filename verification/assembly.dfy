/**
  `convert_20ng_to_excel` in news_csv_50.py without its I/O: locate the files, extract a
  body from each, keep the rows whose body is long enough, and sanitise every string cell
  for export. Reading a file and parsing it as an envelope are parameters.
 */
module Assembly {
  import opened Maybe
  import opened Chars
  import opened Text
  import opened Seqs
  import opened Sanitize
  import opened Heuristic
  import opened Locator

  /** A row of the data frame before export. */
  datatype Row = Row(filename: string, category: string, text: string)

  /** A row as exported: every column a cell value. */
  datatype Record = Record(filename: Cell, category: Cell, text: Cell)

  /** What the conversion ends with: one of its two early returns, or the saved records. */
  datatype Outcome = NoFiles | NoRows | Saved(records: seq<Record>)

  /** The row test: the body is non-empty and, stripped, at least `MIN_BODY_LEN` long. */
  predicate KeepBody(body: string) {
    body != [] && |Strip(body)| >= MinBodyLen
  }

  function ToRow(item: Item, bodyOf: seq<string> -> string): Row {
    Row(item.filename, item.category, bodyOf(item.path))
  }

  function RowsOf(items: seq<Item>, bodyOf: seq<string> -> string): (rows: seq<Row>)
    ensures |rows| == |items|
    ensures forall i :: 0 <= i < |rows| ==> rows[i] == ToRow(items[i], bodyOf)
  {
    if |items| == 0 then [] else [ToRow(items[0], bodyOf)] + RowsOf(items[1..], bodyOf)
  }

  /** The row loop; `bodyOf` stands for `extract_main_body_from_file` on an item's path. */
  function BuildRows(items: seq<Item>, bodyOf: seq<string> -> string): (rows: seq<Row>)
    ensures |rows| <= |items|
    ensures forall i :: 0 <= i < |rows| ==> KeepBody(rows[i].text)
  {
    if |items| == 0 then []
    else
      var row := ToRow(items[0], bodyOf);
      (if KeepBody(row.text) then [row] else []) + BuildRows(items[1..], bodyOf)
  }

  /** Whether the item's body passes the length test. */
  function KeepItem(bodyOf: seq<string> -> string): Item -> bool {
    (item: Item) => KeepBody(bodyOf(item.path))
  }

  /**
    The rows are exactly the located items whose body passes the length test, in locator
    order, each with its body as text.
   */
  lemma {:induction false} BuildRowsIsFilter(items: seq<Item>, bodyOf: seq<string> -> string)
    ensures BuildRows(items, bodyOf) == RowsOf(Filter(items, KeepItem(bodyOf)), bodyOf)
    decreases |items|
  {
    if |items| > 0 {
      BuildRowsIsFilter(items[1..], bodyOf);
      var rest := Filter(items[1..], KeepItem(bodyOf));
      if KeepItem(bodyOf)(items[0]) {
        assert Filter(items, KeepItem(bodyOf)) == [items[0]] + rest;
        assert ([items[0]] + rest)[1..] == rest;
      } else {
        assert Filter(items, KeepItem(bodyOf)) == rest;
      }
    }
  }

  // ---------------------------------------------------------------------------
  // Export

  /**
    Lines 173-176 as written: the formula guard first, then the illegal-character removal.
    A string gains a leading `'` exactly when its first character starts a formula, and an
    exported string can start like a formula only when the original began with an illegal
    control character.
   */
  function ExportCellAsWritten(v: Cell): (r: Cell)
    ensures !v.Str? ==> r == v
    ensures v.Str? ==> r.Str? && NoIllegalXml(r.s)
    ensures v.Str? && v.s != [] && IsFormulaStart(v.s[0]) ==> r.s == "'" + RemoveIllegalXmlChars(v.s)
    ensures v.Str? && (v.s == [] || !IsFormulaStart(v.s[0])) ==> r.s == RemoveIllegalXmlChars(v.s)
    ensures r.Str? && r.s != [] && IsFormulaStart(r.s[0]) ==> v.Str? && v.s != [] && IsIllegalXml(v.s[0])
  {
    var r := RemoveIllegalCell(SanitizeForExcel(v));
    if v.Str? && v.s != [] && IsFormulaStart(v.s[0]) then
      var q := "'" + v.s;
      assert q[1..] == v.s;
      RemoveIllegalHead(q);
      r
    else if v.Str? && v.s != [] then
      RemoveIllegalEnds(v.s);
      r
    else
      r
  }

  /**
    A string whose formula character sits behind an illegal control character escapes the
    guard as written: the guard sees the control character, the removal then drops it.
   */
  lemma ExportAsWrittenLetsFormulaThrough(c: char, rest: string)
    requires IsIllegalXml(c) && NoIllegalXml(rest)
    ensures ExportCellAsWritten(Str([c, '='] + rest)) == Str("=" + rest)
    ensures IsFormulaStart(ExportCellAsWritten(Str([c, '='] + rest)).s[0])
  {
    var s := [c, '='] + rest;
    assert !IsFormulaStart(s[0]);
    assert SanitizeForExcel(Str(s)) == Str(s);
    assert s == [c] + (['='] + rest);
    RemoveIllegalConcat([c], ['='] + rest);
    RemoveIllegalConcat(['='], rest);
    assert RemoveIllegalXmlChars([c]) == [] by {
      assert [c][1..] == [];
    }
    assert RemoveIllegalXmlChars(['=']) == ['='] by {
      assert ['='][1..] == [];
    }
  }

  /**
    The export with the removal first: no exported string starts like a formula or holds an
    illegal control character, and the only changes are the removal and one leading `'`.
   */
  function ExportCell(v: Cell): (r: Cell)
    ensures !v.Str? ==> r == v
    ensures v.Str? ==> r.Str? && NoIllegalXml(r.s)
    ensures r.Str? && r.s != [] ==> !IsFormulaStart(r.s[0])
    ensures v.Str? ==>
      r.s == RemoveIllegalXmlChars(v.s) || r.s == "'" + RemoveIllegalXmlChars(v.s)
    ensures v.Str? ==> var c := RemoveIllegalXmlChars(v.s);
      c != [] && IsFormulaStart(c[0]) ==> r.s == "'" + c
    ensures v.Str? ==> var c := RemoveIllegalXmlChars(v.s);
      c == [] || !IsFormulaStart(c[0]) ==> r.s == c
  {
    var cleaned := RemoveIllegalCell(v);
    var r := SanitizeForExcel(cleaned);
    assert r.Str? && r != cleaned ==> r.s == "'" + cleaned.s;
    assert r.Str? ==> forall i :: 1 <= i < |r.s| && r != cleaned ==> r.s[i] == cleaned.s[i - 1];
    r
  }

  /** One row with `exportCell` applied to each of its columns. */
  function ExportRecord(row: Row, exportCell: Cell -> Cell): Record {
    Record(exportCell(Str(row.filename)), exportCell(Str(row.category)), exportCell(Str(row.text)))
  }

  /** The per-column export over the whole frame, row by row. */
  function ExportRecords(rows: seq<Row>, exportCell: Cell -> Cell): (recs: seq<Record>)
    ensures |recs| == |rows|
    ensures forall i :: 0 <= i < |recs| ==> recs[i] == ExportRecord(rows[i], exportCell)
  {
    if |rows| == 0 then [] else [ExportRecord(rows[0], exportCell)] + ExportRecords(rows[1..], exportCell)
  }

  /** A string cell with no illegal control character. */
  predicate CleanCell(v: Cell) {
    v.Str? && NoIllegalXml(v.s)
  }

  /** A string cell that is clean and does not start like a formula. */
  predicate SafeCell(v: Cell) {
    v.Str? && NoIllegalXml(v.s) && (v.s != [] ==> !IsFormulaStart(v.s[0]))
  }

  /** `extract_main_body_from_file` as written, as the row loop calls it on a path. */
  function BodyReader(read: seq<string> -> Option<seq<bv8>>, parse: seq<bv8> -> Option<string>): seq<string> -> string {
    (path: seq<string>) => ExtractMainBody(read(path), parse)
  }

  /** The same reader with the corrected light pass. */
  function BodyReaderCorrected(read: seq<string> -> Option<seq<bv8>>, parse: seq<bv8> -> Option<string>): seq<string> -> string {
    (path: seq<string>) => ExtractMainBodyCorrected(read(path), parse)
  }

  /**
    What the conversion of the located `files` ends with, in terms of the items alone: no
    files, no file with a long enough body, or one exported record per such file, in
    locator order.
   */
  predicate ConvertedFrom(files: seq<Item>, bodyOf: seq<string> -> string, exportCell: Cell -> Cell, out: Outcome) {
    && (out.NoFiles? <==> files == [])
    && (out.NoRows? <==> files != [] && forall i :: 0 <= i < |files| ==> !KeepBody(bodyOf(files[i].path)))
    && (out.Saved? ==>
          var kept := Filter(files, KeepItem(bodyOf));
          && 0 < |kept| == |out.records|
          && forall i :: 0 <= i < |kept| ==> out.records[i] == ExportRecord(ToRow(kept[i], bodyOf), exportCell))
  }

  /**
    `convert_20ng_to_excel` up to the write, as written: `read` gives a file's bytes by its
    path below the root (`None` when it cannot be read), `parse` stands for the envelope
    parser. Every exported cell is a string free of illegal control characters.
   */
  function Convert(root: Root, cap: int, read: seq<string> -> Option<seq<bv8>>, parse: seq<bv8> -> Option<string>): (out: Outcome)
    ensures ConvertedFrom(CollectEmlFiles(root, cap), BodyReader(read, parse), ExportCellAsWritten, out)
    ensures out.Saved? ==> |out.records| <= |CollectEmlFiles(root, cap)|
    ensures out.Saved? ==> forall i :: 0 <= i < |out.records| ==>
      CleanCell(out.records[i].filename) && CleanCell(out.records[i].category) && CleanCell(out.records[i].text)
  {
    var files := CollectEmlFiles(root, cap);
    var out := ConvertFiles(files, BodyReader(read, parse), ExportCellAsWritten);
    ExportedAsWrittenClean(files, BodyReader(read, parse), out);
    out
  }

  /**
    The conversion with the corrected reader and the corrected exportCell: every exported cell
    is safe.
   */
  function ConvertCorrected(root: Root, cap: int, read: seq<string> -> Option<seq<bv8>>, parse: seq<bv8> -> Option<string>): (out: Outcome)
    ensures ConvertedFrom(CollectEmlFiles(root, cap), BodyReaderCorrected(read, parse), ExportCell, out)
    ensures out.Saved? ==> |out.records| <= |CollectEmlFiles(root, cap)|
    ensures out.Saved? ==> forall i :: 0 <= i < |out.records| ==>
      && SafeCell(out.records[i].filename) && SafeCell(out.records[i].category)
      && SafeCell(out.records[i].text)
  {
    var files := CollectEmlFiles(root, cap);
    var out := ConvertFiles(files, BodyReaderCorrected(read, parse), ExportCell);
    ExportedCorrectedSafe(files, BodyReaderCorrected(read, parse), out);
    out
  }

  /** The part of the conversion after the locator, on the located files. */
  function ConvertFiles(files: seq<Item>, bodyOf: seq<string> -> string, exportCell: Cell -> Cell): (out: Outcome)
    ensures ConvertedFrom(files, bodyOf, exportCell, out)
    ensures out.Saved? ==> |out.records| <= |files|
  {
    if files == [] then NoFiles
    else
      var rows := BuildRows(files, bodyOf);
      BuildRowsIsFilter(files, bodyOf);
      KeptNoneExactly(files, KeepItem(bodyOf));
      if rows == [] then NoRows
      else Saved(ExportRecords(rows, exportCell))
  }

  /** The filter keeps nothing exactly when no item passes the test. */
  lemma KeptNoneExactly(items: seq<Item>, keep: Item -> bool)
    ensures Filter(items, keep) == [] <==> forall i :: 0 <= i < |items| ==> !keep(items[i])
  {
    if forall i :: 0 <= i < |items| ==> !keep(items[i]) {
      FilterNone(items, keep);
    }
  }

  /** Every cell the export as written produces is clean. */
  lemma ExportedAsWrittenClean(files: seq<Item>, bodyOf: seq<string> -> string, out: Outcome)
    requires ConvertedFrom(files, bodyOf, ExportCellAsWritten, out)
    ensures out.Saved? ==> forall i :: 0 <= i < |out.records| ==>
      CleanCell(out.records[i].filename) && CleanCell(out.records[i].category) && CleanCell(out.records[i].text)
  {
    if out.Saved? {
      var kept := Filter(files, KeepItem(bodyOf));
      forall i | 0 <= i < |out.records|
        ensures CleanCell(out.records[i].filename) && CleanCell(out.records[i].category)
        ensures CleanCell(out.records[i].text)
      {
        assert out.records[i] == ExportRecord(ToRow(kept[i], bodyOf), ExportCellAsWritten);
      }
    }
  }

  /** Every cell the corrected export produces is safe. */
  lemma ExportedCorrectedSafe(files: seq<Item>, bodyOf: seq<string> -> string, out: Outcome)
    requires ConvertedFrom(files, bodyOf, ExportCell, out)
    ensures out.Saved? ==> forall i :: 0 <= i < |out.records| ==>
      && SafeCell(out.records[i].filename) && SafeCell(out.records[i].category)
      && SafeCell(out.records[i].text)
  {
    if out.Saved? {
      var kept := Filter(files, KeepItem(bodyOf));
      forall i | 0 <= i < |out.records|
        ensures SafeCell(out.records[i].filename) && SafeCell(out.records[i].category)
        ensures SafeCell(out.records[i].text)
      {
        assert out.records[i] == ExportRecord(ToRow(kept[i], bodyOf), ExportCell);
      }
    }
  }
}
