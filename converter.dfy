/**
 * The converter itself: for each language column of the first sheet,
 * the `strings.xml` of that language's `values` directory is read, the
 * column is merged into its children and the file is written back.
 *
 * The output directory is a map from file path to what the file holds;
 * a path that is not in the map is a file that does not exist.
 */
module Converter {
  import opened Wrappers
  import opened LinkedMaps
  import opened Spreadsheet
  import opened Resources

  /**
   * A `strings.xml` as `readXmlFile` sees it: a document whose root has
   * these children, or a file the XML reader rejects (an empty file, as
   * `loadXmlFile` creates, is one).
   */
  datatype XmlFile = Parsed(children: seq<Element>) | Unparseable

  type Files = map<string, XmlFile>

  /** How a run ends: every column converted, stopped by an exception, or no workbook at the path. */
  datatype Run = Finished(files: Files) | Crashed(files: Files) | NoExcel

  // ---------------------------------------------------------------------
  // Where a language goes.

  /** `buildDirName(langCode)`: English is the default `values`; Indonesian keeps Android's old code `in`. */
  function BuildDirName(langCode: string): (r: string)
    ensures langCode == "en" ==> r == ""
    ensures langCode == "id" ==> r == "-in"
    ensures langCode != "en" && langCode != "id" ==> r == "-" + langCode
  {
    if langCode == "en" then "" else "-" + (if langCode == "id" then "in" else langCode)
  }

  /** Two codes share a directory only when they are the same code, or `id` and `in`. */
  lemma BuildDirNameCollisions(a: string, b: string)
    requires a != b && BuildDirName(a) == BuildDirName(b)
    ensures (a == "id" && b == "in") || (a == "in" && b == "id")
  {
    assert |BuildDirName(a)| == 0 <==> a == "en";
    assert |BuildDirName(b)| == 0 <==> b == "en";
    var x := if a == "id" then "in" else a;
    var y := if b == "id" then "in" else b;
    assert x == ("-" + x)[1..] && y == ("-" + y)[1..];
  }

  /** The file `loadXmlFile(langCode)` opens under the output directory `out`. */
  function XmlPath(out: string, langCode: string): string {
    out + "/values" + BuildDirName(langCode) + "/strings.xml"
  }

  /** Two language codes share a `strings.xml` exactly when they share a directory name. */
  lemma XmlPathInjective(out: string, a: string, b: string)
    requires XmlPath(out, a) == XmlPath(out, b)
    ensures BuildDirName(a) == BuildDirName(b)
    ensures a == b || (a == "id" && b == "in") || (a == "in" && b == "id")
  {
    var pre := out + "/values";
    var x, y := BuildDirName(a), BuildDirName(b);
    assert XmlPath(out, a) == pre + x + "/strings.xml";
    assert XmlPath(out, b) == pre + y + "/strings.xml";
    assert |x| == |y|;
    assert x == XmlPath(out, a)[|pre|..|pre| + |x|];
    assert y == XmlPath(out, b)[|pre|..|pre| + |y|];
    if a != b {
      BuildDirNameCollisions(a, b);
    }
  }

  /** The language code of a column: its cell in row LANGUAGE_TITLE_ROW. */
  function Header(sheet: Sheet, column: nat): string {
    Cell(sheet, column, LANGUAGE_TITLE_ROW)
  }

  // ---------------------------------------------------------------------
  // One column.

  /** `readXmlFile`: a file the reader rejects, or one that is not there, reads as a document without a root. */
  function ReadXmlFile(files: Files, path: string): seq<Element> {
    if path in files && files[path].Parsed? then files[path].children else []
  }

  function Lookup(files: Files, path: string): Option<XmlFile> {
    if path in files then Some(files[path]) else None
  }

  /**
   * What `convertColumn(sheet, column)` does to the output directory.  A
   * column without a language code is skipped.  Otherwise its file is read,
   * the column is merged into the children of the root, and the file is
   * written with the merged children.  A child without a `name` makes
   * `parserXmlDoc` throw before anything is written.
   */
  ghost function ColumnResult(out: string, sheet: Sheet, column: nat, files: Files): Run {
    var langCode := Header(sheet, column);
    if langCode == "" then Finished(files)
    else
      var path := XmlPath(out, langCode);
      var children := ReadXmlFile(files, path);
      if !AllNamed(children) then Crashed(files)
      else Finished(files[path := Parsed(MergeChildren(children, ExcelMap(sheet, column)))])
  }

  /** `convertColumn(sheet, column)`. */
  method ConvertColumn(out: string, sheet: Sheet, column: nat, files: Files) returns (r: Run)
    ensures r == ColumnResult(out, sheet, column, files)
  {
    var langCode := Cell(sheet, column, LANGUAGE_TITLE_ROW);
    if langCode == "" {
      return Finished(files);
    }
    var path := XmlPath(out, langCode);
    var children := ReadXmlFile(files, path);
    var doc := new Element[|children|](i requires 0 <= i < |children| => children[i]);
    assert doc[..] == children;
    var excel := ParseExcel(sheet, column);
    var merged := MergeDoc(doc, excel);
    if merged.None? {
      return Crashed(files);
    }
    r := Finished(files[path := Parsed(merged.value)]);
  }

  // ---------------------------------------------------------------------
  // The column loop of `convert`.

  /** Columns `from` up to `to` converted one after the other; the first exception stops the run. */
  ghost function ConvertColumns(out: string, sheet: Sheet, from: nat, to: nat, files: Files): Run
    decreases to - from
  {
    if from >= to then Finished(files)
    else
      var step := ColumnResult(out, sheet, from, files);
      if step.Finished? then ConvertColumns(out, sheet, from + 1, to, step.files) else step
  }

  /** The sheets `index` up to SHEET_COUNT converted; asking for a sheet the workbook does not have throws. */
  ghost function ConvertSheets(sheets: seq<Sheet>, out: string, index: nat, files: Files): Run
    decreases SHEET_COUNT - index
  {
    if index >= SHEET_COUNT then Finished(files)
    else if index >= |sheets| then Crashed(files)
    else
      var sheet := sheets[index];
      var step := ConvertColumns(out, sheet, FIRST_COLUMN, Columns(sheet), files);
      if step.Finished? then ConvertSheets(sheets, out, index + 1, step.files) else step
  }

  /** `convert()` on a workbook given by its sheets, `None` when there is no file at the excel path. */
  ghost function ConvertSpec(workbook: Option<seq<Sheet>>, out: string, files: Files): Run {
    if workbook.None? then NoExcel else ConvertSheets(workbook.value, out, 0, files)
  }

  /** `convert()`. */
  method Convert(workbook: Option<seq<Sheet>>, out: string, files: Files) returns (r: Run)
    ensures r == ConvertSpec(workbook, out, files)
  {
    if workbook.None? {
      return NoExcel;
    }
    var sheets := workbook.value;
    var cur := files;
    for index := 0 to SHEET_COUNT
      invariant ConvertSheets(sheets, out, index, cur) == ConvertSheets(sheets, out, 0, files)
    {
      if index >= |sheets| {
        return Crashed(cur);
      }
      var step := ConvertSheet(out, sheets[index], cur);
      if !step.Finished? {
        return step;
      }
      cur := step.files;
    }
    r := Finished(cur);
  }

  /** The column loop of `convert` over one sheet. */
  method ConvertSheet(out: string, sheet: Sheet, files: Files) returns (r: Run)
    ensures r == ConvertColumns(out, sheet, FIRST_COLUMN, Columns(sheet), files)
  {
    var cur := files;
    var column := FIRST_COLUMN;
    while column < Columns(sheet)
      invariant ConvertColumns(out, sheet, column, Columns(sheet), cur) == ConvertColumns(out, sheet, FIRST_COLUMN, Columns(sheet), files)
      decreases Columns(sheet) - column
    {
      var step := ConvertColumn(out, sheet, column, cur);
      if !step.Finished? {
        return step;
      }
      cur := step.files;
      column := column + 1;
    }
    r := Finished(cur);
  }

  // ---------------------------------------------------------------------
  // What a run writes.

  /** The files the columns `from` up to `to` may write: one per column that has a language code. */
  ghost function Written(out: string, sheet: Sheet, from: nat, to: nat): set<string> {
    set c: nat | from <= c < to && Header(sheet, c) != "" :: XmlPath(out, Header(sheet, c))
  }

  /** A step writes at most the file of its own column, and only when the column has a language code. */
  lemma ColumnFrame(out: string, sheet: Sheet, column: nat, files: Files, path: string)
    requires Header(sheet, column) == "" || path != XmlPath(out, Header(sheet, column))
    ensures !ColumnResult(out, sheet, column, files).NoExcel?
    ensures Lookup(ColumnResult(out, sheet, column, files).files, path) == Lookup(files, path)
    ensures ReadXmlFile(ColumnResult(out, sheet, column, files).files, path) == ReadXmlFile(files, path)
  {
  }

  /** The column loop leaves alone every file that no column with a language code maps to. */
  lemma {:induction false} ConvertColumnsFrame(out: string, sheet: Sheet, from: nat, to: nat, files: Files, path: string)
    requires path !in Written(out, sheet, from, to)
    ensures !ConvertColumns(out, sheet, from, to, files).NoExcel?
    ensures Lookup(ConvertColumns(out, sheet, from, to, files).files, path) == Lookup(files, path)
    decreases (to as int) - from
  {
    if from < to {
      assert Header(sheet, from) == "" || path != XmlPath(out, Header(sheet, from)) by {
        if Header(sheet, from) != "" {
          assert XmlPath(out, Header(sheet, from)) in Written(out, sheet, from, to);
        }
      }
      ColumnFrame(out, sheet, from, files, path);
      var step := ColumnResult(out, sheet, from, files);
      if step.Finished? {
        assert path !in Written(out, sheet, from + 1, to);
        ConvertColumnsFrame(out, sheet, from + 1, to, step.files, path);
      }
    }
  }

  /**
   * A column whose file no other column of the loop maps to ends, when the
   * run finishes, with its file holding the children read at the start,
   * merged with the column.
   */
  lemma {:induction false} ConvertColumnsOwn(out: string, sheet: Sheet, from: nat, to: nat, files: Files, c: nat, children: seq<Element>)
    requires from <= c < to && Header(sheet, c) != ""
    requires forall c': nat :: from <= c' < to && c' != c && Header(sheet, c') != "" ==>
               XmlPath(out, Header(sheet, c')) != XmlPath(out, Header(sheet, c))
    requires children == ReadXmlFile(files, XmlPath(out, Header(sheet, c)))
    requires ConvertColumns(out, sheet, from, to, files).Finished?
    ensures Lookup(ConvertColumns(out, sheet, from, to, files).files, XmlPath(out, Header(sheet, c)))
            == Some(Parsed(MergeChildren(children, ExcelMap(sheet, c))))
    decreases (to as int) - from
  {
    if from < c {
      var path := XmlPath(out, Header(sheet, c));
      var step := ColumnResult(out, sheet, from, files);
      ColumnFrame(out, sheet, from, files, path);
      ConvertColumnsOwn(out, sheet, from + 1, to, step.files, c, children);
    } else {
      ConvertColumnsOwnFirst(out, sheet, from, to, files);
    }
  }

  /** The case of `ConvertColumnsOwn` where the column is the first of the loop. */
  lemma ConvertColumnsOwnFirst(out: string, sheet: Sheet, from: nat, to: nat, files: Files)
    requires from < to && Header(sheet, from) != ""
    requires forall c': nat :: from < c' < to && Header(sheet, c') != "" ==>
               XmlPath(out, Header(sheet, c')) != XmlPath(out, Header(sheet, from))
    requires ConvertColumns(out, sheet, from, to, files).Finished?
    ensures Lookup(ConvertColumns(out, sheet, from, to, files).files, XmlPath(out, Header(sheet, from)))
            == Some(Parsed(MergeChildren(ReadXmlFile(files, XmlPath(out, Header(sheet, from))), ExcelMap(sheet, from))))
  {
    var path := XmlPath(out, Header(sheet, from));
    ColumnsStep(out, sheet, from, to, files);
    ColumnWrites(out, sheet, from, files);
    NotWrittenLater(out, sheet, from, to);
    ConvertColumnsFrame(out, sheet, from + 1, to, ColumnResult(out, sheet, from, files).files, path);
  }

  /** The file of a column that no later column shares is not written after it. */
  lemma NotWrittenLater(out: string, sheet: Sheet, from: nat, to: nat)
    requires forall c': nat :: from < c' < to && Header(sheet, c') != "" ==>
               XmlPath(out, Header(sheet, c')) != XmlPath(out, Header(sheet, from))
    ensures XmlPath(out, Header(sheet, from)) !in Written(out, sheet, from + 1, to)
  {
  }

  /** A loop that finishes finished its first column and went on from there. */
  lemma ColumnsStep(out: string, sheet: Sheet, from: nat, to: nat, files: Files)
    requires from < to && ConvertColumns(out, sheet, from, to, files).Finished?
    ensures ColumnResult(out, sheet, from, files).Finished?
    ensures ConvertColumns(out, sheet, from, to, files) == ConvertColumns(out, sheet, from + 1, to, ColumnResult(out, sheet, from, files).files)
  {
  }

  /** A column with a language code that finishes writes its file with the merged children. */
  lemma ColumnWrites(out: string, sheet: Sheet, column: nat, files: Files)
    requires Header(sheet, column) != "" && ColumnResult(out, sheet, column, files).Finished?
    ensures (var path := XmlPath(out, Header(sheet, column));
             Lookup(ColumnResult(out, sheet, column, files).files, path)
             == Some(Parsed(MergeChildren(ReadXmlFile(files, path), ExcelMap(sheet, column)))))
  {
  }

  /** `convert` writes only files of language columns: columns FIRST_COLUMN and up of the first sheet, with a language code. */
  lemma ConvertWritesOnlyLanguageFiles(sheets: seq<Sheet>, out: string, files: Files, path: string)
    requires |sheets| >= SHEET_COUNT
    requires path !in Written(out, sheets[0], FIRST_COLUMN, Columns(sheets[0]))
    ensures !ConvertSpec(Some(sheets), out, files).NoExcel?
    ensures Lookup(ConvertSpec(Some(sheets), out, files).files, path) == Lookup(files, path)
  {
    ConvertColumnsFrame(out, sheets[0], FIRST_COLUMN, Columns(sheets[0]), files, path);
  }

  /**
   * When `convert` finishes, the file of a language column that shares its
   * directory with no other column holds the children it had, merged with
   * the column.
   */
  lemma ConvertWritesColumn(sheets: seq<Sheet>, out: string, files: Files, c: nat)
    requires |sheets| >= SHEET_COUNT
    requires FIRST_COLUMN <= c < Columns(sheets[0]) && Header(sheets[0], c) != ""
    requires forall c': nat :: FIRST_COLUMN <= c' < Columns(sheets[0]) && c' != c && Header(sheets[0], c') != "" ==>
               BuildDirName(Header(sheets[0], c')) != BuildDirName(Header(sheets[0], c))
    requires ConvertSpec(Some(sheets), out, files).Finished?
    ensures (var path := XmlPath(out, Header(sheets[0], c));
             Lookup(ConvertSpec(Some(sheets), out, files).files, path)
             == Some(Parsed(MergeChildren(ReadXmlFile(files, path), ExcelMap(sheets[0], c)))))
  {
    var sheet := sheets[0];
    forall c': nat | FIRST_COLUMN <= c' < Columns(sheet) && c' != c && Header(sheet, c') != ""
      ensures XmlPath(out, Header(sheet, c')) != XmlPath(out, Header(sheet, c))
    {
      if XmlPath(out, Header(sheet, c')) == XmlPath(out, Header(sheet, c)) {
        XmlPathInjective(out, Header(sheet, c'), Header(sheet, c));
      }
    }
    ConvertColumnsOwn(out, sheet, FIRST_COLUMN, Columns(sheet), files, c, ReadXmlFile(files, XmlPath(out, Header(sheet, c))));
  }

  /**
   * A language file that is missing or that the XML reader rejects is
   * replaced by one holding exactly the column's names, one new child
   * each, in the column's order.
   */
  lemma ConvertRecoversUnreadable(sheets: seq<Sheet>, out: string, files: Files, c: nat)
    requires |sheets| >= SHEET_COUNT
    requires FIRST_COLUMN <= c < Columns(sheets[0]) && Header(sheets[0], c) != ""
    requires forall c': nat :: FIRST_COLUMN <= c' < Columns(sheets[0]) && c' != c && Header(sheets[0], c') != "" ==>
               BuildDirName(Header(sheets[0], c')) != BuildDirName(Header(sheets[0], c))
    requires var path := XmlPath(out, Header(sheets[0], c)); path !in files || files[path].Unparseable?
    requires ConvertSpec(Some(sheets), out, files).Finished?
    ensures (var path, excel := XmlPath(out, Header(sheets[0], c)), ExcelMap(sheets[0], c);
             var file := Lookup(ConvertSpec(Some(sheets), out, files).files, path);
             file.Some? && file.value.Parsed? && |file.value.children| == |excel.keys|
             && forall p :: 0 <= p < |excel.keys| ==> file.value.children[p] == NewElement(excel.keys[p], excel.vals))
  {
    ConvertWritesColumn(sheets, out, files, c);
    MergeIntoEmptyAll(ExcelMap(sheets[0], c));
  }

  /** Without a workbook, `convert` throws before it writes anything. */
  lemma ConvertWithoutExcel(out: string, files: Files)
    ensures ConvertSpec(None, out, files) == NoExcel
  {
  }
}
