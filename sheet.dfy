/**
 * The copywriting workbook: one sheet whose row 0 holds a language code
 * per column, whose column 0 holds the string names, and whose cells hold
 * the translated texts.  `ParseExcel` reads one language column into an
 * insertion-ordered map from name to text.
 */
module Spreadsheet {
  import opened Wrappers
  import opened Text
  import opened LinkedMaps

  /** The first column that holds a language. */
  const FIRST_COLUMN: nat := 2
  /** The row that holds the language codes. */
  const LANGUAGE_TITLE_ROW: nat := 0
  /** The first row that holds a string. */
  const FIRST_ROW: nat := LANGUAGE_TITLE_ROW + 1
  /** How many sheets of the workbook are converted. */
  const SHEET_COUNT: nat := 1

  /**
   * A sheet as its rows of cell contents.  Rows may be of different
   * lengths; a cell past the end of its row is empty, as the spreadsheet
   * library reports it.
   */
  datatype Sheet = Sheet(cells: seq<seq<string>>)

  function Rows(sheet: Sheet): nat {
    |sheet.cells|
  }

  /** The width of the widest row. */
  function MaxWidth(rows: seq<seq<string>>): (n: nat)
    ensures forall r :: 0 <= r < |rows| ==> |rows[r]| <= n
    ensures rows == [] ==> n == 0
    ensures rows != [] ==> exists r :: 0 <= r < |rows| && |rows[r]| == n
  {
    if rows == [] then 0
    else
      var w := MaxWidth(rows[..|rows| - 1]);
      var last := |rows[|rows| - 1]|;
      if w < last then last else w
  }

  /** `sheet.columns`. */
  function Columns(sheet: Sheet): nat {
    MaxWidth(sheet.cells)
  }

  /** `sheet.getCell(column, row).contents`. */
  function Cell(sheet: Sheet, column: nat, row: nat): (r: string)
    ensures row < Rows(sheet) && column < |sheet.cells[row]| ==> r == sheet.cells[row][column]
    ensures row >= Rows(sheet) || column >= |sheet.cells[row]| ==> r == ""
  {
    if row < |sheet.cells| && column < |sheet.cells[row]| then sheet.cells[row][column] else ""
  }

  // ---------------------------------------------------------------------
  // Reading one language column.

  /**
   * What row `row` contributes to the map of column `column`: nothing for
   * the title row, nothing when its name or its text is empty, otherwise
   * the trimmed name with the trimmed text.  The name is read from column
   * LANGUAGE_TITLE_ROW, which is 0.
   */
  function RowEntry(sheet: Sheet, column: nat, row: nat): Option<(string, string)> {
    var key := Cell(sheet, LANGUAGE_TITLE_ROW, row);
    var value := Cell(sheet, column, row);
    if row < FIRST_ROW || key == "" || value == "" then None
    else Some((Trim(key), Trim(value)))
  }

  function ExcelEntries(sheet: Sheet, column: nat): (es: seq<Option<(string, string)>>)
    ensures |es| == Rows(sheet)
    ensures forall row :: 0 <= row < |es| ==> es[row] == RowEntry(sheet, column, row)
  {
    seq(Rows(sheet), row requires 0 <= row => RowEntry(sheet, column, row))
  }

  /** The map `parserExcel` builds: the rows put one after the other. */
  function ExcelMap(sheet: Sheet, column: nat): LinkedMap<string> {
    FromEntries(ExcelEntries(sheet, column))
  }

  /** `parserExcel(sheet, column)`. */
  method ParseExcel(sheet: Sheet, column: nat) returns (m: LinkedMap<string>)
    ensures Valid(m)
    ensures m == ExcelMap(sheet, column)
  {
    var n := Rows(sheet);
    ghost var es := ExcelEntries(sheet, column);
    m := Empty();
    var row := FIRST_ROW;
    assert n >= FIRST_ROW ==> es[..row] == [None];
    while row < n
      invariant FIRST_ROW <= row && (n >= FIRST_ROW ==> row <= n)
      invariant m == FromEntries(es[..if row <= n then row else n])
    {
      var key := Cell(sheet, LANGUAGE_TITLE_ROW, row);
      var value := Cell(sheet, column, row);
      FromEntriesSnoc(es, row);
      assert es[row] == RowEntry(sheet, column, row);
      if key == "" || value == "" {
        row := row + 1;
        continue;
      }
      m := Put(m, Trim(key), Trim(value));
      row := row + 1;
    }
    assert es[..n] == es;
  }

  /** A name is in the map exactly when some string row has it, with a name and a text that are not empty. */
  lemma ExcelMapDomain(sheet: Sheet, column: nat, k: string)
    ensures k in ExcelMap(sheet, column).vals <==>
      exists row :: FIRST_ROW <= row < Rows(sheet) && Cell(sheet, LANGUAGE_TITLE_ROW, row) != ""
                    && Cell(sheet, column, row) != "" && Trim(Cell(sheet, LANGUAGE_TITLE_ROW, row)) == k
  {
    var es := ExcelEntries(sheet, column);
    FromEntriesDomain(es, k);
    if i :| KeyAt(es, i, k) {
      assert es[i] == RowEntry(sheet, column, i);
    }
    if row :| FIRST_ROW <= row < Rows(sheet) && Cell(sheet, LANGUAGE_TITLE_ROW, row) != ""
              && Cell(sheet, column, row) != "" && Trim(Cell(sheet, LANGUAGE_TITLE_ROW, row)) == k {
      assert KeyAt(es, row, k);
    }
  }

  /** When a name occurs in several rows, the text of the last of them wins. */
  lemma ExcelMapLastRowWins(sheet: Sheet, column: nat, row: nat)
    requires FIRST_ROW <= row < Rows(sheet)
    requires Cell(sheet, LANGUAGE_TITLE_ROW, row) != "" && Cell(sheet, column, row) != ""
    requires forall later :: row < later < Rows(sheet) ==>
      RowEntry(sheet, column, later) == None
      || RowEntry(sheet, column, later).value.0 != Trim(Cell(sheet, LANGUAGE_TITLE_ROW, row))
    ensures var k := Trim(Cell(sheet, LANGUAGE_TITLE_ROW, row));
      k in ExcelMap(sheet, column).vals && ExcelMap(sheet, column).vals[k] == Trim(Cell(sheet, column, row))
  {
    var es := ExcelEntries(sheet, column);
    forall j | row < j < |es|
      ensures !KeyAt(es, j, es[row].value.0)
    {
      assert es[j] == RowEntry(sheet, column, j);
    }
    FromEntriesLastWins(es, row);
  }

  /** Names and texts are stored trimmed. */
  lemma ExcelMapTrimmed(sheet: Sheet, column: nat, k: string)
    requires k in ExcelMap(sheet, column).vals
    ensures Trim(k) == k && Trim(ExcelMap(sheet, column).vals[k]) == ExcelMap(sheet, column).vals[k]
  {
    var es := ExcelEntries(sheet, column);
    FromEntriesLastPut(es, k);
    var i :| KeyAt(es, i, k) && es[i].value.1 == FromEntries(es).vals[k] && forall j :: i < j < |es| ==> !KeyAt(es, j, k);
    assert es[i] == RowEntry(sheet, column, i);
    TrimIdempotent(Cell(sheet, LANGUAGE_TITLE_ROW, i));
    TrimIdempotent(Cell(sheet, column, i));
  }

  /** Row `row` is the first string row whose trimmed name is `k`. */
  predicate FirstRowOf(sheet: Sheet, column: nat, row: nat, k: string) {
    row < Rows(sheet) && RowEntry(sheet, column, row).Some? && RowEntry(sheet, column, row).value.0 == k
    && forall before :: 0 <= before < row ==> RowEntry(sheet, column, before) == None || RowEntry(sheet, column, before).value.0 != k
  }

  lemma FirstRowIsFirstEntry(sheet: Sheet, column: nat, row: nat, k: string)
    requires FirstRowOf(sheet, column, row, k)
    ensures FirstKeyAt(ExcelEntries(sheet, column), row, k)
  {
    var es := ExcelEntries(sheet, column);
    forall j | 0 <= j < row
      ensures !KeyAt(es, j, k)
    {
      assert es[j] == RowEntry(sheet, column, j);
    }
  }

  /** The names are in the order of the rows that first hold them. */
  lemma ExcelMapOrder(sheet: Sheet, column: nat, p: nat, q: nat, i: nat, j: nat)
    requires p < q < |ExcelMap(sheet, column).keys|
    requires FirstRowOf(sheet, column, i, ExcelMap(sheet, column).keys[p])
    requires FirstRowOf(sheet, column, j, ExcelMap(sheet, column).keys[q])
    ensures i < j
  {
    var es := ExcelEntries(sheet, column);
    var m := ExcelMap(sheet, column);
    FirstRowIsFirstEntry(sheet, column, i, m.keys[p]);
    FirstRowIsFirstEntry(sheet, column, j, m.keys[q]);
    FromEntriesOrder(es, p, q, i, j);
  }
}
