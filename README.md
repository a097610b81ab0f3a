# AndroidCopywritingConverter in Dafny

AndroidCopywritingConverter turns a copywriting spreadsheet into Android
string resources. Row 0 of its first sheet holds one language code per column,
starting at column 2, and column 0 holds the string names. For each language
column, the converter:

- reads the `values[-suffix]/strings.xml` file of that language;
- refreshes the children that already have a name of the column;
- re-escapes every child it indexed;
- appends one new `<string>` child per name that is still missing;
- writes the file back.

This project models `Converter.kt` and proves what it does:

- **`Text`** models Kotlin's `trimEnd`, `trim` and `replace` on strings.
  Whitespace is the JVM's `Char.isWhitespace`, which is `Character.isWhitespace`
  or `Character.isSpaceChar`.
- **`Escaping`** models `escapeContent`, the seven-step rewrite. It is
  characterised as three steps:
  - removing trailing whitespace;
  - un-escaping hand-written `\'` and `\@`;
  - a per-character substitution `AndroidEscape`.

  From that characterisation it derives what the output looks like, how it
  handles whitespace, and why hand-escaped text is not escaped twice.
- **`LinkedMaps`** models Kotlin's `LinkedHashMap` as a value: a map together
  with the order in which its keys were first inserted.
- **`Spreadsheet`** models a sheet as rows of cell texts, and `parserExcel` as a
  loop that fills a linked map.
- **`Resources`** models the children of the `<resources>` root:
  - `parserXmlDoc` is a loop building the name-to-child index;
  - `merge` is an imperative method over an `array<Element>`, which it updates in
    place, as the XML tree is;
  - `MergeChildren` is the children the root ends with, and the properties of the
    merge are proved about it.
- **`Converter`** models:
  - `buildDirName` and the `strings.xml` path;
  - `convertColumn`;
  - the sheet and column loops of `convert`.

  The output directory is a map from file path to file contents.

Each method is proved against a specification function: `ParseExcel` against
`ExcelMap`, `ParseXmlDoc` against `XmlMap`, `Merge` and `MergeDoc` against
`MergeChildren`, and `ConvertColumn`, `ConvertSheet` and `Convert` against
`ColumnResult`, `ConvertColumns` and `ConvertSpec`. The lemmas state the
properties of those functions.

The constants `FIRST_COLUMN = 2`, `LANGUAGE_TITLE_ROW = 0`, `FIRST_ROW = 1`
and `SHEET_COUNT = 1` are those of the source's companion object
(`Converter.kt:179-194`).

Some behaviour of the code is easy to get wrong:

- A spreadsheet row is skipped only when its name cell or its text cell is empty
  *before* trimming. A cell holding only whitespace is kept and stored as the empty
  string (`Spreadsheet.ExcelMapDomain`).
- Two children of one file with the same name do not collapse into one. The index
  points to the last of them; only that one is refreshed. The earlier ones stay in
  the file unchanged (`Resources.MergeLeavesShadowed`).
- A child without a `name` attribute makes `parserXmlDoc` throw a null-pointer
  exception. The model treats this as a crash of the run (`Crashed`), not as a
  precondition.
- Escaping is not idempotent. The second run produces the same file only because
  the XML reader decodes `&amp;` and the other entities when it reads the file back,
  and that decoding is outside the model.
- The string names are read from column `LANGUAGE_TITLE_ROW` (line 118), a row
  constant used as a column index. It is 0, so the model reads column 0, as the code
  does (`Spreadsheet.RowEntry`).

## Model

| member | source | states |
|---|---|---|
| Text.IsWhitespace | src/main/kotlin/com/mrcd/Converter.kt:89 | Kotlin's `Char.isWhitespace` on the JVM, which `trimEnd` (line 89) and `trim` (line 123) strip: `Character.isWhitespace` or `Character.isSpaceChar`, written out as the characters they accept. |
| Text.Replace | src/main/kotlin/com/mrcd/Converter.kt:91-101 | `String.replace` of a non-empty literal: a left-to-right scan that rewrites each match and resumes after it, so matches never overlap. |
| Text.TrimEnd | src/main/kotlin/com/mrcd/Converter.kt:89 | `trimEnd` is a prefix of the text. What it drops is all whitespace, and the result does not end in whitespace. |
| Text.Trim | src/main/kotlin/com/mrcd/Converter.kt:123 | `trim` is a slice of the text. Only whitespace lies before and after it, and the result neither starts nor ends with whitespace. |
| Text.TrimIdempotent | src/main/kotlin/com/mrcd/Converter.kt:77 | Trimming twice is trimming once. The `value.trim()` at line 77 therefore changes nothing on a text `parserExcel` already trimmed. |
| Text.ReplaceAbsent | src/main/kotlin/com/mrcd/Converter.kt:91 | `replace` leaves a text unchanged when the first character of the pattern does not occur in it. |
| Text.ReplaceAtMatch | src/main/kotlin/com/mrcd/Converter.kt:91 | `replace` rewrites a match at the front of the text and then continues after the match. |
| Escaping.XmlEntity | src/main/kotlin/com/mrcd/Converter.kt:95 | What `escapeXml11` writes for one character: `&amp;`, `&lt;`, `&gt;`, `&quot;` or `&apos;` for the five predefined entities, the character itself otherwise. |
| Escaping.EscapeXml11 | src/main/kotlin/com/mrcd/Converter.kt:95 | `StringEscapeUtils.escapeXml11`: every character replaced by its entity. |
| Escaping.Unescape | src/main/kotlin/com/mrcd/Converter.kt:91-93 | Steps 2 and 3: every `\'` becomes `'`, then every `\@` becomes `@`. |
| Escaping.EscapeContent | src/main/kotlin/com/mrcd/Converter.kt:89 | A null text escapes to the empty string. |
| Escaping.AposStep | src/main/kotlin/com/mrcd/Converter.kt:97 | Step 5 turns the entity `escapeXml11` writes for `'` into `\'` and leaves every other character's entity alone. |
| Escaping.QuotStep | src/main/kotlin/com/mrcd/Converter.kt:99 | Step 6 turns the entity for `"` back into a plain `"` and leaves the rest alone. |
| Escaping.AtStep | src/main/kotlin/com/mrcd/Converter.kt:101 | Step 7 turns each `@` into `&#064;`. It touches no entity written by an earlier step. |
| Escaping.EscapeSteps | src/main/kotlin/com/mrcd/Converter.kt:95-101 | Steps 4 to 7 together are the per-character substitution `AndroidEscape`. |
| Escaping.EscapeContentCharwise | src/main/kotlin/com/mrcd/Converter.kt:87-103 | `escapeContent` is `trimEnd`, then removing the backslash of `\'` and of `\@`, then the per-character substitution. |
| Escaping.EscapeContentWellFormed | src/main/kotlin/com/mrcd/Converter.kt:95-101 | The output has no raw `<`, `>` or `@`. Every `&` in it opens `&amp;`, `&lt;`, `&gt;` or `&#064;`, and it never contains `&apos;` or `&quot;`. |
| Escaping.AndroidEscapeWellFormed | src/main/kotlin/com/mrcd/Converter.kt:95-101 | The per-character substitution writes only well-formed output. |
| Escaping.EscapeContentNoTrailingWhitespace | src/main/kotlin/com/mrcd/Converter.kt:88-89 | The output never ends in whitespace. |
| Escaping.EscapeContentKeepsLeadingWhitespace | src/main/kotlin/com/mrcd/Converter.kt:88-89 | Leading whitespace before a text that is not all whitespace is kept as it is. No such whitespace reaches a written file: `parserExcel` trims every text (line 123), a file's own texts are trimmed by the writer (`isTrimText`, line 164), and the writer's trimming is outside the model. |
| Escaping.EscapeContentPlain | src/main/kotlin/com/mrcd/Converter.kt:95-101 | A text with none of `& < > " ' @ \` that does not end in whitespace is returned unchanged. |
| Escaping.AndroidEscapePlain | src/main/kotlin/com/mrcd/Converter.kt:95-101 | The substitution is the identity on such characters. |
| Escaping.SameEscape | src/main/kotlin/com/mrcd/Converter.kt:87-103 | Two texts that agree after `trimEnd` and the removal of backslashes escape to the same output. |
| Escaping.UnescapeStable | src/main/kotlin/com/mrcd/Converter.kt:91-93 | Removing the backslash of `\c` (for `c` not a backslash) maps `a\cb` and `acb` to the same text, when `a` does not end in a backslash. |
| Escaping.EscapedQuoteIsStable | src/main/kotlin/com/mrcd/Converter.kt:90-91 | `a\'b` and `a'b` escape the same. So a hand-escaped quote is not escaped twice, as long as no backslash comes before it. |
| Escaping.EscapedAtIsStable | src/main/kotlin/com/mrcd/Converter.kt:92-93 | `a\@b` and `a@b` escape the same, as long as no backslash comes before the at sign. |
| Escaping.EscapeContentOfClean | src/main/kotlin/com/mrcd/Converter.kt:87-103 | A text that has no backslash and does not end in whitespace goes through the substitution alone. |
| Escaping.EscapeContentSample | src/main/kotlin/com/mrcd/Converter.kt:87-103 | `It's "ok" @user` becomes `It\'s "ok" &#064;user`. |
| Escaping.EscapeContentMarkupSample | src/main/kotlin/com/mrcd/Converter.kt:95 | `x & y < z` becomes `x &amp; y &lt; z`. |
| LinkedMaps.Empty | src/main/kotlin/com/mrcd/Converter.kt:116 | A new `LinkedHashMap` has no keys. |
| LinkedMaps.Put | src/main/kotlin/com/mrcd/Converter.kt:123 | A put stores the new value and changes no other key. A new key goes last in the order; an existing key keeps its place. |
| LinkedMaps.Remove | src/main/kotlin/com/mrcd/Converter.kt:67 | A remove drops the key from the map and from the order. The other keys keep their order. |
| LinkedMaps.Without | src/main/kotlin/com/mrcd/Converter.kt:67 | The keys that remain after removing a set of keys are exactly the others, and no more of them than before. |
| LinkedMaps.WithoutDistinct | src/main/kotlin/com/mrcd/Converter.kt:67 | Removing keys keeps the order free of duplicates. |
| LinkedMaps.WithoutOrder | src/main/kotlin/com/mrcd/Converter.kt:74 | The keys that remain keep their relative insertion order. |
| LinkedMaps.FromEntries | src/main/kotlin/com/mrcd/Converter.kt:116-124 | A map filled by a sequence of puts is well-formed: its order lists each key of the map exactly once. |
| LinkedMaps.FromEntriesSnoc | src/main/kotlin/com/mrcd/Converter.kt:117-124 | One more row either puts nothing or puts its pair into the map built so far. |
| LinkedMaps.FromEntriesDomain | src/main/kotlin/com/mrcd/Converter.kt:123 | A key is in the filled map if and only if some step puts it. |
| LinkedMaps.FromEntriesLastWins | src/main/kotlin/com/mrcd/Converter.kt:123 | A key holds the value of the last step that puts it. |
| LinkedMaps.FromEntriesOrder | src/main/kotlin/com/mrcd/Converter.kt:123 | Keys are ordered by the step that first puts them. A later put of the same key does not move it. |
| Spreadsheet.Rows | src/main/kotlin/com/mrcd/Converter.kt:117 | `sheet.rows`, the bound of the row loop: the number of rows of the sheet. |
| Spreadsheet.MaxWidth | src/main/kotlin/com/mrcd/Converter.kt:34 | `sheet.columns` is the length of the widest row. |
| Spreadsheet.Columns | src/main/kotlin/com/mrcd/Converter.kt:34 | `sheet.columns`, the bound of the column loop: the width of the widest row. |
| Spreadsheet.Cell | src/main/kotlin/com/mrcd/Converter.kt:118-119 | `getCell(column, row).contents` is the cell's text. A cell past the end of its row is empty; such a cell stands for a cell the spreadsheet library reports as empty inside its grid. |
| Spreadsheet.RowEntry | src/main/kotlin/com/mrcd/Converter.kt:118-123 | What one row gives the map. It gives nothing when:<br>- it is the title row;<br>- its raw name cell (column 0) is empty;<br>- its raw text cell is empty.<br>Otherwise it gives the trimmed name with the trimmed text. |
| Spreadsheet.ParseExcel | src/main/kotlin/com/mrcd/Converter.kt:115-126 | The row loop of `parserExcel` returns exactly `ExcelMap`, the map that puts each kept row in turn, and that map is well-formed. |
| Spreadsheet.ExcelMapDomain | src/main/kotlin/com/mrcd/Converter.kt:117-123 | A name is in the map if and only if some row from row 1 on has that trimmed name, with a name cell and a text cell that are not empty. |
| Spreadsheet.ExcelMapLastRowWins | src/main/kotlin/com/mrcd/Converter.kt:123 | When several rows share a name, the trimmed text of the last of them wins. |
| Spreadsheet.ExcelMapTrimmed | src/main/kotlin/com/mrcd/Converter.kt:123 | Names and texts are stored trimmed. |
| Spreadsheet.ExcelMapOrder | src/main/kotlin/com/mrcd/Converter.kt:123 | Names are ordered by the first row that holds them. |
| Resources.Key | src/main/kotlin/com/mrcd/Converter.kt:133 | The name a child is indexed under: its `name` attribute, trimmed. |
| Resources.ParseXmlDoc | src/main/kotlin/com/mrcd/Converter.kt:128-136 | `parserXmlDoc` fails if and only if some child has no `name` (the exception at line 133). Otherwise it returns the well-formed index `XmlMap`. |
| Resources.XmlMapKeys | src/main/kotlin/com/mrcd/Converter.kt:133 | The indexed names are exactly the trimmed names of the children. |
| Resources.XmlMapPointsToLast | src/main/kotlin/com/mrcd/Converter.kt:133 | Each name points to the last child with that trimmed name. |
| Resources.XmlMapFindsKeyIndex | src/main/kotlin/com/mrcd/Converter.kt:133 | Conversely, the last child under each name is the one the index names. |
| Resources.XmlMapInjective | src/main/kotlin/com/mrcd/Converter.kt:133 | Different names point to different children. |
| Resources.XmlMapIndexOf | src/main/kotlin/com/mrcd/Converter.kt:128-136 | The index is one-to-one and points into the document. |
| Resources.LastUnder | src/main/kotlin/com/mrcd/Converter.kt:133 | Every named child has a last child with the same trimmed name, and the index points to that one. |
| Resources.NewElementsLength | src/main/kotlin/com/mrcd/Converter.kt:73-79 | `merge` creates one new child per remaining name. |
| Resources.NewElementsAt | src/main/kotlin/com/mrcd/Converter.kt:74-78 | The `p`th new child has the `p`th remaining name and its trimmed, escaped text. |
| Resources.Refreshed | src/main/kotlin/com/mrcd/Converter.kt:65-69 | A child the index points to, after the first loop: the column's text when the column has its name, its own text otherwise, escaped in both cases. Its name is unchanged. |
| Resources.NewElement | src/main/kotlin/com/mrcd/Converter.kt:75-77 | The child created for a remaining name `k`: a `string` element named `k` whose text is `escapeContent(value.trim())`. |
| Resources.RefreshAt | src/main/kotlin/com/mrcd/Converter.kt:65-69 | One step of the first loop of `merge`:<br>- it overwrites the child's text with the column's text when the column has the name, and removes that name from the column;<br>- it re-escapes the text;<br>- it changes nothing else in the document. |
| Resources.ReplaceOld | src/main/kotlin/com/mrcd/Converter.kt:64-70 | The first loop of `merge` refreshes the child of every indexed name, in index order. It leaves the column without the names it consumed. |
| Resources.RefreshedDoc | src/main/kotlin/com/mrcd/Converter.kt:64-70 | After that loop, each child the index points to is refreshed and every other child is unchanged. |
| Resources.PendingStep | src/main/kotlin/com/mrcd/Converter.kt:65-67 | A name is removed from the remaining column exactly when the column has it. The remaining texts are the column's. |
| Resources.PendingEnd | src/main/kotlin/com/mrcd/Converter.kt:64-68 | The names still in the column after the first loop are those of the column that are not in the index, in the column's order, and they keep their texts. |
| Resources.AddNew | src/main/kotlin/com/mrcd/Converter.kt:73-81 | The second loop of `merge` creates the new children of the remaining names, in their order. |
| Resources.Merge | src/main/kotlin/com/mrcd/Converter.kt:59-82 | `merge`:<br>- it refreshes in place every child the index points to;<br>- it leaves every other child unchanged;<br>- it returns the new children for the names of the column that are not in the index, in the column's order. |
| Resources.MergeIsMergeChildren | src/main/kotlin/com/mrcd/Converter.kt:50 | The children left in place, followed by the returned children, are `MergeChildren`. |
| Resources.MergeDoc | src/main/kotlin/com/mrcd/Converter.kt:50 | Line 50 fails exactly when some child has no name, and then the document is left as it was. Otherwise the root ends with `MergeChildren` of its old children and the column. The first children of that result are the ones left in place in the document. |
| Resources.MergeIndexed | src/main/kotlin/com/mrcd/Converter.kt:50 | `merge` on the index `parserXmlDoc` built: the result is `MergeChildren`, and its first children are the document's children after the refresh. |
| Resources.MergeChildrenLength | src/main/kotlin/com/mrcd/Converter.kt:50 | The root ends with its old children plus one new child per name that is in the column but not in the file. |
| Resources.MergeChildrenOld | src/main/kotlin/com/mrcd/Converter.kt:64-70 | Old child `i` keeps its place. It is refreshed if the index points to it and left as it was otherwise. |
| Resources.MergeChildrenNew | src/main/kotlin/com/mrcd/Converter.kt:74-79 | The children after the old ones are the new children of the names not in the file. |
| Resources.MergeNewName | src/main/kotlin/com/mrcd/Converter.kt:76 | Each new child has the name of the matching remaining name of the column. |
| Resources.MergeUpdateWins | src/main/kotlin/com/mrcd/Converter.kt:64-69 | A name in both the file and the column ends with the column's escaped text, not the old one, and no new child is created for it. |
| Resources.MergeKeepsOldText | src/main/kotlin/com/mrcd/Converter.kt:69 | A name in the file but not in the column keeps its own text, escaped again. |
| Resources.MergeLeavesShadowed | src/main/kotlin/com/mrcd/Converter.kt:64-70 | A child the index does not point to is left exactly as it was: an earlier child with a repeated name. (An unnamed child never reaches `merge`: `parserXmlDoc` throws first, and `MergeDoc` returns `None`.) |
| Resources.MergeAppendsNew | src/main/kotlin/com/mrcd/Converter.kt:73-79 | A new child with name `k` exists if and only if `k` is in the column and in no child of the file. |
| Resources.MergeAppendsOnce | src/main/kotlin/com/mrcd/Converter.kt:74-78 | At most one new child has each name, and its text is the column's text, trimmed and escaped. |
| Resources.MergeAppendsInColumnOrder | src/main/kotlin/com/mrcd/Converter.kt:74 | New children come in the column's insertion order. |
| Resources.MergeCoversColumn | src/main/kotlin/com/mrcd/Converter.kt:59-82 | Every name of the column ends in some child with that name and with the column's escaped text. |
| Resources.MergeIntoEmpty | src/main/kotlin/com/mrcd/Converter.kt:105-112 | A document without a root is filled with one new child per name of the column, in the column's order. |
| Resources.MergeIntoEmptyAll | src/main/kotlin/com/mrcd/Converter.kt:105-112 | The same for all positions at once, with exactly as many children as names. |
| Converter.BuildDirName | src/main/kotlin/com/mrcd/Converter.kt:155-157 | `en` maps to no suffix, `id` maps to `-in`, and any other code `c` maps to `-c`. |
| Converter.BuildDirNameCollisions | src/main/kotlin/com/mrcd/Converter.kt:156 | Two different codes share a directory only when they are `id` and `in`. |
| Converter.XmlPathInjective | src/main/kotlin/com/mrcd/Converter.kt:139-144 | Two codes give the same path string exactly when they give the same directory name: the same code, or `id` and `in`. |
| Converter.Header | src/main/kotlin/com/mrcd/Converter.kt:43 | The language code of a column: the contents of its cell in row 0. |
| Converter.XmlPath | src/main/kotlin/com/mrcd/Converter.kt:139-144 | The file `loadXmlFile` opens: `strings.xml` in `out/values` followed by the directory suffix of the code. |
| Converter.ReadXmlFile | src/main/kotlin/com/mrcd/Converter.kt:105-112 | `readXmlFile` as the children of the root: those of a file the reader parses, none for a file it rejects or one that is not there. |
| Converter.ConvertColumn | src/main/kotlin/com/mrcd/Converter.kt:42-54 | `convertColumn`:<br>- it skips a column with an empty language code;<br>- it crashes on an unnamed child;<br>- otherwise it writes that language's file with its children merged with the column. |
| Converter.ColumnFrame | src/main/kotlin/com/mrcd/Converter.kt:43-46 | A column touches no file but its own. A column without a language code touches none. |
| Converter.ColumnWrites | src/main/kotlin/com/mrcd/Converter.kt:47-53 | A column with a language code leaves its file holding the merge of what the file held. |
| Converter.ConvertSheet | src/main/kotlin/com/mrcd/Converter.kt:34-36 | The column loop converts columns 2 up to `sheet.columns` in turn and stops at the first exception. |
| Converter.ConvertColumnsFrame | src/main/kotlin/com/mrcd/Converter.kt:34-36 | A file that no language column of the loop names is left as it was. |
| Converter.ConvertColumnsOwn | src/main/kotlin/com/mrcd/Converter.kt:34-36 | A column whose file no other column of the loop shares ends with its file merged from what the file held before the loop. |
| Converter.ConvertColumnsOwnFirst | src/main/kotlin/com/mrcd/Converter.kt:34-36 | The same for the first column of the loop. |
| Converter.Convert | src/main/kotlin/com/mrcd/Converter.kt:23-40 | `convert`:<br>- it fails when there is no workbook;<br>- it crashes when the workbook has fewer than SHEET_COUNT sheets;<br>- otherwise it runs the column loop on each sheet. |
| Converter.ConvertWritesOnlyLanguageFiles | src/main/kotlin/com/mrcd/Converter.kt:31-37 | `convert` touches only the files of columns 2 and up that have a language code. |
| Converter.ConvertWritesColumn | src/main/kotlin/com/mrcd/Converter.kt:31-37 | After a run that finishes, the file of a language whose directory no other column shares holds the merge of its old children with that column. |
| Converter.ConvertRecoversUnreadable | src/main/kotlin/com/mrcd/Converter.kt:105-112 | A missing file, or one the XML reader rejects, ends holding exactly one new child per name of the column, in order. |
| Converter.ConvertWithoutExcel | src/main/kotlin/com/mrcd/Converter.kt:24-27 | Without a workbook at the excel path, `convert` throws before it writes anything. |

## Left out

- File system I/O is not modelled. This covers the existence checks, `mkdirs`, `createNewFile`, `FileWriter`, `XMLWriter` and `println` (lines 29, 39, 139-149 and 159-173). The output directory is a map from path to contents, and a write replaces the entry.
- Creating an empty `strings.xml` is not modelled separately (lines 144-147). The XML reader rejects an empty file, so `readXmlFile` treats it exactly like a missing one, and the model reads both as an empty document.
- The XML writer's formatting is not modelled: indentation, `isTrimText`, and writing text with `isEscapeText = false`. The XML reader's entity decoding is not modelled either. A file written by one column and read by a later column that shares its path (`id` and `in`) is read back as the children that were written.
- Escaping.XmlEntity: `StringEscapeUtils.escapeXml11` is reduced to the five predefined entities of section 4.6 of the XML 1.1 recommendation. Its handling of control characters, of unpaired surrogates and of characters XML 1.1 forbids is not modelled. The library writes `\u000B`, `\u000C` and `\u001C`-`\u001F` (all Kotlin whitespace) as numeric references such as `&#11;` and deletes `\u0000`, so Escaping.EscapeContentWellFormed, Escaping.EscapeContentNoTrailingWhitespace and Escaping.EscapeContentKeepsLeadingWhitespace hold for the five-entity escaping only: with the library, `"a \u0000"` escapes to `"a "`, which ends in a blank.
- An idempotence lemma for `escapeContent` is not stated, because idempotence is false: `&` becomes `&amp;` and then `&amp;amp;`. The converter's output is stable across runs only because the XML reader decodes entities, which the model leaves out.
- Converter.XmlPathInjective: files are keyed by their path string. The normalisation `java.io.File` applies to the directory (dropping trailing and doubled separators), the file system's resolution of `.` and `..`, and case-insensitive file systems are not modelled, so codes such as `fr` and `fr/` (or `fr` and `FR` on such a file system) open one file in the program but name two in the model.
- Converter.ConvertWritesColumn: its premise that no other column shares the directory compares directory names as strings (see Converter.XmlPathInjective); two columns whose codes differ only in a way the file system ignores both merge into one file, which the lemma does not capture.
- Converter.ConvertRecoversUnreadable: the same premise, with the same limit.
- Converter.ConvertColumnsOwn: its premise compares paths as strings, with the same limit.
- A child is only its `name` attribute and its text. Tag names, other attributes, nested elements and the `resources` root are not modelled. That includes creating the root when there is none (line 49) and setting the encoding (line 52).
- Exceptions that jxl or dom4j throw on their own are not modelled, such as an unreadable workbook or an I/O error. The model covers three failures: a missing workbook file, a sheet index past the workbook, and a child without a `name`.
- A `null` cell content, checked at line 120, is not modelled. The spreadsheet library reports an empty string for every cell, so a cell's text is always a string.
