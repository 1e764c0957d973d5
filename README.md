# Trac report generator, modelled in Dafny

This project models `TracReportGenerator`. That is the class of the Maven changes plugin that turns a list of Trac tickets into a Doxia report.

The generator has two halves:

- **Column resolution.** The constructor resolves the configured `columnNames` string against the catalog of known column names. It splits the string on commas, trims each name and looks it up ignoring case. The resulting `columnOrder` array holds, for every configured name, the index of the first matching catalog column, or `-1`. When not a single name is found, a `MavenReportException` carries the error message.
- **Report emission.** The report methods drive a Doxia `Sink`. They write the report frame, a header row with one header cell per recognised entry, and one detail row per ticket. When there is no ticket list, they write nothing between the frame.

The project is laid out as follows:

- `wrappers.dfy` holds `Option` (Java `null`) and `Result` (a value or a thrown exception).
- `java_text.dfy` models the three `java.lang.String` operations the constructor uses:
  - `split(",")`, as `Fields` followed by `DropTrailingEmpty`;
  - `trim()`, which strips characters `<= ' '`;
  - `equalsIgnoreCase`.
- `column_order.dfy` gives the resolution as functions (`FirstMatch`, `OrderOf`, `ValidCount`, `Resolve`) and proves what they promise.
- `column_examples.dfy` works resolution through on a three-column catalog.
- `doxia_sink.dfy` models a sink as the trace of calls it has received, in a `Sink` class whose `Emit` appends one event. It also defines a checker for the open/close nesting of a trace and an occurrence count.
- `report_trace.dfy` gives every emitting method as a function from the column order, the tickets and the collaborators to the events it sends.
- `report_properties.dfy` proves what a reader of the report sees:
  - which header texts appear, and in which order;
  - that every row has as many cells as the header;
  - how many table events the report holds;
  - what the report holds when there are no tickets;
  - that every report is well nested.
- `trac_report_generator.dfy` holds the class `TracReportGenerator`:
  - The field `columnOrder` is an `array<int>`.
  - The constructor's nested loops, with the early `break`, sit in `Create`.
  - The emitting methods append to a `Sink`.
  - Every method is proved to append exactly the trace that its function in `report_trace.dfy` describes. `Create` is proved to build exactly the array that `Resolve` describes.

Collaborators the class gets from outside are parameters:

- The resource bundle is a `string -> string` lookup.
- `SimpleDateFormat` and `IssuesReportGenerator.printValues` are the two functions of a `Formatting` record.
- The issue list is an `Option<seq<Issue>>`.

## Model

Every source cell refers to `src/main/java/org/apache/maven/plugin/trac/TracReportGenerator.java`.

| member | source | states |
|---|---|---|
| JavaText.FieldsShape | src/main/java/org/apache/maven/plugin/trac/TracReportGenerator.java:57 | splitting on every comma gives one more field than there are commas, and no field holds a comma |
| JavaText.JoinFields | src/main/java/org/apache/maven/plugin/trac/TracReportGenerator.java:57 | joining the comma-separated fields back with commas gives the original string |
| JavaText.FieldsJoin | src/main/java/org/apache/maven/plugin/trac/TracReportGenerator.java:57 | comma-free fields joined with commas split back into the same fields |
| JavaText.DropTrailingEmpty | src/main/java/org/apache/maven/plugin/trac/TracReportGenerator.java:57 | the result is a prefix of the fields, only empty fields were removed, and it does not end in an empty field |
| JavaText.Split | src/main/java/org/apache/maven/plugin/trac/TracReportGenerator.java:57 | `columnNames.split(",")`: the comma-separated fields with the trailing empty fields removed, except that a string without a comma is its own single token (its shape is proved by `SplitShape`) |
| JavaText.SplitShape | src/main/java/org/apache/maven/plugin/trac/TracReportGenerator.java:57 | `split(",")` keeps the fields up to the last non-empty one; a string without a comma is returned whole, even when empty; no token holds a comma |
| JavaText.SplitJoin | src/main/java/org/apache/maven/plugin/trac/TracReportGenerator.java:57 | comma-free tokens not ending in an empty one are recovered by splitting their comma-join |
| JavaText.SplitWithoutComma | src/main/java/org/apache/maven/plugin/trac/TracReportGenerator.java:57 | the empty string splits into one empty token, and `"id"` splits into `["id"]` |
| JavaText.SplitLoneComma | src/main/java/org/apache/maven/plugin/trac/TracReportGenerator.java:57 | `","` splits into no tokens at all |
| JavaText.SplitKeepsInnerEmptyFields | src/main/java/org/apache/maven/plugin/trac/TracReportGenerator.java:57 | `"id,,type,,"` splits into `["id", "", "type"]`: inner empty tokens stay, trailing ones go |
| JavaText.Trim | src/main/java/org/apache/maven/plugin/trac/TracReportGenerator.java:66 | the result is the slice of the input after its leading blanks; everything after the slice is blank; the result neither starts nor ends with a blank |
| JavaText.TrimIdempotent | src/main/java/org/apache/maven/plugin/trac/TracReportGenerator.java:66 | trimming twice is trimming once |
| JavaText.TrimAllBlank | src/main/java/org/apache/maven/plugin/trac/TracReportGenerator.java:66 | a name made only of blanks trims to the empty string |
| JavaText.CharEqualsIgnoreCase | src/main/java/org/apache/maven/plugin/trac/TracReportGenerator.java:67 | the per-character test of `equalsIgnoreCase`: the characters are equal, or equal once upper-cased, or equal once upper-cased and then lower-cased |
| JavaText.EqualsIgnoreCase | src/main/java/org/apache/maven/plugin/trac/TracReportGenerator.java:67 | `columns[columnIndex].equalsIgnoreCase(columnName)`: equal lengths, and `CharEqualsIgnoreCase` at every position |
| JavaText.EqualsIgnoreCaseAt | src/main/java/org/apache/maven/plugin/trac/TracReportGenerator.java:67 | two names are equal ignoring case exactly when they have equal lengths and agree character by character, ignoring case |
| JavaText.CharEqualsIgnoreCaseIsFolding | src/main/java/org/apache/maven/plugin/trac/TracReportGenerator.java:67 | two characters are equal ignoring case exactly when they fold to the same lower-case character |
| JavaText.EqualsIgnoreCaseEquivalence | src/main/java/org/apache/maven/plugin/trac/TracReportGenerator.java:67 | equality ignoring case is reflexive, symmetric and transitive |
| ColumnOrder.FirstMatch | src/main/java/org/apache/maven/plugin/trac/TracReportGenerator.java:64-74 | the inner loop: scans the catalog from index 0 and stops at the first name equal to the trimmed name ignoring case, else `-1`; the result lies in `-1..|columns|-1` |
| ColumnOrder.FirstMatchSpec | src/main/java/org/apache/maven/plugin/trac/TracReportGenerator.java:64-74 | the index found names a catalog column equal to the name ignoring case, and no earlier column matches; `-1` exactly when no column matches |
| ColumnOrder.FirstMatchUnique | src/main/java/org/apache/maven/plugin/trac/TracReportGenerator.java:64-74 | a matching column with no match before it is the one the lookup finds (the `break` on the first match) |
| ColumnOrder.OrderOf | src/main/java/org/apache/maven/plugin/trac/TracReportGenerator.java:57-75 | the outer loop: one entry per token, in token order, each the lookup of the trimmed token; as many entries as tokens |
| ColumnOrder.OrderOfEntries | src/main/java/org/apache/maven/plugin/trac/TracReportGenerator.java:57-75 | entry `i` of the column order is the first catalog match of the trimmed `i`-th token |
| ColumnOrder.ValidCount | src/main/java/org/apache/maven/plugin/trac/TracReportGenerator.java:58-71 | the `validColumnNames` counter: the number of entries other than `-1`, at most the number of entries |
| ColumnOrder.ValidCountZero | src/main/java/org/apache/maven/plugin/trac/TracReportGenerator.java:71-76 | the count of valid names is zero exactly when every entry is `-1` |
| ColumnOrder.Resolve | src/main/java/org/apache/maven/plugin/trac/TracReportGenerator.java:54-82 | the constructor's outcome: the message of the exception when no entry of the column order is valid, else the column order itself |
| ColumnOrder.ResolveEntries | src/main/java/org/apache/maven/plugin/trac/TracReportGenerator.java:57-75 | a successful resolution has one entry per token; each entry is `-1` exactly when no catalog name matches the trimmed token, and otherwise is the index of the first such name |
| ColumnOrder.AllUnmatched | src/main/java/org/apache/maven/plugin/trac/TracReportGenerator.java:62-75 | when every entry is `-1`, no token matches any catalog name |
| ColumnOrder.EntryMatches | src/main/java/org/apache/maven/plugin/trac/TracReportGenerator.java:67-70 | an entry other than `-1` is a catalog index whose name matches the trimmed token |
| ColumnOrder.ResolveFailure | src/main/java/org/apache/maven/plugin/trac/TracReportGenerator.java:76-81 | construction fails exactly when no token matches any catalog name, and then fails with the exception's message |
| ColumnOrder.ErrorMessage | src/main/java/org/apache/maven/plugin/trac/TracReportGenerator.java:79-80 | the exception's text: the fixed prefix, then `columnNames`, then the fixed suffix |
| ColumnOrder.ErrorMessageQuotesInput | src/main/java/org/apache/maven/plugin/trac/TracReportGenerator.java:79-80 | the message contains the configured `columnNames` verbatim, right after the fixed prefix |
| ColumnOrder.ResolveFromMatches | src/main/java/org/apache/maven/plugin/trac/TracReportGenerator.java:57-81 | when the token-by-token lookups give the expected entries and one entry is valid, resolution succeeds with exactly those entries |
| ColumnOrder.ResolveFromMisses | src/main/java/org/apache/maven/plugin/trac/TracReportGenerator.java:57-81 | when no token's lookup finds a column, resolution fails with the exception's message |
| ColumnOrderExamples.CatalogLookups | src/main/java/org/apache/maven/plugin/trac/TracReportGenerator.java:64-74 | `"id"` and `"ID"` find column 0, and `"type"` finds column 1 |
| ColumnOrderExamples.CatalogMisses | src/main/java/org/apache/maven/plugin/trac/TracReportGenerator.java:62-74 | names outside the catalog find nothing (`-1`) |
| ColumnOrderExamples.SpacedMixedCaseNames | src/main/java/org/apache/maven/plugin/trac/TracReportGenerator.java:57-75 | `" id , TYPE,Summary "` resolves to `[0, 1, 2]`: blanks and case are ignored |
| ColumnOrderExamples.PlainNames | src/main/java/org/apache/maven/plugin/trac/TracReportGenerator.java:57-75 | `"id,type,summary"` resolves to `[0, 1, 2]` |
| ColumnOrderExamples.UnknownNameIsOmitted | src/main/java/org/apache/maven/plugin/trac/TracReportGenerator.java:62-75 | an unknown name keeps its place as a `-1` entry: `"id,bogus,type"` gives `[0, -1, 1]` |
| ColumnOrderExamples.DuplicateNamesAreKept | src/main/java/org/apache/maven/plugin/trac/TracReportGenerator.java:57-75 | a column named twice is resolved twice: `"id,ID"` gives `[0, 0]` |
| ColumnOrderExamples.TrailingCommaAddsNoEntry | src/main/java/org/apache/maven/plugin/trac/TracReportGenerator.java:57 | `"id,"` gives one entry, `[0]` |
| ColumnOrderExamples.AllNamesUnknownFails | src/main/java/org/apache/maven/plugin/trac/TracReportGenerator.java:76-81 | `"bogus1,bogus2"` fails with the message quoting `bogus1,bogus2` |
| ReportTrace.Code | src/main/java/org/apache/maven/plugin/trac/TracReportGenerator.java:39-50 | every column has a code in `0..11` |
| ReportTrace.ColumnOf | src/main/java/org/apache/maven/plugin/trac/TracReportGenerator.java:121-161 | an entry selects a column exactly when it lies in `0..11`, and then it is that column's code; every other entry falls to the `default` branch |
| ReportTrace.CodeRoundTrip | src/main/java/org/apache/maven/plugin/trac/TracReportGenerator.java:39-50 | decoding a column's code gives back that column |
| ReportTrace.LabelKey | src/main/java/org/apache/maven/plugin/trac/TracReportGenerator.java:123-158 | the bundle key of each column's header label, one per `case` of the header `switch` |
| ReportTrace.LabelKeysDistinct | src/main/java/org/apache/maven/plugin/trac/TracReportGenerator.java:121-161 | no two columns share a header label key |
| ReportTrace.FieldText | src/main/java/org/apache/maven/plugin/trac/TracReportGenerator.java:194-226 | the text shown for each column other than the id: its getter, dates through the date format built from the pattern of line 177, fix versions and components through `printValues` |
| TracReport.TracReportGenerator.Create | src/main/java/org/apache/maven/plugin/trac/TracReportGenerator.java:54-82 | the nested loops build a fresh `columnOrder` array holding exactly what `Resolve` gives; when `Resolve` fails, construction fails with its message |
| TracReport.TracReportGenerator.DoGenerateEmptyReport | src/main/java/org/apache/maven/plugin/trac/TracReportGenerator.java:84-95 | appends exactly the empty-report trace: the frame around a paragraph holding the bundle's error text |
| TracReport.TracReportGenerator.DoGenerateReport | src/main/java/org/apache/maven/plugin/trac/TracReportGenerator.java:97-106 | appends exactly the frame, the header row and the detail section for the current column order |
| TracReport.TracReportGenerator.ConstructHeaderRow | src/main/java/org/apache/maven/plugin/trac/TracReportGenerator.java:108-166 | appends nothing for a null list; otherwise opens the table and a row, writes one header cell per entry in `0..11` in order, and closes the row |
| TracReport.TracReportGenerator.ConstructDetailRows | src/main/java/org/apache/maven/plugin/trac/TracReportGenerator.java:168-237 | appends nothing for a null list; otherwise appends one row per issue, in list order, each with one cell per entry in `0..11`, then closes the table |
| TracReport.TracReportGenerator.SinkBeginReport | src/main/java/org/apache/maven/plugin/trac/TracReportGenerator.java:239-254 | appends the head with the bundle's title, then opens the body and the section and writes the section title |
| TracReport.TracReportGenerator.SinkEndReport | src/main/java/org/apache/maven/plugin/trac/TracReportGenerator.java:256-265 | appends the section and body closers, then the flush and the close |
| TracReport.TracReportGenerator.SinkHeader | src/main/java/org/apache/maven/plugin/trac/TracReportGenerator.java:276-283 | appends one header cell holding the text |
| TracReport.TracReportGenerator.SinkCell | src/main/java/org/apache/maven/plugin/trac/TracReportGenerator.java:285-299 | appends one cell holding the text, or the raw `&nbsp;` when the text is null |
| TracReport.TracReportGenerator.SinkSectionTitle1 | src/main/java/org/apache/maven/plugin/trac/TracReportGenerator.java:301-308 | appends one level-1 section title holding the text |
| ReportProperties.RecognisedBound | src/main/java/org/apache/maven/plugin/trac/TracReportGenerator.java:119-163 | no more columns are shown than there are entries, and exactly as many when every entry lies in `0..11` |
| ReportProperties.HeaderCellsRead | src/main/java/org/apache/maven/plugin/trac/TracReportGenerator.java:119-163 | read back from the trace, the header texts are the bundle labels of the entries in `0..11`, in column-order order |
| ReportProperties.ReadCellsAfterCell | src/main/java/org/apache/maven/plugin/trac/TracReportGenerator.java:285-299 | a cell written by `sinkCell` reads back as its text, or as the blank marker when the text is null |
| ReportProperties.ReadCellsAfterIdCell | src/main/java/org/apache/maven/plugin/trac/TracReportGenerator.java:187-193 | the id cell reads back as the ticket's id linked to its link |
| ReportProperties.DetailCellsRead | src/main/java/org/apache/maven/plugin/trac/TracReportGenerator.java:183-231 | read back from the trace, a detail row holds one cell per entry in `0..11`, in order, each showing that column's field of the ticket (dates and multi-valued fields as formatted) |
| ReportProperties.RowsMatchHeader | src/main/java/org/apache/maven/plugin/trac/TracReportGenerator.java:119-231 | every detail row has as many cells as the header row has header cells |
| ReportProperties.FrameHasNoTable | src/main/java/org/apache/maven/plugin/trac/TracReportGenerator.java:239-265 | the report frame contains no table event |
| ReportProperties.HeaderCellCount | src/main/java/org/apache/maven/plugin/trac/TracReportGenerator.java:276-283 | a header cell holds one header-cell opener and one closer, and no other table event |
| ReportProperties.CellCount | src/main/java/org/apache/maven/plugin/trac/TracReportGenerator.java:285-299 | a cell holds one cell opener and one closer, and no other table event |
| ReportProperties.IdCellCount | src/main/java/org/apache/maven/plugin/trac/TracReportGenerator.java:187-193 | the id cell holds one cell opener and one closer, and no other table event |
| ReportProperties.DetailCellCount | src/main/java/org/apache/maven/plugin/trac/TracReportGenerator.java:185-230 | an entry in `0..11` contributes one cell; any other entry contributes nothing |
| ReportProperties.HeaderCellsCount | src/main/java/org/apache/maven/plugin/trac/TracReportGenerator.java:119-163 | the header row holds one header cell per recognised entry |
| ReportProperties.DetailCellsCount | src/main/java/org/apache/maven/plugin/trac/TracReportGenerator.java:183-231 | a detail row holds one cell per recognised entry |
| ReportProperties.DetailRowCount | src/main/java/org/apache/maven/plugin/trac/TracReportGenerator.java:181-233 | a detail row is one row holding one cell per recognised entry |
| ReportProperties.DetailRowsCount | src/main/java/org/apache/maven/plugin/trac/TracReportGenerator.java:175-234 | n issues give n rows and n times the recognised entries many cells |
| ReportProperties.ReportTableCounts | src/main/java/org/apache/maven/plugin/trac/TracReportGenerator.java:97-237 | with n issues and c recognised entries, the report holds one table, n + 1 rows, c header cells and n·c cells (each opener and closer counted) |
| ReportProperties.ReportWithoutIssues | src/main/java/org/apache/maven/plugin/trac/TracReportGenerator.java:108-173 | a null issue list gives just the frame, with no table event |
| ReportProperties.EmptyReportHasNoTable | src/main/java/org/apache/maven/plugin/trac/TracReportGenerator.java:84-95 | the empty report has no table event but does hold the error text |
| ReportProperties.CellWellNested | src/main/java/org/apache/maven/plugin/trac/TracReportGenerator.java:285-299 | a cell is well nested |
| ReportProperties.IdCellWellNested | src/main/java/org/apache/maven/plugin/trac/TracReportGenerator.java:187-193 | the id cell's link sits inside the cell |
| ReportProperties.HeaderCellsWellNested | src/main/java/org/apache/maven/plugin/trac/TracReportGenerator.java:119-163 | the header cells are well nested |
| ReportProperties.DetailCellsWellNested | src/main/java/org/apache/maven/plugin/trac/TracReportGenerator.java:183-231 | the cells of a detail row are well nested |
| ReportProperties.DetailRowsWellNested | src/main/java/org/apache/maven/plugin/trac/TracReportGenerator.java:175-234 | the detail rows are well nested |
| ReportProperties.TableWellNested | src/main/java/org/apache/maven/plugin/trac/TracReportGenerator.java:108-237 | the table opened in `constructHeaderRow` is closed in `constructDetailRows`, and everything in between is well nested |
| ReportProperties.HeadWellNested | src/main/java/org/apache/maven/plugin/trac/TracReportGenerator.java:241-247 | the head is well nested |
| ReportProperties.BodyWellNested | src/main/java/org/apache/maven/plugin/trac/TracReportGenerator.java:249-260 | a well-nested content inside the body, the section and after the section title stays well nested |
| ReportProperties.FrameWellNested | src/main/java/org/apache/maven/plugin/trac/TracReportGenerator.java:239-265 | the frame around a well-nested content is well nested |
| ReportProperties.ReportWellNested | src/main/java/org/apache/maven/plugin/trac/TracReportGenerator.java:97-106 | every report, with or without an issue list, is well nested |
| ReportProperties.EmptyReportWellNested | src/main/java/org/apache/maven/plugin/trac/TracReportGenerator.java:84-95 | the empty report is well nested |

## Left out

- `EffectiveSettingsMojo`, the rest of the plugin and the Trac XML-RPC client are not part of this model.
- The concrete output of a Doxia sink (HTML, XDoc) is not modelled. A sink is the sequence of calls it receives, and `flush()` and `close()` are two more events.
- `sinkFigure` (lines 267-274) is not modelled: no method of the class calls it.
- The resource bundle is a total `string -> string` lookup. A missing key, which makes `getString` throw, is not modelled.
- `SimpleDateFormat` is an opaque parameter. So is `IssuesReportGenerator.printValues`, which is code outside this class. The model therefore does not capture an invalid date pattern, which throws `IllegalArgumentException` when the pattern is compiled on line 177. It also does not capture formatting a null date, which throws `NullPointerException`. A date is a plain value that is always present.
- A null `columnNames`, a null catalog `columns` and null entries in `columns` cannot be expressed in the model: strings and the catalog are plain values. In Java a null `columnNames` throws `NullPointerException` at line 57. A null `columns`, or a null entry of it, throws only when the loop at lines 64-67 dereferences it. With `columnNames = ","` there is no token, the loop never runs, and line 79 throws `MavenReportException`. With `columns = {"id", null}` and `"id"` the `break` at line 72 comes before the null entry, and construction succeeds with `[0]`. The catalog is a read-only sequence `seq<string>`: the constructor never writes to `String[] columns`.
- TracReport.TracReportGenerator.Create: a Java constructor that throws becomes a static method returning `Result`. `Failure` carries the exception's message, and `Success` carries the new generator. The anonymous Dafny constructor only stores the array.
- JavaText.EqualsIgnoreCase: folds only the ASCII letters. Java's `equalsIgnoreCase` also folds non-ASCII letters through `Character.toUpperCase` and `toLowerCase`, and that Unicode case table is not modelled.
- JavaText.Split: follows the code, which calls `String.split(",")`. A trailing comma therefore adds no entry: `"id,"` resolves to `[0]`, and `","` to no entry at all, so construction fails. Empty names between commas do stay, as entries of their own (`-1` unless the catalog holds an empty name).
- The generator's thread-safety and `List`'s raw (unchecked) element type are not modelled. Every element of the issue list is an `Issue`.
