/**
 * What the Trac report generator sends to its sink, as functions from the
 * column order, the issues and the collaborators to a trace of sink calls.
 */
module ReportTrace {
  import opened Wrappers
  import opened DoxiaSink

  /** A timestamp; its value is only ever handed to the date formatter. */
  type Date = int

  /** A Trac ticket as the report reads it; every text field may be null. */
  datatype Issue = Issue(
    id: Option<string>,
    link: Option<string>,
    issueType: Option<string>,
    summary: Option<string>,
    status: Option<string>,
    resolution: Option<string>,
    fixVersions: Option<seq<string>>,
    assignee: Option<string>,
    priority: Option<string>,
    reporter: Option<string>,
    components: Option<seq<string>>,
    created: Date,
    updated: Date)

  /** The localized resource bundle, as a key-to-text lookup. */
  type Bundle = string -> string

  /**
   * The formatting done by library code: `new SimpleDateFormat(pattern).format(date)`
   * and `IssuesReportGenerator.printValues(list)`.
   */
  datatype Formatting = Formatting(
    dateFormat: (string, Date) -> string,
    printValues: Option<seq<string>> -> Option<string>)

  const HEADER_KEY := "report.trac.header"
  const ERROR_KEY := "report.trac.error"
  const DATE_FORMAT_KEY := "report.trac.dateformat"
  const NO_VALUE := "&nbsp;"

  // The integer codes the column order uses for the catalog columns.
  const COLUMN_ID := 0
  const COLUMN_TYPE := 1
  const COLUMN_SUMMARY := 2
  const COLUMN_STATUS := 3
  const COLUMN_RESOLUTION := 4
  const COLUMN_MILESTONE := 5
  const COLUMN_OWNER := 6
  const COLUMN_PRIORITY := 7
  const COLUMN_REPORTER := 8
  const COLUMN_COMPONENT := 9
  const COLUMN_CREATED := 10
  const COLUMN_CHANGED := 11

  datatype Column =
    Id | Type | Summary | Status | Resolution | Milestone | Owner | Priority | Reporter | Component | Created | Changed

  /** The code of a column, as the `COLUMN_*` constants give it. */
  function Code(c: Column): (code: int)
    ensures 0 <= code < 12
  {
    match c
    case Id => COLUMN_ID
    case Type => COLUMN_TYPE
    case Summary => COLUMN_SUMMARY
    case Status => COLUMN_STATUS
    case Resolution => COLUMN_RESOLUTION
    case Milestone => COLUMN_MILESTONE
    case Owner => COLUMN_OWNER
    case Priority => COLUMN_PRIORITY
    case Reporter => COLUMN_REPORTER
    case Component => COLUMN_COMPONENT
    case Created => COLUMN_CREATED
    case Changed => COLUMN_CHANGED
  }

  /** The column a column-order entry selects: the `switch` over the codes; any other value selects none. */
  function ColumnOf(code: int): (c: Option<Column>)
    ensures c.Some? <==> 0 <= code < 12
    ensures c.Some? ==> Code(c.value) == code
  {
    if code == COLUMN_ID then Some(Id)
    else if code == COLUMN_TYPE then Some(Type)
    else if code == COLUMN_SUMMARY then Some(Summary)
    else if code == COLUMN_STATUS then Some(Status)
    else if code == COLUMN_RESOLUTION then Some(Resolution)
    else if code == COLUMN_MILESTONE then Some(Milestone)
    else if code == COLUMN_OWNER then Some(Owner)
    else if code == COLUMN_PRIORITY then Some(Priority)
    else if code == COLUMN_REPORTER then Some(Reporter)
    else if code == COLUMN_COMPONENT then Some(Component)
    else if code == COLUMN_CREATED then Some(Created)
    else if code == COLUMN_CHANGED then Some(Changed)
    else None
  }

  /** Every column is selected by its own code and by no other. */
  lemma CodeRoundTrip(c: Column)
    ensures ColumnOf(Code(c)) == Some(c)
  {
  }

  /** The resource key of a column's header label. */
  function LabelKey(c: Column): string
  {
    match c
    case Id => "report.trac.label.id"
    case Type => "report.trac.label.type"
    case Summary => "report.trac.label.summary"
    case Status => "report.trac.label.status"
    case Resolution => "report.trac.label.resolution"
    case Milestone => "report.trac.label.milestone"
    case Owner => "report.trac.label.owner"
    case Priority => "report.trac.label.priority"
    case Reporter => "report.trac.label.reporter"
    case Component => "report.trac.label.component"
    case Created => "report.trac.label.created"
    case Changed => "report.trac.label.changed"
  }

  /** Every column has a header label key of its own. */
  lemma LabelKeysDistinct(a: Column, b: Column)
    ensures LabelKey(a) == LabelKey(b) <==> a == b
  {
    // After the common prefix "report.trac.label.", the length and the first two letters tell the keys apart.
    if a != b {
      assert |LabelKey(a)| != |LabelKey(b)| || LabelKey(a)[18] != LabelKey(b)[18] || LabelKey(a)[19] != LabelKey(b)[19];
    }
  }

  // ---------------------------------------------------------------------
  // The small sink helpers
  // ---------------------------------------------------------------------

  /** sinkSectionTitle1: a level-1 section title holding `text`. */
  function SectionTitle(text: string): seq<Event>
  {
    [SectionTitle1, Text(Some(text)), SectionTitle1_]
  }

  /** sinkBeginReport: the head with its title, then the body and its section up to the section title. */
  function BeginReport(bundle: Bundle): seq<Event>
  {
    [Head, Title, Text(Some(bundle(HEADER_KEY))), Title_, Head_, Body, Section1]
      + SectionTitle(bundle(HEADER_KEY))
  }

  /** sinkEndReport: closes the section and the body, then flushes and closes the sink. */
  function EndReport(): seq<Event>
  {
    [Section1_, Body_, Flush, Close]
  }

  /** sinkHeader: one header cell holding `header`. */
  function HeaderCell(header: string): seq<Event>
  {
    [TableHeaderCell, Text(Some(header)), TableHeaderCell_]
  }

  /** sinkCell: one cell holding `text`, or the raw non-breaking space when `text` is null. */
  function Cell(text: Option<string>): seq<Event>
  {
    [TableCell, if text.Some? then Text(text) else RawText(NO_VALUE), TableCell_]
  }

  // ---------------------------------------------------------------------
  // constructHeaderRow
  // ---------------------------------------------------------------------

  /** The header cell of one column-order entry, or nothing for an entry that selects no column. */
  function ColumnHeader(code: int, bundle: Bundle): seq<Event>
  {
    match ColumnOf(code)
    case None => []
    case Some(c) => HeaderCell(bundle(LabelKey(c)))
  }

  /** The header cells for the entries of `order`, in order. */
  function HeaderCells(order: seq<int>, bundle: Bundle): seq<Event>
  {
    if order == [] then []
    else HeaderCells(order[..|order| - 1], bundle) + ColumnHeader(order[|order| - 1], bundle)
  }

  /** constructHeaderRow: opens the table and writes the header row; nothing when there are no issues. */
  function HeaderRow(order: seq<int>, issueList: Option<seq<Issue>>, bundle: Bundle): seq<Event>
  {
    if issueList.None? then []
    else [Table, TableRow] + HeaderCells(order, bundle) + [TableRow_]
  }

  // ---------------------------------------------------------------------
  // constructDetailRows
  // ---------------------------------------------------------------------

  /** The text shown for a column other than the id, formatting dates with `pattern`. */
  function FieldText(c: Column, issue: Issue, pattern: string, fmt: Formatting): Option<string>
    requires c != Id
  {
    match c
    case Type => issue.issueType
    case Summary => issue.summary
    case Owner => issue.assignee
    case Reporter => issue.reporter
    case Priority => issue.priority
    case Status => issue.status
    case Resolution => issue.resolution
    case Created => Some(fmt.dateFormat(pattern, issue.created))
    case Changed => Some(fmt.dateFormat(pattern, issue.updated))
    case Milestone => fmt.printValues(issue.fixVersions)
    case Component => fmt.printValues(issue.components)
  }

  /** The id cell: the id as a link to the ticket. */
  function IdCell(issue: Issue): seq<Event>
  {
    [TableCell, Link(issue.link), Text(issue.id), Link_, TableCell_]
  }

  /** The cell of one column-order entry in the row of `issue`, or nothing for an entry that selects no column. */
  function DetailCell(code: int, issue: Issue, pattern: string, fmt: Formatting): seq<Event>
  {
    match ColumnOf(code)
    case None => []
    case Some(c) => if c == Id then IdCell(issue) else Cell(FieldText(c, issue, pattern, fmt))
  }

  /** The cells of the row of `issue` for the entries of `order`, in order. */
  function DetailCells(order: seq<int>, issue: Issue, pattern: string, fmt: Formatting): seq<Event>
  {
    if order == [] then []
    else DetailCells(order[..|order| - 1], issue, pattern, fmt) + DetailCell(order[|order| - 1], issue, pattern, fmt)
  }

  /** The row of one issue; the date pattern is looked up afresh for every issue. */
  function DetailRow(order: seq<int>, issue: Issue, bundle: Bundle, fmt: Formatting): seq<Event>
  {
    [TableRow] + DetailCells(order, issue, bundle(DATE_FORMAT_KEY), fmt) + [TableRow_]
  }

  /** The rows of the issues, in list order. */
  function DetailRows(order: seq<int>, issues: seq<Issue>, bundle: Bundle, fmt: Formatting): seq<Event>
  {
    if issues == [] then []
    else DetailRows(order, issues[..|issues| - 1], bundle, fmt) + DetailRow(order, issues[|issues| - 1], bundle, fmt)
  }

  /** constructDetailRows: one row per issue, then the table is closed; nothing when there are no issues. */
  function DetailSection(order: seq<int>, issueList: Option<seq<Issue>>, bundle: Bundle, fmt: Formatting): seq<Event>
  {
    match issueList
    case None => []
    case Some(issues) => DetailRows(order, issues, bundle, fmt) + [Table_]
  }

  // ---------------------------------------------------------------------
  // The two reports
  // ---------------------------------------------------------------------

  /** doGenerateReport */
  function Report(order: seq<int>, issueList: Option<seq<Issue>>, bundle: Bundle, fmt: Formatting): seq<Event>
  {
    BeginReport(bundle) + HeaderRow(order, issueList, bundle) + DetailSection(order, issueList, bundle, fmt) + EndReport()
  }

  /** doGenerateEmptyReport: the report frame around one paragraph holding the error text. */
  function EmptyReport(bundle: Bundle): seq<Event>
  {
    BeginReport(bundle) + [Paragraph, Text(Some(bundle(ERROR_KEY))), Paragraph_] + EndReport()
  }
}
