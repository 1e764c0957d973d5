/**
 * Properties of the Trac report traces: what a reader of the trace gets
 * back (header labels and cell contents, column by column), how many
 * tables, rows and cells it holds, that every element opened is closed,
 * and what the report without issues and the error report look like.
 */
module ReportProperties {
  import opened Wrappers
  import opened DoxiaSink
  import opened ReportTrace

  /** The columns a column order selects, in order: entries outside 0..11 are skipped. */
  function Recognised(order: seq<int>): seq<Column>
  {
    if order == [] then []
    else
      Recognised(order[..|order| - 1]) +
        match ColumnOf(order[|order| - 1]) case None => [] case Some(c) => [c]
  }

  /** One column is recognised per entry between 0 and 11. */
  lemma {:induction false} RecognisedBound(order: seq<int>)
    ensures |Recognised(order)| <= |order|
    ensures |Recognised(order)| == |order| <==> forall i | 0 <= i < |order| :: 0 <= order[i] < 12
  {
    if order != [] {
      var init := order[..|order| - 1];
      RecognisedBound(init);
      assert forall i | 0 <= i < |init| :: init[i] == order[i];
    }
  }

  // ---------------------------------------------------------------------
  // Reading the header row and the detail rows back
  // ---------------------------------------------------------------------

  /** The labels of a run of header cells, or None when the trace is not such a run. */
  function ReadHeaderCells(t: seq<Event>): Option<seq<string>>
  {
    if t == [] then Some([])
    else if |t| >= 3 && t[|t| - 3] == TableHeaderCell && t[|t| - 2].Text? && t[|t| - 2].text.Some?
      && t[|t| - 1] == TableHeaderCell_
    then
      match ReadHeaderCells(t[..|t| - 3])
      case None => None
      case Some(hs) => Some(hs + [t[|t| - 2].text.value])
    else None
  }

  /** What a reader sees in one cell. `Shown(None)` is the placeholder for a null value. */
  datatype CellContent = Linked(link: Option<string>, text: Option<string>) | Shown(text: Option<string>)

  /** The contents of a run of cells, or None when the trace is not such a run. */
  function ReadCells(t: seq<Event>): Option<seq<CellContent>>
  {
    if t == [] then Some([])
    else if |t| >= 3 && t[|t| - 3] == TableCell && t[|t| - 1] == TableCell_
      && ((t[|t| - 2].Text? && t[|t| - 2].text.Some?) || t[|t| - 2] == RawText(NO_VALUE))
    then
      match ReadCells(t[..|t| - 3])
      case None => None
      case Some(cs) => Some(cs + [Shown(if t[|t| - 2].Text? then t[|t| - 2].text else None)])
    else if |t| >= 5 && t[|t| - 5] == TableCell && t[|t| - 4].Link? && t[|t| - 3].Text?
      && t[|t| - 2] == Link_ && t[|t| - 1] == TableCell_
    then
      match ReadCells(t[..|t| - 5])
      case None => None
      case Some(cs) => Some(cs + [Linked(t[|t| - 4].name, t[|t| - 3].text)])
    else None
  }

  /** Reading a plain cell after a run of cells. */
  lemma ReadCellsAfterCell(before: seq<Event>, text: Option<string>)
    requires ReadCells(before).Some?
    ensures ReadCells(before + Cell(text)) == Some(ReadCells(before).value + [Shown(text)])
  {
    var t := before + Cell(text);
    assert t[..|t| - 3] == before;
  }

  /** Reading an id cell after a run of cells. */
  lemma ReadCellsAfterIdCell(before: seq<Event>, issue: Issue)
    requires ReadCells(before).Some?
    ensures ReadCells(before + IdCell(issue)) == Some(ReadCells(before).value + [Linked(issue.link, issue.id)])
  {
    var t := before + IdCell(issue);
    assert t[..|t| - 5] == before;
  }

  /** What the cell of column `c` must show for `issue`: the linked id, or the field's text (None for null). */
  function Expected(c: Column, issue: Issue, pattern: string, fmt: Formatting): CellContent
  {
    if c == Id then Linked(issue.link, issue.id) else Shown(FieldText(c, issue, pattern, fmt))
  }

  /**
   * The header row holds one header cell per recognised column, in
   * column-order order, labelled with that column's resource text.
   */
  lemma {:induction false} HeaderCellsRead(order: seq<int>, bundle: Bundle)
    ensures var hs, cols := ReadHeaderCells(HeaderCells(order, bundle)), Recognised(order);
      hs.Some? && |hs.value| == |cols| &&
      forall i | 0 <= i < |cols| :: hs.value[i] == bundle(LabelKey(cols[i]))
  {
    if order != [] {
      var init := order[..|order| - 1];
      HeaderCellsRead(init, bundle);
      var before := HeaderCells(init, bundle);
      match ColumnOf(order[|order| - 1])
      case None =>
        assert HeaderCells(order, bundle) == before;
        assert Recognised(order) == Recognised(init);
      case Some(c) =>
        var t := HeaderCells(order, bundle);
        assert t == before + HeaderCell(bundle(LabelKey(c)));
        assert t[..|t| - 3] == before;
        assert Recognised(order) == Recognised(init) + [c];
    }
  }

  /**
   * The row of an issue holds one cell per recognised column, in
   * column-order order: the linked id for the id column, otherwise the
   * column's value, with the placeholder where the value is null.
   */
  lemma {:induction false} DetailCellsRead(order: seq<int>, issue: Issue, pattern: string, fmt: Formatting)
    ensures var cs, cols := ReadCells(DetailCells(order, issue, pattern, fmt)), Recognised(order);
      cs.Some? && |cs.value| == |cols| &&
      forall i | 0 <= i < |cols| :: cs.value[i] == Expected(cols[i], issue, pattern, fmt)
  {
    if order != [] {
      var init := order[..|order| - 1];
      DetailCellsRead(init, issue, pattern, fmt);
      var before := DetailCells(init, issue, pattern, fmt);
      match ColumnOf(order[|order| - 1])
      case None =>
        assert DetailCells(order, issue, pattern, fmt) == before;
        assert Recognised(order) == Recognised(init);
      case Some(c) =>
        assert Recognised(order) == Recognised(init) + [c];
        if c == Id {
          ReadCellsAfterIdCell(before, issue);
        } else {
          ReadCellsAfterCell(before, FieldText(c, issue, pattern, fmt));
        }
    }
  }

  /** Every detail row has exactly as many cells as the header row has header cells. */
  lemma RowsMatchHeader(order: seq<int>, issue: Issue, bundle: Bundle, fmt: Formatting)
    ensures ReadCells(DetailCells(order, issue, bundle(DATE_FORMAT_KEY), fmt)).Some?
    ensures ReadHeaderCells(HeaderCells(order, bundle)).Some?
    ensures |ReadCells(DetailCells(order, issue, bundle(DATE_FORMAT_KEY), fmt)).value|
         == |ReadHeaderCells(HeaderCells(order, bundle)).value|
         == |Recognised(order)|
  {
    HeaderCellsRead(order, bundle);
    DetailCellsRead(order, issue, bundle(DATE_FORMAT_KEY), fmt);
  }

  // ---------------------------------------------------------------------
  // Tables, rows and cells counted
  // ---------------------------------------------------------------------

  /** The events that belong to a table. */
  predicate IsTableEvent(e: Event)
  {
    e.Table? || e.Table_? || e.TableRow? || e.TableRow_? ||
    e.TableHeaderCell? || e.TableHeaderCell_? || e.TableCell? || e.TableCell_?
  }

  /** How often the table event `e` occurs in a table of `rows` detail rows and `columns` recognised columns. */
  function TableCount(e: Event, rows: nat, columns: nat): nat
    requires IsTableEvent(e)
  {
    if e.Table? || e.Table_? then 1
    else if e.TableRow? || e.TableRow_? then rows + 1
    else if e.TableHeaderCell? || e.TableHeaderCell_? then columns
    else rows * columns
  }

  /** The report's frame holds no table event. */
  lemma FrameHasNoTable(bundle: Bundle, e: Event)
    requires IsTableEvent(e)
    ensures Occurrences(BeginReport(bundle), e) == 0 && Occurrences(EndReport(), e) == 0
  {
    OccurrencesAbsent(BeginReport(bundle), e);
    OccurrencesAbsent(EndReport(), e);
  }

  lemma HeaderCellCount(header: string, e: Event)
    requires IsTableEvent(e)
    ensures Occurrences(HeaderCell(header), e) == if e.TableHeaderCell? || e.TableHeaderCell_? then 1 else 0
  {
    OccurrencesOfThree(TableHeaderCell, Text(Some(header)), TableHeaderCell_, e);
  }

  lemma CellCount(text: Option<string>, e: Event)
    requires IsTableEvent(e)
    ensures Occurrences(Cell(text), e) == if e.TableCell? || e.TableCell_? then 1 else 0
  {
    OccurrencesOfThree(TableCell, if text.Some? then Text(text) else RawText(NO_VALUE), TableCell_, e);
  }

  lemma IdCellCount(issue: Issue, e: Event)
    requires IsTableEvent(e)
    ensures Occurrences(IdCell(issue), e) == if e.TableCell? || e.TableCell_? then 1 else 0
  {
    var link := [Link(issue.link), Text(issue.id), Link_];
    OccurrencesOfThree(Link(issue.link), Text(issue.id), Link_, e);
    assert Occurrences(link, e) == 0;
    OccurrencesOne(TableCell, e);
    OccurrencesOne(TableCell_, e);
    OccurrencesConcat([TableCell], link, e);
    OccurrencesConcat([TableCell] + link, [TableCell_], e);
    assert IdCell(issue) == [TableCell] + link + [TableCell_];
  }

  lemma DetailCellCount(code: int, issue: Issue, pattern: string, fmt: Formatting, e: Event)
    requires IsTableEvent(e)
    ensures Occurrences(DetailCell(code, issue, pattern, fmt), e) ==
      if ColumnOf(code).Some? && (e.TableCell? || e.TableCell_?) then 1 else 0
  {
    match ColumnOf(code)
    case None =>
    case Some(c) =>
      if c == Id { IdCellCount(issue, e); } else { CellCount(FieldText(c, issue, pattern, fmt), e); }
  }

  /** A header row's cells: one header cell per recognised column, and no other table event. */
  lemma {:induction false} HeaderCellsCount(order: seq<int>, bundle: Bundle, e: Event)
    requires IsTableEvent(e)
    ensures Occurrences(HeaderCells(order, bundle), e) ==
      if e.TableHeaderCell? || e.TableHeaderCell_? then |Recognised(order)| else 0
  {
    if order != [] {
      var init := order[..|order| - 1];
      HeaderCellsCount(init, bundle, e);
      OccurrencesConcat(HeaderCells(init, bundle), ColumnHeader(order[|order| - 1], bundle), e);
      match ColumnOf(order[|order| - 1])
      case None =>
      case Some(c) => HeaderCellCount(bundle(LabelKey(c)), e);
    }
  }

  /** A detail row's cells: one cell per recognised column, and no other table event. */
  lemma {:induction false} DetailCellsCount(order: seq<int>, issue: Issue, pattern: string, fmt: Formatting, e: Event)
    requires IsTableEvent(e)
    ensures Occurrences(DetailCells(order, issue, pattern, fmt), e) ==
      if e.TableCell? || e.TableCell_? then |Recognised(order)| else 0
  {
    if order != [] {
      var init := order[..|order| - 1];
      var last := order[|order| - 1];
      DetailCellsCount(init, issue, pattern, fmt, e);
      DetailCellCount(last, issue, pattern, fmt, e);
      OccurrencesConcat(DetailCells(init, issue, pattern, fmt), DetailCell(last, issue, pattern, fmt), e);
      assert |Recognised(order)| == |Recognised(init)| + if ColumnOf(last).Some? then 1 else 0;
    }
  }

  /** One detail row: the row opener and closer around one cell per recognised column. */
  lemma DetailRowCount(order: seq<int>, issue: Issue, bundle: Bundle, fmt: Formatting, e: Event)
    requires IsTableEvent(e)
    ensures Occurrences(DetailRow(order, issue, bundle, fmt), e) ==
      if e.TableRow? || e.TableRow_? then 1
      else if e.TableCell? || e.TableCell_? then |Recognised(order)|
      else 0
  {
    var cells := DetailCells(order, issue, bundle(DATE_FORMAT_KEY), fmt);
    DetailCellsCount(order, issue, bundle(DATE_FORMAT_KEY), fmt, e);
    OccurrencesOne(TableRow, e);
    OccurrencesOne(TableRow_, e);
    OccurrencesConcat([TableRow], cells, e);
    OccurrencesConcat([TableRow] + cells, [TableRow_], e);
  }

  lemma MultiplyStep(n: nat, k: nat)
    ensures (n + 1) * k == n * k + k
  {
  }

  /** The detail rows: one row per issue, each with one cell per recognised column. */
  lemma {:induction false} DetailRowsCount(order: seq<int>, issues: seq<Issue>, bundle: Bundle, fmt: Formatting, e: Event)
    requires IsTableEvent(e)
    ensures Occurrences(DetailRows(order, issues, bundle, fmt), e) ==
      if e.TableRow? || e.TableRow_? then |issues|
      else if e.TableCell? || e.TableCell_? then |issues| * |Recognised(order)|
      else 0
  {
    if issues != [] {
      var init := issues[..|issues| - 1];
      var issue := issues[|issues| - 1];
      DetailRowsCount(order, init, bundle, fmt, e);
      DetailRowCount(order, issue, bundle, fmt, e);
      OccurrencesConcat(DetailRows(order, init, bundle, fmt), DetailRow(order, issue, bundle, fmt), e);
      MultiplyStep(|init|, |Recognised(order)|);
    }
  }

  /** The header row's own events around its cells, counted. */
  lemma OccurrencesInHeaderRow(header: seq<Event>, e: Event)
    ensures Occurrences([Table, TableRow] + header + [TableRow_], e) == Occurrences(header, e) +
      (if e == Table then 1 else 0) + (if e == TableRow then 1 else 0) + (if e == TableRow_ then 1 else 0)
  {
    OccurrencesOne(Table, e);
    OccurrencesOne(TableRow, e);
    OccurrencesOne(TableRow_, e);
    OccurrencesConcat([Table], [TableRow], e);
    assert [Table] + [TableRow] == [Table, TableRow];
    OccurrencesConcat([Table, TableRow], header, e);
    OccurrencesConcat([Table, TableRow] + header, [TableRow_], e);
  }

  /** Counting through the layout of a report with a table: the frame, the table's own events and its parts. */
  lemma OccurrencesInTableLayout(begin: seq<Event>, header: seq<Event>, rows: seq<Event>, end: seq<Event>, e: Event)
    ensures Occurrences(begin + ([Table, TableRow] + header + [TableRow_]) + (rows + [Table_]) + end, e) ==
      Occurrences(begin, e) + Occurrences(header, e) + Occurrences(rows, e) + Occurrences(end, e) +
      (if e == Table then 1 else 0) + (if e == TableRow then 1 else 0) +
      (if e == TableRow_ then 1 else 0) + (if e == Table_ then 1 else 0)
  {
    var headerRow := [Table, TableRow] + header + [TableRow_];
    OccurrencesInHeaderRow(header, e);
    OccurrencesOne(Table_, e);
    OccurrencesConcat(rows, [Table_], e);
    OccurrencesConcat(begin, headerRow, e);
    OccurrencesConcat(begin + headerRow, rows + [Table_], e);
    OccurrencesConcat(begin + headerRow + (rows + [Table_]), end, e);
  }

  lemma ReportTableCounts(order: seq<int>, issues: seq<Issue>, bundle: Bundle, fmt: Formatting, e: Event)
    requires IsTableEvent(e)
    ensures Occurrences(Report(order, Some(issues), bundle, fmt), e) == TableCount(e, |issues|, |Recognised(order)|)
  {
    FrameHasNoTable(bundle, e);
    HeaderCellsCount(order, bundle, e);
    DetailRowsCount(order, issues, bundle, fmt, e);
    OccurrencesInTableLayout(BeginReport(bundle), HeaderCells(order, bundle), DetailRows(order, issues, bundle, fmt), EndReport(), e);
  }

  /** Without a list of issues (the tracker gave none) the report is its frame alone: no table at all. */
  lemma ReportWithoutIssues(order: seq<int>, bundle: Bundle, fmt: Formatting)
    ensures Report(order, None, bundle, fmt) == BeginReport(bundle) + EndReport()
    ensures forall e | e in Report(order, None, bundle, fmt) :: !IsTableEvent(e)
  {
    assert Report(order, None, bundle, fmt) == BeginReport(bundle) + [] + [] + EndReport();
  }

  /** The error report holds the error text in a paragraph, and no table. */
  lemma EmptyReportHasNoTable(bundle: Bundle)
    ensures forall e | e in EmptyReport(bundle) :: !IsTableEvent(e)
    ensures Text(Some(bundle(ERROR_KEY))) in EmptyReport(bundle)
  {
    var paragraph := [Paragraph, Text(Some(bundle(ERROR_KEY))), Paragraph_];
    assert EmptyReport(bundle)[|BeginReport(bundle)| + 1] == paragraph[1];
  }

  // ---------------------------------------------------------------------
  // Every element opened is closed
  // ---------------------------------------------------------------------

  lemma CellWellNested(text: Option<string>)
    ensures WellNested(Cell(text))
  {
    var x := if text.Some? then Text(text) else RawText(NO_VALUE);
    WellNestedLeaf(x);
    WellNestedWrap(TableCell, [x], TableCell_);
    assert Cell(text) == [TableCell] + [x] + [TableCell_];
  }

  lemma IdCellWellNested(issue: Issue)
    ensures WellNested(IdCell(issue))
  {
    WellNestedLeaf(Text(issue.id));
    WellNestedWrap(Link(issue.link), [Text(issue.id)], Link_);
    var link := [Link(issue.link)] + [Text(issue.id)] + [Link_];
    WellNestedWrap(TableCell, link, TableCell_);
    assert IdCell(issue) == [TableCell] + link + [TableCell_];
  }

  lemma {:induction false} HeaderCellsWellNested(order: seq<int>, bundle: Bundle)
    ensures WellNested(HeaderCells(order, bundle))
  {
    if order != [] {
      HeaderCellsWellNested(order[..|order| - 1], bundle);
      match ColumnOf(order[|order| - 1])
      case None =>
        assert ColumnHeader(order[|order| - 1], bundle) == [];
        assert HeaderCells(order, bundle) == HeaderCells(order[..|order| - 1], bundle);
      case Some(c) =>
        var h := bundle(LabelKey(c));
        WellNestedLeaf(Text(Some(h)));
        WellNestedWrap(TableHeaderCell, [Text(Some(h))], TableHeaderCell_);
        assert HeaderCell(h) == [TableHeaderCell] + [Text(Some(h))] + [TableHeaderCell_];
        WellNestedConcat(HeaderCells(order[..|order| - 1], bundle), HeaderCell(h));
    }
  }

  lemma {:induction false} DetailCellsWellNested(order: seq<int>, issue: Issue, pattern: string, fmt: Formatting)
    ensures WellNested(DetailCells(order, issue, pattern, fmt))
  {
    if order != [] {
      var init := order[..|order| - 1];
      DetailCellsWellNested(init, issue, pattern, fmt);
      var last := DetailCell(order[|order| - 1], issue, pattern, fmt);
      match ColumnOf(order[|order| - 1])
      case None =>
        assert last == [];
        assert DetailCells(order, issue, pattern, fmt) == DetailCells(init, issue, pattern, fmt);
      case Some(c) =>
        if c == Id { IdCellWellNested(issue); } else { CellWellNested(FieldText(c, issue, pattern, fmt)); }
        WellNestedConcat(DetailCells(init, issue, pattern, fmt), last);
    }
  }

  lemma {:induction false} DetailRowsWellNested(order: seq<int>, issues: seq<Issue>, bundle: Bundle, fmt: Formatting)
    ensures WellNested(DetailRows(order, issues, bundle, fmt))
  {
    if issues != [] {
      var init := issues[..|issues| - 1];
      var issue := issues[|issues| - 1];
      DetailRowsWellNested(order, init, bundle, fmt);
      DetailCellsWellNested(order, issue, bundle(DATE_FORMAT_KEY), fmt);
      WellNestedWrap(TableRow, DetailCells(order, issue, bundle(DATE_FORMAT_KEY), fmt), TableRow_);
      WellNestedConcat(DetailRows(order, init, bundle, fmt), DetailRow(order, issue, bundle, fmt));
    }
  }

  /** A table around a header row and detail rows that are each well nested. */
  lemma TableLayoutWellNested(header: seq<Event>, rows: seq<Event>)
    requires WellNested(header) && WellNested(rows)
    ensures WellNested(([Table, TableRow] + header + [TableRow_]) + (rows + [Table_]))
  {
    WellNestedWrap(TableRow, header, TableRow_);
    WellNestedConcat([TableRow] + header + [TableRow_], rows);
    WellNestedWrap(Table, [TableRow] + header + [TableRow_] + rows, Table_);
    assert ([Table, TableRow] + header + [TableRow_]) + (rows + [Table_])
      == [Table] + ([TableRow] + header + [TableRow_] + rows) + [Table_];
  }

  /** The table part of a report (empty when there are no issues) is well nested. */
  lemma TableWellNested(order: seq<int>, issueList: Option<seq<Issue>>, bundle: Bundle, fmt: Formatting)
    ensures WellNested(HeaderRow(order, issueList, bundle) + DetailSection(order, issueList, bundle, fmt))
  {
    match issueList
    case None =>
      assert HeaderRow(order, issueList, bundle) + DetailSection(order, issueList, bundle, fmt) == [];
    case Some(issues) =>
      HeaderCellsWellNested(order, bundle);
      DetailRowsWellNested(order, issues, bundle, fmt);
      TableLayoutWellNested(HeaderCells(order, bundle), DetailRows(order, issues, bundle, fmt));
  }

  /** The report's head: its title inside the head element. */
  lemma HeadWellNested(title: string)
    ensures WellNested([Head, Title, Text(Some(title)), Title_, Head_])
  {
    WellNestedLeaf(Text(Some(title)));
    WellNestedWrap(Title, [Text(Some(title))], Title_);
    var inner := [Title] + [Text(Some(title))] + [Title_];
    WellNestedWrap(Head, inner, Head_);
    assert [Head] + inner + [Head_] == [Head, Title, Text(Some(title)), Title_, Head_];
  }

  /** The report's body: the section with its title, then `content`. */
  lemma BodyWellNested(title: string, content: seq<Event>)
    requires WellNested(content)
    ensures WellNested([Body, Section1] + SectionTitle(title) + content + [Section1_, Body_])
  {
    WellNestedLeaf(Text(Some(title)));
    WellNestedWrap(SectionTitle1, [Text(Some(title))], SectionTitle1_);
    assert SectionTitle(title) == [SectionTitle1] + [Text(Some(title))] + [SectionTitle1_];
    WellNestedConcat(SectionTitle(title), content);
    var section := [Section1] + (SectionTitle(title) + content) + [Section1_];
    WellNestedWrap(Section1, SectionTitle(title) + content, Section1_);
    WellNestedWrap(Body, section, Body_);
    assert [Body] + section + [Body_] == [Body, Section1] + SectionTitle(title) + content + [Section1_, Body_];
  }

  /** Whatever well-nested content goes between the report's beginning and end, the whole is well nested. */
  lemma FrameWellNested(bundle: Bundle, content: seq<Event>)
    requires WellNested(content)
    ensures WellNested(BeginReport(bundle) + content + EndReport())
  {
    var title := bundle(HEADER_KEY);
    var head := [Head, Title, Text(Some(title)), Title_, Head_];
    var body := [Body, Section1] + SectionTitle(title) + content + [Section1_, Body_];
    HeadWellNested(title);
    BodyWellNested(title, content);
    WellNestedConcat(head, body);
    WellNestedLeaf(Flush);
    WellNestedLeaf(Close);
    WellNestedConcat([Flush], [Close]);
    assert [Flush] + [Close] == [Flush, Close];
    WellNestedConcat(head + body, [Flush, Close]);
    assert BeginReport(bundle) + content + EndReport() == (head + body) + [Flush, Close];
  }

  /** Every element the report opens is closed, in nested order. */
  lemma ReportWellNested(order: seq<int>, issueList: Option<seq<Issue>>, bundle: Bundle, fmt: Formatting)
    ensures WellNested(Report(order, issueList, bundle, fmt))
  {
    var table := HeaderRow(order, issueList, bundle) + DetailSection(order, issueList, bundle, fmt);
    TableWellNested(order, issueList, bundle, fmt);
    FrameWellNested(bundle, table);
    assert Report(order, issueList, bundle, fmt) == BeginReport(bundle) + table + EndReport();
  }

  /** Every element the error report opens is closed, in nested order. */
  lemma EmptyReportWellNested(bundle: Bundle)
    ensures WellNested(EmptyReport(bundle))
  {
    var error := Text(Some(bundle(ERROR_KEY)));
    WellNestedLeaf(error);
    WellNestedWrap(Paragraph, [error], Paragraph_);
    assert [Paragraph] + [error] + [Paragraph_] == [Paragraph, error, Paragraph_];
    FrameWellNested(bundle, [Paragraph, error, Paragraph_]);
  }
}
