/**
 * The Trac report generator itself: an object holding the resolved column
 * order, built by the constructor's nested lookup loops, and the methods that
 * drive a sink.  Every method is proved against the functions of
 * `ColumnOrder` and `ReportTrace`.
 */
module TracReport {
  import opened Wrappers
  import opened JavaText
  import opened ColumnOrder
  import opened DoxiaSink
  import opened ReportTrace

  class TracReportGenerator {
    /** For every configured name, the index of its catalog column, or -1. */
    var columnOrder: array<int>

    constructor (order: array<int>)
      ensures columnOrder == order
    {
      columnOrder := order;
    }

    /**
     * The Java constructor: splits `columnNames` on commas, looks every
     * trimmed name up in `columns` ignoring case, and fails with the
     * MavenReportException message when no name is found.
     */
    static method Create(columnNames: string, columns: seq<string>) returns (r: Result<TracReportGenerator, string>)
      ensures match Resolve(columnNames, columns)
        case Failure(message) => r == Failure(message)
        case Success(order) => r.Success? && fresh(r.value) && fresh(r.value.columnOrder) && r.value.columnOrder[..] == order
    {
      var columnNamesArray := Split(columnNames);
      var validColumnNames := 0;
      var order := new int[|columnNamesArray|];
      // The entries resolved so far, as a value.
      ghost var resolved: seq<int> := [];
      for i := 0 to order.Length
        invariant |resolved| == i && forall k | 0 <= k < i :: order[k] == resolved[k]
        invariant resolved == OrderOf(columnNamesArray[..i], columns)
        invariant validColumnNames == ValidCount(resolved)
      {
        ghost var name := Trim(columnNamesArray[i]);
        // Default to -1: the name selects no column.
        order[i] := -1;
        var columnIndex := 0;
        while columnIndex < |columns|
          invariant 0 <= columnIndex <= |columns|
          invariant forall k | 0 <= k < i :: order[k] == resolved[k]
          invariant order[i] == -1
          invariant NoMatchBefore(columns, name, columnIndex)
        {
          var columnName := Trim(columnNamesArray[i]);
          if EqualsIgnoreCase(columns[columnIndex], columnName) {
            order[i] := columnIndex;
            validColumnNames := validColumnNames + 1;
            break;
          }
          NoMatchBeforeStep(columns, name, columnIndex);
          columnIndex := columnIndex + 1;
        }
        InnerLoopResult(columns, name, order[i]);
        LookupStep(columnNamesArray, columns, i, resolved, order[i], validColumnNames);
        MirrorStep(order, resolved, i);
        resolved := resolved + [order[i]];
      }
      ArrayHolds(order, resolved);
      ResolveOutcome(columnNames, columns, resolved);
      if validColumnNames == 0 {
        r := Failure(ErrorMessage(columnNames));
        return;
      }
      var generator := new TracReportGenerator(order);
      r := Success(generator);
    }

    /** doGenerateEmptyReport: the report frame around the error paragraph. */
    method DoGenerateEmptyReport(bundle: Bundle, sink: Sink)
      modifies sink
      ensures sink.events == old(sink.events) + EmptyReport(bundle)
    {
      SinkBeginReport(sink, bundle);
      sink.Emit(Paragraph);
      sink.Emit(Text(Some(bundle(ERROR_KEY))));
      sink.Emit(Paragraph_);
      SinkEndReport(sink);
    }

    /** doGenerateReport: the report frame around the header row and the detail rows. */
    method DoGenerateReport(bundle: Bundle, sink: Sink, issueList: Option<seq<Issue>>, fmt: Formatting)
      modifies sink
      ensures sink.events == old(sink.events) + Report(columnOrder[..], issueList, bundle, fmt)
    {
      ghost var start := sink.events;
      SinkBeginReport(sink, bundle);
      ConstructHeaderRow(sink, issueList, bundle);
      ConstructDetailRows(sink, issueList, bundle, fmt);
      SinkEndReport(sink);
      AppendFour(start, BeginReport(bundle), HeaderRow(columnOrder[..], issueList, bundle),
        DetailSection(columnOrder[..], issueList, bundle, fmt), EndReport());
    }

    /** constructHeaderRow: opens the table and writes one header cell per recognised entry. */
    method ConstructHeaderRow(sink: Sink, issueList: Option<seq<Issue>>, bundle: Bundle)
      modifies sink
      ensures sink.events == old(sink.events) + HeaderRow(columnOrder[..], issueList, bundle)
    {
      if issueList.None? {
        return;
      }
      ghost var order := columnOrder[..];
      sink.Emit(Table);
      sink.Emit(TableRow);
      ghost var start := sink.events;
      for columnIndex := 0 to columnOrder.Length
        invariant sink.events == start + HeaderCells(order[..columnIndex], bundle)
      {
        ghost var before := sink.events;
        match ColumnOf(columnOrder[columnIndex]) {
          case None =>
          case Some(c) => SinkHeader(sink, bundle(LabelKey(c)));
        }
        assert sink.events == before + ColumnHeader(order[columnIndex], bundle);
        HeaderCellsStep(start, before, order, columnIndex, bundle);
      }
      sink.Emit(TableRow_);
      HeaderRowClosed(old(sink.events), order, issueList, bundle);
    }

    /** constructDetailRows: one row per issue with one cell per recognised entry, then closes the table. */
    method ConstructDetailRows(sink: Sink, issueList: Option<seq<Issue>>, bundle: Bundle, fmt: Formatting)
      modifies sink
      ensures sink.events == old(sink.events) + DetailSection(columnOrder[..], issueList, bundle, fmt)
    {
      if issueList.None? {
        return;
      }
      ghost var order := columnOrder[..];
      var issues := issueList.value;
      for idx := 0 to |issues|
        invariant sink.events == old(sink.events) + DetailRows(order, issues[..idx], bundle, fmt)
      {
        var pattern := bundle(DATE_FORMAT_KEY);
        var issue := issues[idx];
        ghost var rowStart := sink.events;
        sink.Emit(TableRow);
        ghost var cellsStart := sink.events;
        for columnIndex := 0 to columnOrder.Length
          invariant sink.events == cellsStart + DetailCells(order[..columnIndex], issue, pattern, fmt)
        {
          ghost var before := sink.events;
          match ColumnOf(columnOrder[columnIndex]) {
            case None =>
            case Some(c) =>
              if c == Id {
                sink.Emit(TableCell);
                sink.Emit(Link(issue.link));
                sink.Emit(Text(issue.id));
                sink.Emit(Link_);
                sink.Emit(TableCell_);
                IdCellEmitted(before, issue);
              } else {
                SinkCell(sink, FieldText(c, issue, pattern, fmt));
              }
              SelectedCell(columnOrder[columnIndex], c, issue, pattern, fmt);
          }
          assert sink.events == before + DetailCell(order[columnIndex], issue, pattern, fmt);
          DetailCellsStep(cellsStart, before, order, columnIndex, issue, pattern, fmt);
        }
        sink.Emit(TableRow_);
        DetailRowClosed(old(sink.events), rowStart, order, issues, idx, bundle, fmt);
      }
      sink.Emit(Table_);
      DetailSectionClosed(old(sink.events), order, issues, bundle, fmt);
    }

    /** sinkBeginReport */
    method SinkBeginReport(sink: Sink, bundle: Bundle)
      modifies sink
      ensures sink.events == old(sink.events) + BeginReport(bundle)
    {
      sink.Emit(Head);
      sink.Emit(Title);
      sink.Emit(Text(Some(bundle(HEADER_KEY))));
      sink.Emit(Title_);
      sink.Emit(Head_);
      sink.Emit(Body);
      sink.Emit(Section1);
      SinkSectionTitle1(sink, bundle(HEADER_KEY));
    }

    /** sinkEndReport */
    method SinkEndReport(sink: Sink)
      modifies sink
      ensures sink.events == old(sink.events) + EndReport()
    {
      sink.Emit(Section1_);
      sink.Emit(Body_);
      sink.Emit(Flush);
      sink.Emit(Close);
    }

    /** sinkHeader */
    method SinkHeader(sink: Sink, header: string)
      modifies sink
      ensures sink.events == old(sink.events) + HeaderCell(header)
    {
      sink.Emit(TableHeaderCell);
      sink.Emit(Text(Some(header)));
      sink.Emit(TableHeaderCell_);
    }

    /** sinkCell: a null text becomes the raw non-breaking space. */
    method SinkCell(sink: Sink, text: Option<string>)
      modifies sink
      ensures sink.events == old(sink.events) + Cell(text)
    {
      sink.Emit(TableCell);
      if text.Some? {
        sink.Emit(Text(text));
      } else {
        sink.Emit(RawText(NO_VALUE));
      }
      sink.Emit(TableCell_);
    }

    /** sinkSectionTitle1 */
    method SinkSectionTitle1(sink: Sink, text: string)
      modifies sink
      ensures sink.events == old(sink.events) + SectionTitle(text)
    {
      sink.Emit(SectionTitle1);
      sink.Emit(Text(Some(text)));
      sink.Emit(SectionTitle1_);
    }
  }

  // ---------------------------------------------------------------------
  // One loop iteration, in terms of the specification functions
  // ---------------------------------------------------------------------

  /** Extending the mirror of the first `i` entries by entry `i` keeps it a mirror. */
  lemma MirrorStep(a: array<int>, values: seq<int>, i: int)
    requires 0 <= i < a.Length && |values| == i
    requires forall k | 0 <= k < i :: a[k] == values[k]
    ensures forall k | 0 <= k < i + 1 :: a[k] == (values + [a[i]])[k]
  {
  }

  /** An array that agrees with `values` at every index holds `values`. */
  lemma ArrayHolds(a: array<int>, values: seq<int>)
    requires |values| == a.Length && forall k | 0 <= k < a.Length :: a[k] == values[k]
    ensures a[..] == values
  {
  }

  /** None of the first `n` catalog columns matches `name`. */
  predicate NoMatchBefore(columns: seq<string>, name: string, n: int)
    requires 0 <= n <= |columns|
  {
    forall k | 0 <= k < n :: !EqualsIgnoreCase(columns[k], name)
  }

  lemma NoMatchBeforeStep(columns: seq<string>, name: string, n: int)
    requires 0 <= n < |columns| && NoMatchBefore(columns, name, n) && !EqualsIgnoreCase(columns[n], name)
    ensures NoMatchBefore(columns, name, n + 1)
  {
  }

  /** What the inner loop leaves in a name's entry, whether it breaks at a match or runs out, is the name's first match. */
  lemma InnerLoopResult(columns: seq<string>, name: string, entry: int)
    requires -1 <= entry < |columns|
    requires entry == -1 ==> NoMatchBefore(columns, name, |columns|)
    requires entry != -1 ==> NoMatchBefore(columns, name, entry) && EqualsIgnoreCase(columns[entry], name)
    ensures entry == FirstMatch(columns, name)
  {
    if entry != -1 {
      FirstMatchUnique(columns, name, entry);
    }
  }

  /** One name resolved: the column order and the count of valid names both grow by that name's entry. */
  lemma LookupStep(tokens: seq<string>, columns: seq<string>, i: nat, done: seq<int>, entry: int, valid: int)
    requires i < |tokens| && done == OrderOf(tokens[..i], columns)
    requires entry == FirstMatch(columns, Trim(tokens[i]))
    requires valid == ValidCount(done) + if entry != -1 then 1 else 0
    ensures done + [entry] == OrderOf(tokens[..i + 1], columns)
    ensures valid == ValidCount(done + [entry])
  {
    OrderOfStep(tokens, columns, i);
    ValidCountStep(done, entry);
  }

  lemma OrderOfStep(tokens: seq<string>, columns: seq<string>, i: nat)
    requires i < |tokens|
    ensures OrderOf(tokens[..i + 1], columns) == OrderOf(tokens[..i], columns) + [FirstMatch(columns, Trim(tokens[i]))]
  {
    assert tokens[..i + 1][..i] == tokens[..i];
  }

  lemma ValidCountStep(done: seq<int>, entry: int)
    ensures ValidCount(done + [entry]) == ValidCount(done) + if entry != -1 then 1 else 0
  {
    assert (done + [entry])[..|done|] == done;
  }

  /** The constructor's outcome, once every name is resolved. */
  lemma ResolveOutcome(columnNames: string, columns: seq<string>, order: seq<int>)
    requires |order| == |Split(columnNames)| && order == OrderOf(Split(columnNames)[..|order|], columns)
    ensures Resolve(columnNames, columns) ==
      if ValidCount(order) == 0 then Failure(ErrorMessage(columnNames)) else Success(order)
  {
    assert Split(columnNames)[..|order|] == Split(columnNames);
  }

  /** One more header cell written. */
  lemma HeaderCellsStep(s: seq<Event>, before: seq<Event>, order: seq<int>, i: nat, bundle: Bundle)
    requires i < |order| && before == s + HeaderCells(order[..i], bundle)
    ensures before + ColumnHeader(order[i], bundle) == s + HeaderCells(order[..i + 1], bundle)
  {
    assert order[..i + 1][..i] == order[..i];
  }

  /** The header row once its last cell is written and the row closed. */
  lemma HeaderRowClosed(s: seq<Event>, order: seq<int>, issueList: Option<seq<Issue>>, bundle: Bundle)
    requires issueList.Some?
    ensures s + [Table] + [TableRow] + HeaderCells(order[..|order|], bundle) + [TableRow_] == s + HeaderRow(order, issueList, bundle)
  {
    assert order[..|order|] == order;
  }

  /** One more detail cell written. */
  lemma DetailCellsStep(s: seq<Event>, before: seq<Event>, order: seq<int>, i: nat, issue: Issue, pattern: string, fmt: Formatting)
    requires i < |order| && before == s + DetailCells(order[..i], issue, pattern, fmt)
    ensures before + DetailCell(order[i], issue, pattern, fmt) == s + DetailCells(order[..i + 1], issue, pattern, fmt)
  {
    assert order[..i + 1][..i] == order[..i];
  }

  /** The id cell, written one call at a time. */
  lemma IdCellEmitted(before: seq<Event>, issue: Issue)
    ensures before + [TableCell] + [Link(issue.link)] + [Text(issue.id)] + [Link_] + [TableCell_] == before + IdCell(issue)
  {
    var cell := IdCell(issue);
    assert before + [TableCell] + [Link(issue.link)] + [Text(issue.id)] + [Link_] + [TableCell_] == before + cell by {
      assert [TableCell] + [Link(issue.link)] + [Text(issue.id)] + [Link_] + [TableCell_] == cell;
    }
  }

  /** The cell a recognised entry selects. */
  lemma SelectedCell(code: int, c: Column, issue: Issue, pattern: string, fmt: Formatting)
    requires ColumnOf(code) == Some(c)
    ensures DetailCell(code, issue, pattern, fmt) == if c == Id then IdCell(issue) else Cell(FieldText(c, issue, pattern, fmt))
  {
  }

  /** One more detail row written and closed. */
  lemma DetailRowClosed(s: seq<Event>, rowStart: seq<Event>, order: seq<int>, issues: seq<Issue>, i: nat,
                        bundle: Bundle, fmt: Formatting)
    requires i < |issues| && rowStart == s + DetailRows(order, issues[..i], bundle, fmt)
    ensures rowStart + [TableRow] + DetailCells(order[..|order|], issues[i], bundle(DATE_FORMAT_KEY), fmt) + [TableRow_]
      == s + DetailRows(order, issues[..i + 1], bundle, fmt)
  {
    assert order[..|order|] == order;
    var written := issues[..i + 1];
    assert written[..i] == issues[..i] && written[i] == issues[i];
    assert DetailRows(order, written, bundle, fmt) ==
      DetailRows(order, issues[..i], bundle, fmt) + DetailRow(order, issues[i], bundle, fmt);
    AppendRow(s, DetailRows(order, issues[..i], bundle, fmt), DetailCells(order, issues[i], bundle(DATE_FORMAT_KEY), fmt));
  }

  lemma AppendRow(s: seq<Event>, rows: seq<Event>, cells: seq<Event>)
    ensures (s + rows) + [TableRow] + cells + [TableRow_] == s + (rows + ([TableRow] + cells + [TableRow_]))
  {
  }

  /** The detail rows once every issue is written and the table closed. */
  lemma DetailSectionClosed(s: seq<Event>, order: seq<int>, issues: seq<Issue>, bundle: Bundle, fmt: Formatting)
    ensures s + DetailRows(order, issues[..|issues|], bundle, fmt) + [Table_] == s + DetailSection(order, Some(issues), bundle, fmt)
  {
    assert issues[..|issues|] == issues;
  }

  lemma AppendFour(s: seq<Event>, a: seq<Event>, b: seq<Event>, c: seq<Event>, d: seq<Event>)
    ensures s + a + b + c + d == s + (a + b + c + d)
  {
  }
}
