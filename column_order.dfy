/**
 * Column-order resolution done by the TracReportGenerator constructor:
 * the configured column names are split on commas, each token is trimmed
 * and looked up, ignoring case, in the catalog of known column names.
 * The entry for a token is the index of the first catalog name it
 * matches, or -1 when it matches none. Construction fails when no token
 * matched at all.
 */
module ColumnOrder {
  import opened Wrappers
  import opened JavaText

  /** Index of the first catalog name equal to `name` ignoring case, or -1. */
  function FirstMatch(columns: seq<string>, name: string): (j: int)
    ensures -1 <= j < |columns|
  {
    if columns == [] then -1
    else if EqualsIgnoreCase(columns[0], name) then 0
    else
      var j := FirstMatch(columns[1..], name);
      if j == -1 then -1 else j + 1
  }

  /** FirstMatch finds a matching name with no match before it, and gives -1 exactly when no name matches. */
  lemma {:induction false} FirstMatchSpec(columns: seq<string>, name: string)
    ensures var j := FirstMatch(columns, name);
      (j >= 0 ==> EqualsIgnoreCase(columns[j], name)) &&
      (j >= 0 ==> forall k | 0 <= k < j :: !EqualsIgnoreCase(columns[k], name)) &&
      (j == -1 <==> forall k | 0 <= k < |columns| :: !EqualsIgnoreCase(columns[k], name))
  {
    if columns != [] && !EqualsIgnoreCase(columns[0], name) {
      var tail := columns[1..];
      FirstMatchSpec(tail, name);
      assert forall k | 1 <= k < |columns| :: columns[k] == tail[k - 1];
    }
  }

  /** A first match is the first match: a matching index with no earlier match is what FirstMatch gives. */
  lemma FirstMatchUnique(columns: seq<string>, name: string, j: int)
    requires 0 <= j < |columns| && EqualsIgnoreCase(columns[j], name)
    requires forall k | 0 <= k < j :: !EqualsIgnoreCase(columns[k], name)
    ensures FirstMatch(columns, name) == j
  {
    var f := FirstMatch(columns, name);
    FirstMatchSpec(columns, name);
    assert f != -1;
    assert !(f < j);
    assert !(j < f);
  }

  /** The column order for already-split tokens: one entry per token, in token order. */
  function OrderOf(tokens: seq<string>, columns: seq<string>): (order: seq<int>)
    ensures |order| == |tokens|
  {
    if tokens == [] then []
    else OrderOf(tokens[..|tokens| - 1], columns) + [FirstMatch(columns, Trim(tokens[|tokens| - 1]))]
  }

  /** Entry `i` of the column order is the first catalog match of the trimmed token `i`. */
  lemma {:induction false} OrderOfEntries(tokens: seq<string>, columns: seq<string>)
    ensures forall i | 0 <= i < |tokens| :: OrderOf(tokens, columns)[i] == FirstMatch(columns, Trim(tokens[i]))
  {
    if tokens != [] {
      var init := tokens[..|tokens| - 1];
      OrderOfEntries(init, columns);
      assert forall i | 0 <= i < |init| :: init[i] == tokens[i];
    }
  }

  /** How many entries of a column order name a catalog column. */
  function ValidCount(order: seq<int>): (n: nat)
    ensures n <= |order|
  {
    if order == [] then 0
    else ValidCount(order[..|order| - 1]) + (if order[|order| - 1] != -1 then 1 else 0)
  }

  /** No entry is valid exactly when every entry is -1. */
  lemma {:induction false} ValidCountZero(order: seq<int>)
    ensures ValidCount(order) == 0 <==> forall i | 0 <= i < |order| :: order[i] == -1
  {
    if order != [] {
      var init := order[..|order| - 1];
      ValidCountZero(init);
      assert forall i | 0 <= i < |init| :: init[i] == order[i];
    }
  }

  /** The message of the MavenReportException thrown when no name is valid. */
  function ErrorMessage(columnNames: string): string
  {
    "maven-changes-plugin: None of the configured columnNames '" + columnNames + "' are valid."
  }

  /** The constructor's outcome: the column order, or the error it throws. */
  function Resolve(columnNames: string, columns: seq<string>): (r: Result<seq<int>, string>)
  {
    var order := OrderOf(Split(columnNames), columns);
    if ValidCount(order) == 0 then Failure(ErrorMessage(columnNames)) else Success(order)
  }

  /** One entry per token of `columnNames.split(",")`, each the first catalog match of the trimmed token or -1. */
  lemma ResolveEntries(columnNames: string, columns: seq<string>)
    requires Resolve(columnNames, columns).Success?
    ensures var order, tokens := Resolve(columnNames, columns).value, Split(columnNames);
      |order| == |tokens| &&
      forall i | 0 <= i < |order| ::
        (order[i] == -1 <==> forall k | 0 <= k < |columns| :: !EqualsIgnoreCase(columns[k], Trim(tokens[i]))) &&
        (order[i] != -1 ==>
          0 <= order[i] < |columns| &&
          EqualsIgnoreCase(columns[order[i]], Trim(tokens[i])) &&
          forall k | 0 <= k < order[i] :: !EqualsIgnoreCase(columns[k], Trim(tokens[i])))
  {
    var tokens := Split(columnNames);
    OrderOfEntries(tokens, columns);
    forall i | 0 <= i < |tokens| {
      FirstMatchSpec(columns, Trim(tokens[i]));
    }
  }

  /** When every entry of the column order is -1, no token matches any catalog name. */
  lemma AllUnmatched(tokens: seq<string>, columns: seq<string>)
    requires forall i | 0 <= i < |tokens| :: OrderOf(tokens, columns)[i] == -1
    ensures forall i, k | 0 <= i < |tokens| && 0 <= k < |columns| :: !EqualsIgnoreCase(columns[k], Trim(tokens[i]))
  {
    OrderOfEntries(tokens, columns);
    forall i, k | 0 <= i < |tokens| && 0 <= k < |columns|
      ensures !EqualsIgnoreCase(columns[k], Trim(tokens[i]))
    {
      FirstMatchSpec(columns, Trim(tokens[i]));
    }
  }

  /** An entry other than -1 is the index of a catalog name the token matches. */
  lemma EntryMatches(tokens: seq<string>, columns: seq<string>, i: int)
    requires 0 <= i < |tokens| && OrderOf(tokens, columns)[i] != -1
    ensures var j := OrderOf(tokens, columns)[i]; 0 <= j < |columns| && EqualsIgnoreCase(columns[j], Trim(tokens[i]))
  {
    OrderOfEntries(tokens, columns);
    FirstMatchSpec(columns, Trim(tokens[i]));
  }

  /** Resolution fails exactly when no token matches any catalog name, and then names the configuration. */
  lemma ResolveFailure(columnNames: string, columns: seq<string>)
    ensures var tokens := Split(columnNames);
      Resolve(columnNames, columns).Failure? <==>
        forall i, k | 0 <= i < |tokens| && 0 <= k < |columns| :: !EqualsIgnoreCase(columns[k], Trim(tokens[i]))
    ensures Resolve(columnNames, columns).Failure? ==>
      Resolve(columnNames, columns) == Failure(ErrorMessage(columnNames))
  {
    var tokens := Split(columnNames);
    var order := OrderOf(tokens, columns);
    ValidCountZero(order);
    if ValidCount(order) == 0 {
      AllUnmatched(tokens, columns);
    } else {
      var i :| 0 <= i < |order| && order[i] != -1;
      EntryMatches(tokens, columns, i);
      assert EqualsIgnoreCase(columns[order[i]], Trim(tokens[i]));
    }
  }

  /** The error message quotes the configured string verbatim. */
  lemma ErrorMessageQuotesInput(columnNames: string)
    ensures var m, at := ErrorMessage(columnNames), |"maven-changes-plugin: None of the configured columnNames '"|;
      at + |columnNames| <= |m| && m[at..at + |columnNames|] == columnNames
  {
  }

  /** A column order computed token by token is what resolution returns, provided one entry is valid. */
  lemma ResolveFromMatches(columnNames: string, columns: seq<string>, tokens: seq<string>, expected: seq<int>, w: nat)
    requires Split(columnNames) == tokens
    requires |expected| == |tokens|
    requires forall i | 0 <= i < |tokens| :: FirstMatch(columns, Trim(tokens[i])) == expected[i]
    requires 0 <= w < |expected| && expected[w] != -1
    ensures Resolve(columnNames, columns) == Success(expected)
  {
    var order := OrderOf(tokens, columns);
    OrderOfEntries(tokens, columns);
    assert order == expected;
    ValidCountZero(order);
  }

  /** A configuration none of whose tokens is found makes resolution fail with the standard message. */
  lemma ResolveFromMisses(columnNames: string, columns: seq<string>, tokens: seq<string>)
    requires Split(columnNames) == tokens
    requires forall i | 0 <= i < |tokens| :: FirstMatch(columns, Trim(tokens[i])) == -1
    ensures Resolve(columnNames, columns) == Failure(ErrorMessage(columnNames))
  {
    var order := OrderOf(tokens, columns);
    OrderOfEntries(tokens, columns);
    ValidCountZero(order);
  }
}
