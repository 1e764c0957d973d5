/**
 * Column resolution worked through on a three-name catalog: case and
 * surrounding blanks are ignored, unknown names become -1 markers,
 * duplicates are kept, and a configuration with no known name fails.
 */
module ColumnOrderExamples {
  import opened Wrappers
  import opened JavaText
  import opened ColumnOrder

  const Catalog: seq<string> := ["id", "type", "summary"]

  lemma CatalogLookups()
    ensures FirstMatch(Catalog, "id") == 0
    ensures FirstMatch(Catalog, "ID") == 0
    ensures FirstMatch(Catalog, "type") == 1
  {
    FirstMatchUnique(Catalog, "id", 0);
    assert EqualsIgnoreCase("id", "ID");
    FirstMatchUnique(Catalog, "ID", 0);
    FirstMatchUnique(Catalog, "type", 1);
  }

  lemma CatalogLookupsMixedCase()
    ensures FirstMatch(Catalog, "TYPE") == 1
    ensures FirstMatch(Catalog, "summary") == 2
    ensures FirstMatch(Catalog, "Summary") == 2
  {
    assert EqualsIgnoreCase("type", "TYPE");
    FirstMatchUnique(Catalog, "TYPE", 1);
    FirstMatchUnique(Catalog, "summary", 2);
    assert EqualsIgnoreCase("summary", "Summary");
    FirstMatchUnique(Catalog, "Summary", 2);
  }

  lemma CatalogMisses()
    ensures FirstMatch(Catalog, "bogus") == -1
    ensures FirstMatch(Catalog, "bogus1") == -1
    ensures FirstMatch(Catalog, "bogus2") == -1
  {
  }

  lemma TrimExamples()
    ensures Trim(" id ") == "id"
    ensures Trim(" TYPE") == "TYPE"
    ensures Trim("Summary ") == "Summary"
  {
    assert LeadingBlanks(" id ") == 1;
    assert LeadingBlanks(" TYPE") == 1;
  }

  lemma TrimUnpadded()
    ensures Trim("id") == "id" && Trim("ID") == "ID"
    ensures Trim("type") == "type" && Trim("summary") == "summary"
  {
  }

  lemma TrimUnpaddedUnknown()
    ensures Trim("bogus") == "bogus" && Trim("bogus1") == "bogus1" && Trim("bogus2") == "bogus2"
  {
  }

  lemma SplitSpaced()
    ensures Split(" id , TYPE,Summary ") == [" id ", " TYPE", "Summary "]
  {
    assert Join([" id ", " TYPE", "Summary "]) == " id , TYPE,Summary ";
    SplitJoin([" id ", " TYPE", "Summary "]);
  }

  lemma SplitPlain()
    ensures Split("id,type,summary") == ["id", "type", "summary"]
  {
    assert Join(["id", "type", "summary"]) == "id,type,summary";
    SplitJoin(["id", "type", "summary"]);
  }

  lemma SplitWithUnknown()
    ensures Split("id,bogus,type") == ["id", "bogus", "type"]
  {
    assert Join(["id", "bogus", "type"]) == "id,bogus,type";
    SplitJoin(["id", "bogus", "type"]);
  }

  lemma SplitDuplicate()
    ensures Split("id,ID") == ["id", "ID"]
  {
    assert Join(["id", "ID"]) == "id,ID";
    SplitJoin(["id", "ID"]);
  }

  lemma SplitUnknownOnly()
    ensures Split("bogus1,bogus2") == ["bogus1", "bogus2"]
  {
    assert Join(["bogus1", "bogus2"]) == "bogus1,bogus2";
    SplitJoin(["bogus1", "bogus2"]);
  }

  lemma SplitTrailingComma()
    ensures Split("id,") == ["id"]
  {
    var fields := ["id", ""];
    assert Join(fields) == "id,";
    FieldsJoin(fields);
    assert "id,"[2] == ',';
    assert DropTrailingEmpty(fields) == DropTrailingEmpty(fields[..1]);
    assert fields[..1] == ["id"];
  }

  /** `" id , TYPE,Summary "` resolves to the first three columns. */
  lemma SpacedMixedCaseNames()
    ensures Resolve(" id , TYPE,Summary ", Catalog) == Success([0, 1, 2])
  {
    var tokens, expected := [" id ", " TYPE", "Summary "], [0, 1, 2];
    SplitSpaced();
    TrimExamples();
    CatalogLookups();
    CatalogLookupsMixedCase();
    forall i | 0 <= i < 3 ensures FirstMatch(Catalog, Trim(tokens[i])) == expected[i] {
      if i == 0 {} else if i == 1 {} else {}
    }
    ResolveFromMatches(" id , TYPE,Summary ", Catalog, tokens, expected, 0);
  }

  /** `"id,type,summary"` resolves to the same columns as its padded, mixed-case form. */
  lemma PlainNames()
    ensures Resolve("id,type,summary", Catalog) == Success([0, 1, 2])
  {
    var tokens, expected := ["id", "type", "summary"], [0, 1, 2];
    SplitPlain();
    TrimUnpadded();
    CatalogLookups();
    CatalogLookupsMixedCase();
    forall i | 0 <= i < 3 ensures FirstMatch(Catalog, Trim(tokens[i])) == expected[i] {
      if i == 0 {} else if i == 1 {} else {}
    }
    ResolveFromMatches("id,type,summary", Catalog, tokens, expected, 0);
  }

  /** An unknown name in the middle keeps its place as a -1 marker. */
  lemma UnknownNameIsOmitted()
    ensures Resolve("id,bogus,type", Catalog) == Success([0, -1, 1])
  {
    var tokens, expected := ["id", "bogus", "type"], [0, -1, 1];
    SplitWithUnknown();
    TrimUnpadded();
    TrimUnpaddedUnknown();
    CatalogLookups();
    CatalogMisses();
    forall i | 0 <= i < 3 ensures FirstMatch(Catalog, Trim(tokens[i])) == expected[i] {
      if i == 0 {} else if i == 1 {} else {}
    }
    ResolveFromMatches("id,bogus,type", Catalog, tokens, expected, 0);
  }

  /** A name given twice is resolved twice. */
  lemma DuplicateNamesAreKept()
    ensures Resolve("id,ID", Catalog) == Success([0, 0])
  {
    var tokens := ["id", "ID"];
    SplitDuplicate();
    TrimUnpadded();
    CatalogLookups();
    forall i | 0 <= i < 2 ensures FirstMatch(Catalog, Trim(tokens[i])) == [0, 0][i] {
      if i == 0 {} else {}
    }
    ResolveFromMatches("id,ID", Catalog, tokens, [0, 0], 0);
  }

  /** A trailing comma adds no entry: Java's split drops the trailing empty token. */
  lemma TrailingCommaAddsNoEntry()
    ensures Resolve("id,", Catalog) == Success([0])
  {
    SplitTrailingComma();
    TrimUnpadded();
    CatalogLookups();
    ResolveFromMatches("id,", Catalog, ["id"], [0], 0);
  }

  /** No known name at all: construction fails, quoting the configuration. */
  lemma AllNamesUnknownFails()
    ensures Resolve("bogus1,bogus2", Catalog) == Failure(ErrorMessage("bogus1,bogus2"))
  {
    var tokens := ["bogus1", "bogus2"];
    SplitUnknownOnly();
    TrimUnpaddedUnknown();
    CatalogMisses();
    forall i | 0 <= i < 2 ensures FirstMatch(Catalog, Trim(tokens[i])) == -1 {
      if i == 0 {} else {}
    }
    ResolveFromMisses("bogus1,bogus2", Catalog, tokens);
  }
}
