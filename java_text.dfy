/**
 * The three java.lang.String operations the column resolution relies on:
 * `split(",")`, `trim()` and `equalsIgnoreCase`, with Java's semantics.
 * Case folding is modelled over ASCII letters only.
 */
module JavaText {

  // ---------------------------------------------------------------------
  // split(",")
  // ---------------------------------------------------------------------

  /**
   * Every field of `s` between commas, empty ones included
   * (what `split(",", -1)` would return).
   */
  function Fields(s: string): (r: seq<string>)
    ensures |r| >= 1
  {
    if s == [] then [""]
    else
      assert s == [s[0]] + s[1..];
      if s[0] == ',' then [""] + Fields(s[1..])
      else
        var rest := Fields(s[1..]);
        [[s[0]] + rest[0]] + rest[1..]
  }

  /** There is one field more than there are commas, and no field holds a comma. */
  lemma {:induction false} FieldsShape(s: string)
    ensures |Fields(s)| == multiset(s)[','] + 1
    ensures forall t | t in Fields(s) :: ',' !in t
  {
    if s != [] {
      assert s == [s[0]] + s[1..];
      FieldsShape(s[1..]);
      var rest := Fields(s[1..]);
      if s[0] != ',' {
        assert rest[0] in rest;
        assert forall t | t in rest[1..] :: t in rest;
      }
    }
  }

  /** The fields written back with a comma between each two of them. */
  function Join(ts: seq<string>): string
  {
    if ts == [] then ""
    else if |ts| == 1 then ts[0]
    else ts[0] + "," + Join(ts[1..])
  }

  /** Joining a field in front of at least one more. */
  lemma JoinCons(a: string, rest: seq<string>)
    requires |rest| >= 1
    ensures Join([a] + rest) == a + "," + Join(rest)
  {
    assert ([a] + rest)[1..] == rest;
  }

  lemma GlueWithComma(c: char, a: string, b: string)
    ensures [c] + a + "," + b == [c] + (a + "," + b)
  {
  }

  /** Joining after a character was glued onto the first field. */
  lemma JoinGlue(c: char, rest: seq<string>)
    requires |rest| >= 1
    ensures Join([[c] + rest[0]] + rest[1..]) == [c] + Join(rest)
  {
    if |rest| == 1 {
      assert [[c] + rest[0]] + rest[1..] == [[c] + rest[0]];
    } else {
      JoinGlueOnto(c, rest[0], rest[1..]);
      assert [rest[0]] + rest[1..] == rest;
    }
  }

  lemma JoinGlueOnto(c: char, first: string, more: seq<string>)
    requires |more| >= 1
    ensures Join([[c] + first] + more) == [c] + Join([first] + more)
  {
    JoinCons([c] + first, more);
    JoinCons(first, more);
    GlueWithComma(c, first, Join(more));
  }

  /** Joining the fields gives back the string they were cut from. */
  lemma {:induction false} JoinFields(s: string)
    ensures Join(Fields(s)) == s
  {
    if s != [] {
      JoinFields(s[1..]);
      var rest := Fields(s[1..]);
      if s[0] == ',' {
        assert Fields(s) == [""] + rest;
        JoinCons("", rest);
        assert s == "," + s[1..];
      } else {
        assert Fields(s) == [[s[0]] + rest[0]] + rest[1..];
        JoinGlue(s[0], rest);
        assert s == [s[0]] + s[1..];
      }
    }
  }

  /** A comma-free prefix is glued onto the first field of what follows. */
  lemma {:induction false} FieldsOfPrefix(t: string, u: string)
    requires ',' !in t
    ensures Fields(t + u) == [t + Fields(u)[0]] + Fields(u)[1..]
  {
    if t != [] {
      assert (t + u)[1..] == t[1..] + u;
      assert (t + u)[0] == t[0] && t[0] != ',';
      assert t + u != [];
      FieldsOfPrefix(t[1..], u);
      var rest := Fields(t[1..] + u);
      assert Fields(t + u) == [[t[0]] + rest[0]] + rest[1..];
      assert rest[1..] == Fields(u)[1..];
      assert [t[0]] + (t[1..] + Fields(u)[0]) == t + Fields(u)[0];
    } else {
      assert t + u == u;
      assert t + Fields(u)[0] == Fields(u)[0];
      assert [t + Fields(u)[0]] + Fields(u)[1..] == Fields(u);
    }
  }

  /** Cutting a comma-joined list of comma-free tokens gives the tokens back. */
  lemma {:induction false} FieldsJoin(ts: seq<string>)
    requires |ts| >= 1
    requires forall t | t in ts :: ',' !in t
    ensures Fields(Join(ts)) == ts
  {
    if |ts| == 1 {
      FieldsOfPrefix(ts[0], "");
      assert ts[0] + "" == ts[0];
    } else {
      var tail := Join(ts[1..]);
      FieldsJoin(ts[1..]);
      assert Join(ts) == ts[0] + ("," + tail);
      FieldsOfPrefix(ts[0], "," + tail);
      assert ("," + tail)[1..] == tail;
      assert Fields("," + tail) == [""] + ts[1..];
      assert ts[0] + "" == ts[0];
    }
  }

  /** The tokens with the trailing run of empty strings removed. */
  function DropTrailingEmpty(ts: seq<string>): (r: seq<string>)
    ensures r <= ts
    ensures forall i | |r| <= i < |ts| :: ts[i] == ""
    ensures r == [] || r[|r| - 1] != ""
  {
    if ts != [] && ts[|ts| - 1] == "" then DropTrailingEmpty(ts[..|ts| - 1]) else ts
  }

  /**
   * `s.split(",")` in Java: when `s` holds no comma the result is `[s]`
   * (so `"".split(",")` is `[""]`); otherwise it is every field with the
   * trailing empty ones discarded (so `",".split(",")` is empty).
   */
  function Split(s: string): seq<string>
  {
    if ',' !in s then [s] else DropTrailingEmpty(Fields(s))
  }

  /**
   * The tokens of `s.split(",")` are its fields in order, no token holds
   * a comma, only empty fields are dropped, and only at the end.
   */
  lemma SplitShape(s: string)
    ensures Split(s) <= Fields(s)
    ensures forall i | |Split(s)| <= i < |Fields(s)| :: Fields(s)[i] == ""
    ensures ',' !in s ==> Split(s) == [s]
    ensures ',' in s ==> Split(s) == [] || Split(s)[|Split(s)| - 1] != ""
    ensures forall t | t in Split(s) :: ',' !in t
  {
    FieldsShape(s);
    if ',' !in s {
      JoinFields(s);
      assert multiset(s)[','] == 0;
    } else {
      var r := Split(s);
      assert forall t | t in r :: t in Fields(s) by {
        forall t | t in r ensures t in Fields(s) {
          var i :| 0 <= i < |r| && r[i] == t;
          assert Fields(s)[i] == t;
        }
      }
    }
  }

  /** Splitting undoes joining when no token holds a comma and the last one is not empty. */
  lemma SplitJoin(ts: seq<string>)
    requires |ts| >= 1
    requires forall t | t in ts :: ',' !in t
    requires |ts| == 1 || ts[|ts| - 1] != ""
    ensures Split(Join(ts)) == ts
  {
    FieldsJoin(ts);
    if |ts| > 1 {
      assert Join(ts) == ts[0] + "," + Join(ts[1..]);
      assert Join(ts)[|ts[0]|] == ',';
    }
  }

  /** `"".split(",")` is `[""]` and a string without commas is its own only token. */
  lemma SplitWithoutComma()
    ensures Split("") == [""]
    ensures Split("id") == ["id"]
  {
  }

  /** `",".split(",")` is empty: both of its fields are trailing empty ones. */
  lemma SplitLoneComma()
    ensures Split(",") == []
  {
    assert ',' in ",";
    assert Join(["", ""]) == ",";
    FieldsJoin(["", ""]);
    assert DropTrailingEmpty(["", ""]) == DropTrailingEmpty([""]);
  }

  /** The fields of `"id,,type,,"`. */
  lemma FieldsOfInnerEmpty()
    ensures Fields("id,,type,,") == ["id", "", "type", "", ""]
  {
    var ts := ["id", "", "type", "", ""];
    assert Join(ts[4..]) == "";
    assert Join(ts[3..]) == ",";
    assert Join(ts[2..]) == "type,,";
    assert Join(ts[1..]) == ",type,,";
    assert Join(ts) == "id,,type,,";
    FieldsJoin(ts);
  }

  /** Only the trailing run of empty tokens is dropped. */
  lemma DropTrailingEmptyExample()
    ensures DropTrailingEmpty(["id", "", "type", "", ""]) == ["id", "", "type"]
  {
    var ts := ["id", "", "type", "", ""];
    assert ts[..4] == ["id", "", "type", ""];
    assert ts[..4][..3] == ts[..3] == ["id", "", "type"];
    assert DropTrailingEmpty(ts[..3]) == ts[..3];
    assert DropTrailingEmpty(ts[..4]) == ts[..3];
    assert DropTrailingEmpty(ts) == ts[..3];
  }

  /** Empty fields inside the string are kept, the trailing ones are dropped. */
  lemma SplitKeepsInnerEmptyFields()
    ensures Split("id,,type,,") == ["id", "", "type"]
  {
    FieldsOfInnerEmpty();
    DropTrailingEmptyExample();
    assert "id,,type,,"[2] == ',';
  }

  // ---------------------------------------------------------------------
  // trim()
  // ---------------------------------------------------------------------

  /** A character `trim()` removes: every code point up to and including the space. */
  predicate IsBlank(c: char) { c <= ' ' }

  /** Number of blanks at the front of `s`. */
  function LeadingBlanks(s: string): (n: nat)
    ensures n <= |s|
    ensures forall i | 0 <= i < n :: IsBlank(s[i])
    ensures n < |s| ==> !IsBlank(s[n])
  {
    if s == [] || !IsBlank(s[0]) then 0 else 1 + LeadingBlanks(s[1..])
  }

  /** Length of `s` once the blanks at its end are cut off. */
  function EndOfContent(s: string): (n: nat)
    ensures n <= |s|
    ensures forall i | n <= i < |s| :: IsBlank(s[i])
    ensures n > 0 ==> !IsBlank(s[n - 1])
  {
    if s == [] || !IsBlank(s[|s| - 1]) then |s| else EndOfContent(s[..|s| - 1])
  }

  /** `s.trim()`: `s` without its leading and trailing blanks. */
  function Trim(s: string): (r: string)
    ensures r == [] || (!IsBlank(r[0]) && !IsBlank(r[|r| - 1]))
    ensures LeadingBlanks(s) + |r| <= |s|
    ensures r == s[LeadingBlanks(s)..LeadingBlanks(s) + |r|]
    ensures forall i | LeadingBlanks(s) + |r| <= i < |s| :: IsBlank(s[i])
  {
    var tail := s[LeadingBlanks(s)..];
    tail[..EndOfContent(tail)]
  }

  /** Trimming twice is trimming once; a string with non-blank ends is its own trim. */
  lemma TrimIdempotent(s: string)
    ensures Trim(Trim(s)) == Trim(s)
  {
    var r := Trim(s);
    assert LeadingBlanks(r) == 0;
    assert EndOfContent(r) == |r|;
  }

  /** `trim()` only ever removes blanks: a string that is all blanks trims to "". */
  lemma TrimAllBlank(s: string)
    requires forall i | 0 <= i < |s| :: IsBlank(s[i])
    ensures Trim(s) == ""
  {
  }

  // ---------------------------------------------------------------------
  // equalsIgnoreCase
  // ---------------------------------------------------------------------

  function ToUpper(c: char): char
  {
    if 'a' <= c <= 'z' then (c as int - 'a' as int + 'A' as int) as char else c
  }

  function ToLower(c: char): char
  {
    if 'A' <= c <= 'Z' then (c as int - 'A' as int + 'a' as int) as char else c
  }

  /** The per-character test of `String.regionMatches(true, ...)`. */
  predicate CharEqualsIgnoreCase(a: char, b: char)
  {
    a == b || ToUpper(a) == ToUpper(b) || ToLower(ToUpper(a)) == ToLower(ToUpper(b))
  }

  /** The case-folded form of a character: every letter in lower case. */
  function Fold(c: char): (f: char)
    ensures !('A' <= f <= 'Z')
    ensures 'a' <= c <= 'z' || 'A' <= c <= 'Z' ==> 'a' <= f <= 'z'
    ensures !('a' <= c <= 'z' || 'A' <= c <= 'Z') ==> f == c
  {
    ToLower(c)
  }

  /** `a.equalsIgnoreCase(b)` for a non-null `b`: same length, and equal ignoring case character by character. */
  predicate EqualsIgnoreCase(a: string, b: string)
  {
    |a| == |b| && (a == [] || (CharEqualsIgnoreCase(a[0], b[0]) && EqualsIgnoreCase(a[1..], b[1..])))
  }

  /** equalsIgnoreCase compares the positions one by one. */
  lemma {:induction false} EqualsIgnoreCaseAt(a: string, b: string)
    ensures EqualsIgnoreCase(a, b) <==>
      |a| == |b| && forall i | 0 <= i < |a| :: CharEqualsIgnoreCase(a[i], b[i])
  {
    if |a| == |b| && a != [] {
      EqualsIgnoreCaseAt(a[1..], b[1..]);
      assert forall i | 1 <= i < |a| :: a[1..][i - 1] == a[i] && b[1..][i - 1] == b[i];
    }
  }

  /** Two characters are equal ignoring case exactly when their folded forms agree. */
  lemma CharEqualsIgnoreCaseIsFolding(a: char, b: char)
    ensures CharEqualsIgnoreCase(a, b) <==> Fold(a) == Fold(b)
  {
  }

  /** equalsIgnoreCase is an equivalence: reflexive, symmetric and transitive. */
  lemma {:induction false} EqualsIgnoreCaseEquivalence(a: string, b: string, c: string)
    ensures EqualsIgnoreCase(a, a)
    ensures EqualsIgnoreCase(a, b) ==> EqualsIgnoreCase(b, a)
    ensures EqualsIgnoreCase(a, b) && EqualsIgnoreCase(b, c) ==> EqualsIgnoreCase(a, c)
  {
    EqualsIgnoreCaseAt(a, a);
    EqualsIgnoreCaseAt(a, b);
    EqualsIgnoreCaseAt(b, a);
    EqualsIgnoreCaseAt(b, c);
    EqualsIgnoreCaseAt(a, c);
    if EqualsIgnoreCase(a, b) && EqualsIgnoreCase(b, c) {
      forall i | 0 <= i < |a| ensures CharEqualsIgnoreCase(a[i], c[i]) {
        CharEqualsIgnoreCaseIsFolding(a[i], b[i]);
        CharEqualsIgnoreCaseIsFolding(b[i], c[i]);
        CharEqualsIgnoreCaseIsFolding(a[i], c[i]);
      }
    }
  }
}
