/**
 * The Doxia document sink, reduced to the calls the Trac report makes.
 * A sink is modelled by the trace of calls it has received: each call
 * appends one event. Events ending in `_` are the closing calls
 * (`table_()` closes `table()`, and so on).
 */
module DoxiaSink {
  import opened Wrappers

  datatype Event =
    | Head | Head_
    | Title | Title_
    | Body | Body_
    | Section1 | Section1_
    | SectionTitle1 | SectionTitle1_
    | Paragraph | Paragraph_
    | Table | Table_
    | TableRow | TableRow_
    | TableHeaderCell | TableHeaderCell_
    | TableCell | TableCell_
    | Link(name: Option<string>) | Link_
    | Text(text: Option<string>)
    | RawText(raw: string)
    | Flush
    | Close

  /** True of the calls that close an element. */
  predicate IsCloser(e: Event)
  {
    e.Head_? || e.Title_? || e.Body_? || e.Section1_? || e.SectionTitle1_? || e.Paragraph_? ||
    e.Table_? || e.TableRow_? || e.TableHeaderCell_? || e.TableCell_? || e.Link_?
  }

  /** The call that closes the element `e` opens, if `e` opens one. */
  function CloserOf(e: Event): (r: Option<Event>)
    ensures r.Some? ==> IsCloser(r.value) && !IsCloser(e)
    ensures IsCloser(e) ==> r.None?
  {
    match e
    case Head => Some(Head_)
    case Title => Some(Title_)
    case Body => Some(Body_)
    case Section1 => Some(Section1_)
    case SectionTitle1 => Some(SectionTitle1_)
    case Paragraph => Some(Paragraph_)
    case Table => Some(Table_)
    case TableRow => Some(TableRow_)
    case TableHeaderCell => Some(TableHeaderCell_)
    case TableCell => Some(TableCell_)
    case Link(_) => Some(Link_)
    case _ => None
  }

  /**
   * Reads the trace `t` with `pending` the closers still expected,
   * innermost first. Gives the closers still expected at the end, or
   * None when a closer arrives that is not the one expected.
   */
  function Nest(t: seq<Event>, pending: seq<Event>): Option<seq<Event>>
  {
    if t == [] then Some(pending)
    else
      var e := t[0];
      match CloserOf(e)
      case Some(c) => Nest(t[1..], [c] + pending)
      case None =>
        if !IsCloser(e) then Nest(t[1..], pending)
        else if pending != [] && pending[0] == e then Nest(t[1..], pending[1..])
        else None
  }

  /** Every element the trace opens it closes, in properly nested order. */
  predicate WellNested(t: seq<Event>)
  {
    Nest(t, []) == Some([])
  }

  /** Reading a concatenation is reading the first part, then the second. */
  lemma {:induction false} NestAppend(a: seq<Event>, b: seq<Event>, pending: seq<Event>)
    ensures Nest(a + b, pending) ==
      match Nest(a, pending)
      case None => None
      case Some(p) => Nest(b, p)
  {
    if a != [] {
      assert (a + b)[0] == a[0] && (a + b)[1..] == a[1..] + b;
      match CloserOf(a[0])
      case Some(c) => NestAppend(a[1..], b, [c] + pending);
      case None =>
        if !IsCloser(a[0]) {
          NestAppend(a[1..], b, pending);
        } else if pending != [] && pending[0] == a[0] {
          NestAppend(a[1..], b, pending[1..]);
        }
    } else {
      assert a + b == b;
    }
  }

  /** Closers expected from outside the trace are left untouched by it. */
  lemma {:induction false} NestExtend(t: seq<Event>, pending: seq<Event>, outer: seq<Event>)
    requires Nest(t, pending).Some?
    ensures Nest(t, pending + outer) == Some(Nest(t, pending).value + outer)
  {
    if t != [] {
      match CloserOf(t[0])
      case Some(c) =>
        NestExtend(t[1..], [c] + pending, outer);
        assert [c] + (pending + outer) == ([c] + pending) + outer;
      case None =>
        if !IsCloser(t[0]) {
          NestExtend(t[1..], pending, outer);
        } else {
          assert (pending + outer)[1..] == pending[1..] + outer;
          NestExtend(t[1..], pending[1..], outer);
        }
    }
  }

  /** Two well-nested traces one after the other are well nested. */
  lemma WellNestedConcat(a: seq<Event>, b: seq<Event>)
    requires WellNested(a) && WellNested(b)
    ensures WellNested(a + b)
  {
    NestAppend(a, b, []);
  }

  /** An opener, a well-nested trace and the matching closer are well nested. */
  lemma WellNestedWrap(open: Event, t: seq<Event>, close: Event)
    requires CloserOf(open) == Some(close)
    requires WellNested(t)
    ensures WellNested([open] + t + [close])
  {
    var w := [open] + t + [close];
    assert w[0] == open && w[1..] == t + [close];
    assert [close] + [] == [close];
    assert Nest(w, []) == Nest(t + [close], [close]);
    NestAppend(t, [close], [close]);
    NestExtend(t, [], [close]);
    assert [] + [close] == [close];
    assert Nest(t, [close]) == Some([close]);
    assert [close][1..] == [];
    assert Nest([close], [close]) == Some([]);
  }

  /** Events that neither open nor close an element are well nested alone. */
  lemma WellNestedLeaf(e: Event)
    requires CloserOf(e).None? && !IsCloser(e)
    ensures WellNested([e])
  {
    assert [e][1..] == [];
  }

  /** How many times `e` occurs in the trace `t`. */
  function Occurrences(t: seq<Event>, e: Event): nat
  {
    if t == [] then 0 else Occurrences(t[..|t| - 1], e) + (if t[|t| - 1] == e then 1 else 0)
  }

  /** Occurrences add up over a concatenation. */
  lemma {:induction false} OccurrencesConcat(a: seq<Event>, b: seq<Event>, e: Event)
    ensures Occurrences(a + b, e) == Occurrences(a, e) + Occurrences(b, e)
  {
    if b != [] {
      assert (a + b)[..|a + b| - 1] == a + b[..|b| - 1];
      OccurrencesConcat(a, b[..|b| - 1], e);
    } else {
      assert a + b == a;
    }
  }

  /** An event that is not in the trace occurs in it zero times. */
  lemma {:induction false} OccurrencesAbsent(t: seq<Event>, e: Event)
    requires e !in t
    ensures Occurrences(t, e) == 0
  {
    if t != [] {
      assert forall x | x in t[..|t| - 1] :: x in t;
      OccurrencesAbsent(t[..|t| - 1], e);
    }
  }

  /** A one-event trace counted. */
  lemma OccurrencesOne(x: Event, e: Event)
    ensures Occurrences([x], e) == if x == e then 1 else 0
  {
    assert [x][..0] == [];
  }

  /** A trace of three events counted. */
  lemma OccurrencesOfThree(a: Event, b: Event, c: Event, e: Event)
    ensures Occurrences([a, b, c], e) ==
      (if a == e then 1 else 0) + (if b == e then 1 else 0) + (if c == e then 1 else 0)
  {
    OccurrencesOne(a, e);
    OccurrencesOne(b, e);
    OccurrencesOne(c, e);
    OccurrencesConcat([a], [b], e);
    OccurrencesConcat([a, b], [c], e);
    assert [a] + [b] == [a, b];
    assert [a, b] + [c] == [a, b, c];
  }

  /** A sink that records every call it receives. */
  class Sink {
    var events: seq<Event>

    constructor ()
      ensures events == []
    {
      events := [];
    }

    /** One call on the sink. */
    method Emit(e: Event)
      modifies this
      ensures events == old(events) + [e]
    {
      events := events + [e];
    }
  }
}
