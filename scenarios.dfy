/** The behaviour the store's own tests check, and examples of the
    window query's ranking, stated for all inputs of the same shape. */
module Scenarios {
  import opened Events
  import opened TextOrder
  import opened Table
  import opened Ranking

  /** Saving a run of events of one source after existing rows adds that
      source once, at the end of the source list, if it was not listed. */
  lemma {:induction false} SourcesAfterRun(prefix: seq<Event>, run: seq<Event>, t: string)
    requires run != [] && forall i :: 0 <= i < |run| ==> run[i].source == t
    requires t !in Sources(prefix)
    ensures Sources(prefix + run) == Sources(prefix) + [t]
  {
    var init := run[..|run| - 1];
    assert (prefix + run)[..|prefix + run| - 1] == prefix + init;
    if init == [] {
      assert prefix + init == prefix;
    } else {
      SourcesAfterRun(prefix, init, t);
    }
  }

  /** The table after saving `first` and then `second` into a fresh table,
      as the tests do. */
  function SavedInTurn(first: seq<Event>, second: seq<Event>): seq<Event> {
    SaveAll(SaveAll([], first), second)
  }

  lemma SavedInTurnLayout(first: seq<Event>, second: seq<Event>)
    ensures |SavedInTurn(first, second)| == |first| + |second|
    ensures forall i :: 0 <= i < |first| ==> SavedInTurn(first, second)[i] == first[i].(id := i + 1)
    ensures forall j :: 0 <= j < |second| ==>
      SavedInTurn(first, second)[|first| + j] == second[j].(id := |first| + 1 + j)
  {
    var firstRows := SaveAll([], first);
    FreshTableIds(first);
    SaveAllAppends(firstRows, second);
    var rows := SaveAll(firstRows, second);
    assert NewRowId(firstRows) == |first| + 1 by {
      if first != [] {
        assert firstRows[|first| - 1].id == |first|;
      }
    }
    forall i | 0 <= i < |first|
      ensures rows[i] == first[i].(id := i + 1)
    {
      assert rows[i] == rows[..|firstRows|][i] == firstRows[i];
    }
    forall j | 0 <= j < |second|
      ensures rows[|first| + j] == second[j].(id := |first| + 1 + j)
    {
      assert rows[|firstRows| + j] == second[j].(id := NewRowId(firstRows) + j);
    }
  }

  /** Test `save_and_recall_multiple_events_by_source_id`: events of one
      source, built with ids 1, 2, ..., saved before events of another
      source, come back from `get_all_events_by_source` field for field,
      ids included, in save order. */
  lemma RecallBySourceAfterSaves(first: seq<Event>, second: seq<Event>, s: string, t: string)
    requires s != t
    requires forall i :: 0 <= i < |first| ==> first[i].source == s && first[i].id == i + 1
    requires forall j :: 0 <= j < |second| ==> second[j].source == t
    ensures BySource(SavedInTurn(first, second), s) == first
  {
    var rows := SavedInTurn(first, second);
    SavedInTurnLayout(first, second);
    var head := rows[..|first|];
    var tail := rows[|first|..];
    assert rows == head + tail;
    assert head == first;
    forall j | 0 <= j < |tail| ensures tail[j].source == t {
      assert tail[j] == rows[|first| + j] == second[j].(id := |first| + 1 + j);
    }
    BySourceConcat(head, tail, s);
    BySourceOfOneSource(head, s, s);
    BySourceOfOneSource(tail, t, s);
  }

  /** A non-empty run of `s` rows followed by a non-empty run of `t` rows
      lists `s` then `t`. */
  lemma SourcesOfTwoRuns(head: seq<Event>, tail: seq<Event>, s: string, t: string)
    requires s != t && head != [] && tail != []
    requires forall i :: 0 <= i < |head| ==> head[i].source == s
    requires forall j :: 0 <= j < |tail| ==> tail[j].source == t
    ensures Sources(head + tail) == [s, t]
  {
    var none: seq<Event> := [];
    assert Sources(none) == [];
    SourcesAfterRun(none, head, s);
    assert none + head == head;
    assert Sources(head) == [s];
    SourcesAfterRun(head, tail, t);
  }

  /** Test `get_sources`: a non-empty run of one source saved before a
      non-empty run of another lists exactly those two sources, in that
      order. */
  lemma SourcesAfterTwoRuns(first: seq<Event>, second: seq<Event>, s: string, t: string)
    requires s != t && first != [] && second != []
    requires forall i :: 0 <= i < |first| ==> first[i].source == s
    requires forall j :: 0 <= j < |second| ==> second[j].source == t
    ensures Sources(SavedInTurn(first, second)) == [s, t]
  {
    var rows := SavedInTurn(first, second);
    SavedInTurnLayout(first, second);
    var head := rows[..|first|];
    var tail := rows[|first|..];
    forall i | 0 <= i < |head| ensures head[i].source == s {
      assert head[i] == rows[i];
    }
    forall j | 0 <= j < |tail| ensures tail[j].source == t {
      assert tail[j] == rows[|first| + j] == second[j].(id := |first| + 1 + j);
    }
    SourcesOfTwoRuns(head, tail, s, t);
    assert rows == head + tail;
  }

  /** Three events of one source saved with dates rising as text: asking
      for two per source gives the last two, greatest date text first. */
  lemma TopTwoOfThree(a: Event, b: Event, c: Event)
    requires a.source == b.source == c.source
    requires Less(a.date, b.date) && Less(b.date, c.date)
    ensures TopByDate(SaveAll([], [a, b, c]), a.source, 2) == [c.(id := 3), b.(id := 2)]
  {
    var a1, b2, c3 := a.(id := 1), b.(id := 2), c.(id := 3);
    var rows := SaveAll([], [a, b, c]);
    FreshTableIds([a, b, c]);
    assert rows == [a1, b2, c3];
    BySourceOfOneSource(rows, a.source, a.source);
    LessTransitive(a.date, b.date, c.date);
    assert [b2, c3][1..] == [c3];
    assert Rank([c3]) == [c3];
    assert Insert(b2, [c3]) == [c3, b2];
    assert Rank([b2, c3]) == [c3, b2];
    assert [a1, b2, c3][1..] == [b2, c3];
    assert Insert(a1, [b2]) == [b2, a1];
    assert Insert(a1, [c3, b2]) == [c3, b2, a1];
  }

  /** Dates are compared as text, so RFC 2822 dates rank by weekday name
      first: a Thursday row is numbered before a later Friday row. */
  lemma TextualDateRanking(thursday: Event, friday: Event)
    requires thursday.date == "Thu, 15 Oct 2026 09:00:00 +0000"
    requires friday.date == "Fri, 16 Oct 2026 09:00:00 +0000"
    ensures Precedes(thursday, friday)
  {
  }

  /** The consequence for the grouped query: of a Thursday row and the
      following Friday's, a limit of 1 keeps the older Thursday row. */
  lemma OlderRowKept(thursday: Event, friday: Event)
    requires thursday.source == friday.source
    requires thursday.date == "Thu, 15 Oct 2026 09:00:00 +0000"
    requires friday.date == "Fri, 16 Oct 2026 09:00:00 +0000"
    ensures TopByDate(SaveAll([], [thursday, friday]), thursday.source, 1) == [thursday.(id := 1)]
  {
    var t1, f2 := thursday.(id := 1), friday.(id := 2);
    var rows := SaveAll([], [thursday, friday]);
    FreshTableIds([thursday, friday]);
    assert rows == [t1, f2];
    BySourceOfOneSource(rows, thursday.source, thursday.source);
    TextualDateRanking(t1, f2);
    assert [t1, f2][1..] == [f2];
    assert Rank([f2]) == [f2];
    assert Insert(t1, [f2]) == [t1, f2];
  }
}
