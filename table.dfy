/** What the SQL statements of the event store mean, stated over the rows of
    the `event` table in the order a full scan returns them (ascending rowid,
    which for this store is save order). */
module Table {
  import opened Events

  /** Rows as a scan of a rowid table yields them: ids strictly ascending,
      hence no id held twice. */
  predicate RowidOrdered(rows: seq<Event>) {
    forall i, j :: 0 <= i < j < |rows| ==> rows[i].id < rows[j].id
  }

  /** An `event` table as SQLite keeps it. */
  type RowidTable = rows: seq<Event> | RowidOrdered(rows) witness []

  /** The id SQLite gives the next row inserted without one: one more than
      the largest id in the table, or 1 in an empty table. */
  function NewRowId(rows: seq<Event>): int {
    if rows == [] then 1 else rows[|rows| - 1].id + 1
  }

  /** In a rowid table the next id is larger than every id held. */
  lemma NewRowIdFresh(rows: seq<Event>)
    requires RowidOrdered(rows)
    ensures forall e :: e in rows ==> e.id < NewRowId(rows)
  {
    forall e | e in rows
      ensures e.id < NewRowId(rows)
    {
      var k :| 0 <= k < |rows| && rows[k] == e;
      assert k == |rows| - 1 || rows[k].id < rows[|rows| - 1].id;
    }
  }

  /** The table after `INSERT INTO event(source, code, output, date)`:
      the caller's id is not stored; the row gets a fresh one. */
  function Inserted(rows: seq<Event>, event: Event): seq<Event> {
    rows + [event.(id := NewRowId(rows))]
  }

  /** An insert keeps the table a rowid table: the new row's id is held by
      no earlier row and ids stay ascending. */
  lemma InsertKeepsRowidOrder(rows: seq<Event>, event: Event)
    requires RowidOrdered(rows)
    ensures RowidOrdered(Inserted(rows, event))
    ensures forall e :: e in rows ==> e.id != Inserted(rows, event)[|rows|].id
  {
    NewRowIdFresh(rows);
    var r := Inserted(rows, event);
    forall i, j | 0 <= i < j < |r|
      ensures r[i].id < r[j].id
    {
      if j == |rows| {
        assert r[i] == rows[i];
      }
    }
  }

  /** The table after saving each of `events` in turn. */
  function SaveAll(rows: seq<Event>, events: seq<Event>): seq<Event>
    decreases |events|
  {
    if events == [] then rows else SaveAll(Inserted(rows, events[0]), events[1..])
  }

  /** Saving a batch appends one row per event, in order, with consecutive
      ids starting at the next free one; earlier rows are untouched. */
  lemma {:induction false} SaveAllAppends(rows: seq<Event>, events: seq<Event>)
    ensures |SaveAll(rows, events)| == |rows| + |events|
    ensures SaveAll(rows, events)[..|rows|] == rows
    ensures forall i :: 0 <= i < |events| ==>
      SaveAll(rows, events)[|rows| + i] == events[i].(id := NewRowId(rows) + i)
    decreases |events|
  {
    if events != [] {
      var next := Inserted(rows, events[0]);
      SaveAllAppends(next, events[1..]);
      assert NewRowId(next) == NewRowId(rows) + 1;
      var r := SaveAll(rows, events);
      assert r[..|next|][..|rows|] == r[..|rows|];
      forall i | 0 <= i < |events|
        ensures r[|rows| + i] == events[i].(id := NewRowId(rows) + i)
      {
        if i > 0 {
          assert r[|next| + (i - 1)] == events[1..][i - 1].(id := NewRowId(next) + (i - 1));
        } else {
          assert r[..|next|][|rows|] == next[|rows|];
        }
      }
    }
  }

  /** On a fresh table ids are handed out 1, 2, 3, ... in save order. */
  lemma FreshTableIds(events: seq<Event>)
    ensures |SaveAll([], events)| == |events|
    ensures forall i :: 0 <= i < |events| ==> SaveAll([], events)[i] == events[i].(id := i + 1)
  {
    SaveAllAppends([], events);
    assert NewRowId([]) == 1;
    forall i | 0 <= i < |events|
      ensures SaveAll([], events)[i] == events[i].(id := i + 1)
    {
      assert SaveAll([], events)[0 + i] == events[i].(id := NewRowId([]) + i);
    }
  }

  /** `SELECT ... FROM event WHERE id = <id>`. */
  function SelectById(rows: seq<Event>, id: int): (r: seq<Event>)
    ensures forall e :: e in r <==> e in rows && e.id == id
  {
    if rows == [] then []
    else SelectById(rows[..|rows| - 1], id) + (if rows[|rows| - 1].id == id then [rows[|rows| - 1]] else [])
  }

  /** A lookup of an id no row holds comes back empty. */
  lemma {:induction false} SelectByIdAbsent(rows: seq<Event>, id: int)
    requires forall e :: e in rows ==> e.id != id
    ensures SelectById(rows, id) == []
  {
    if rows != [] {
      SelectByIdAbsent(rows[..|rows| - 1], id);
    }
  }

  /** In a rowid table a point lookup matches at most one row. */
  lemma {:induction false} SelectByIdAtMostOne(rows: seq<Event>, id: int)
    requires RowidOrdered(rows)
    ensures |SelectById(rows, id)| <= 1
  {
    if rows != [] {
      var init := rows[..|rows| - 1];
      SelectByIdAtMostOne(init, id);
      if rows[|rows| - 1].id == id {
        SelectByIdAbsent(init, id);
      }
    }
  }

  /** Looking up the id a save assigned finds exactly the saved event;
      every other lookup is as before the save. */
  lemma LookupAfterInsert(rows: seq<Event>, event: Event, id: int)
    requires RowidOrdered(rows)
    ensures SelectById(Inserted(rows, event), NewRowId(rows)) == [event.(id := NewRowId(rows))]
    ensures id != NewRowId(rows) ==> SelectById(Inserted(rows, event), id) == SelectById(rows, id)
  {
    var r := Inserted(rows, event);
    assert r[..|r| - 1] == rows;
    NewRowIdFresh(rows);
    SelectByIdAbsent(rows, NewRowId(rows));
  }

  /** After saving `events` into a fresh table, a lookup finds a row
      exactly for the ids 1 .. |events| that the saves handed out. */
  lemma LookupAfterFreshSaves(events: seq<Event>, id: int)
    ensures SelectById(SaveAll([], events), id) != [] <==> 1 <= id <= |events|
  {
    var rows := SaveAll([], events);
    FreshTableIds(events);
    var r := SelectById(rows, id);
    if 1 <= id <= |events| {
      assert rows[id - 1] in r;
    } else {
      forall e | e in rows ensures e.id != id {
        var k :| 0 <= k < |rows| && rows[k] == e;
      }
      SelectByIdAbsent(rows, id);
    }
  }

  /** `SELECT ... FROM event WHERE source = <source>`, in scan order. */
  function BySource(rows: seq<Event>, source: string): seq<Event>
  {
    if rows == [] then []
    else BySource(rows[..|rows| - 1], source) + (if rows[|rows| - 1].source == source then [rows[|rows| - 1]] else [])
  }

  /** The filter keeps exactly the rows of `source`. */
  lemma {:induction false} BySourceMembers(rows: seq<Event>, source: string)
    ensures forall e :: e in BySource(rows, source) <==> e in rows && e.source == source
  {
    if rows != [] {
      var init := rows[..|rows| - 1];
      BySourceMembers(init, source);
      assert rows == init + [rows[|rows| - 1]];
    }
  }

  /** The filter keeps the scan's (save) order: ids stay ascending. */
  lemma {:induction false} BySourceRowidOrdered(rows: seq<Event>, source: string)
    requires RowidOrdered(rows)
    ensures RowidOrdered(BySource(rows, source))
  {
    if rows != [] {
      var init := rows[..|rows| - 1];
      BySourceRowidOrdered(init, source);
      BySourceMembers(init, source);
    }
  }

  lemma {:induction false} BySourceConcat(a: seq<Event>, b: seq<Event>, source: string)
    ensures BySource(a + b, source) == BySource(a, source) + BySource(b, source)
    decreases |b|
  {
    if b != [] {
      var binit := b[..|b| - 1];
      assert (a + b)[..|a + b| - 1] == a + binit;
      BySourceConcat(a, binit, source);
    } else {
      assert a + b == a;
    }
  }

  /** Saving one event extends the history of its source, and only that one. */
  lemma BySourceAfterInsert(rows: seq<Event>, event: Event, source: string)
    ensures BySource(Inserted(rows, event), source) ==
      BySource(rows, source) + (if event.source == source then [event.(id := NewRowId(rows))] else [])
  {
    var r := Inserted(rows, event);
    assert r[..|r| - 1] == rows;
  }

  /** Appending one row to a scan extends the history of its source. */
  lemma BySourceSnoc(rows: seq<Event>, e: Event, source: string)
    ensures BySource(rows + [e], source) == BySource(rows, source) + (if e.source == source then [e] else [])
  {
    assert (rows + [e])[..|rows|] == rows;
  }

  /** `groups` maps each source of `seen` to its history in `seen`, and
      holds no other key. */
  ghost predicate Grouped(groups: map<string, seq<Event>>, seen: seq<Event>) {
    && groups.Keys == SourceSet(seen)
    && forall s :: s in groups ==> groups[s] == BySource(seen, s)
  }

  /** One step of folding a scan into a map from source to rows: the key
      of the row's source is created if absent, then the row is appended
      to that key's entry. */
  function AddToGroup(groups: map<string, seq<Event>>, e: Event): map<string, seq<Event>> {
    var created := if e.source !in groups then groups[e.source := []] else groups;
    created[e.source := created[e.source] + [e]]
  }

  /** If the map held the history of every source seen so far, then after
      one fold step it holds the history of every source seen including
      the new row. */
  lemma GroupAppend(groups: map<string, seq<Event>>, seen: seq<Event>, e: Event)
    requires Grouped(groups, seen)
    ensures Grouped(AddToGroup(groups, e), seen + [e])
  {
    var after := AddToGroup(groups, e);
    SourceSetSnoc(seen, e);
    BySourceEmpty(seen, e.source);
    BySourceSnoc(seen, e, e.source);
    assert after.Keys == groups.Keys + {e.source};
    forall s | s in after
      ensures after[s] == BySource(seen + [e], s)
    {
      if s != e.source {
        BySourceSnoc(seen, e, s);
        assert after[s] == groups[s];
      }
    }
  }

  /** The set of sources held in `rows`. */
  function SourceSet(rows: seq<Event>): set<string> {
    set e | e in rows :: e.source
  }

  /** Appending a row adds its source to the set of sources. */
  lemma SourceSetSnoc(rows: seq<Event>, e: Event)
    ensures SourceSet(rows + [e]) == SourceSet(rows) + {e.source}
  {
    assert e in rows + [e];
    forall x | x in rows
      ensures x in rows + [e]
    {
    }
  }

  /** A source is known exactly when its history is non-empty. */
  lemma BySourceEmpty(rows: seq<Event>, source: string)
    ensures BySource(rows, source) == [] <==> source !in SourceSet(rows)
  {
    BySourceMembers(rows, source);
    if source in SourceSet(rows) {
      var e :| e in rows && e.source == source;
      assert e in BySource(rows, source);
    }
  }

  /** `SELECT DISTINCT source FROM event`: each source once, in the order
      of its first row. */
  function Sources(rows: seq<Event>): seq<string>
  {
    if rows == [] then []
    else
      var earlier := Sources(rows[..|rows| - 1]);
      var source := rows[|rows| - 1].source;
      if source in earlier then earlier else earlier + [source]
  }

  /** Every stored source is listed exactly once, and nothing else. */
  lemma {:induction false} SourcesExact(rows: seq<Event>)
    ensures NoDuplicates(Sources(rows))
    ensures forall s :: s in Sources(rows) <==> s in SourceSet(rows)
  {
    if rows != [] {
      var init := rows[..|rows| - 1];
      SourcesExact(init);
      assert rows == init + [rows[|rows| - 1]];
      SourceSetSnoc(init, rows[|rows| - 1]);
    }
  }

  /** Every row of `t` has an earlier row of `s`. */
  predicate AppearsBefore(rows: seq<Event>, s: string, t: string) {
    forall k :: 0 <= k < |rows| && rows[k].source == t ==>
      exists k' :: 0 <= k' < k && rows[k'].source == s
  }

  /** Sources are listed in order of first appearance: if `s` is listed
      before `t`, every row of `t` has an earlier row of `s`. */
  lemma {:induction false} SourcesFirstAppearance(rows: seq<Event>)
    ensures forall i, j :: 0 <= i < j < |Sources(rows)| ==> AppearsBefore(rows, Sources(rows)[i], Sources(rows)[j])
  {
    if rows != [] {
      var last := |rows| - 1;
      var init := rows[..last];
      var prev := Sources(init);
      SourcesFirstAppearance(init);
      SourcesExact(init);
      var out := Sources(rows);
      forall i, j | 0 <= i < j < |out|
        ensures AppearsBefore(rows, out[i], out[j])
      {
        // out[i] was already listed for the earlier rows, so one of them has it
        assert i < |prev| && out[i] == prev[i];
        assert prev[i] in SourceSet(init);
        var e :| e in init && e.source == prev[i];
        var m :| 0 <= m < |init| && init[m] == e;
        assert rows[m] == init[m];
        forall k | 0 <= k < |rows| && rows[k].source == out[j]
          ensures exists k' :: 0 <= k' < k && rows[k'].source == out[i]
        {
          if k < last && k <= m {
            assert init[k] in init && rows[k] == init[k];
            assert rows[k].source in prev;
            assert j < |prev| && out[j] == prev[j];
            assert AppearsBefore(init, prev[i], prev[j]);
            var k' :| 0 <= k' < k && init[k'].source == prev[i];
            assert rows[k'] == init[k'];
          } else {
            assert m < k;
          }
        }
      }
    }
  }
}
