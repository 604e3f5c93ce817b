/** The event store: a `Repo` holding the `event` table behind its
    connection, with the operations of `Repo` in the original. The table is
    the sequence of its rows in scan (rowid) order; each query is proved
    against its meaning in Table and Ranking. */
module EventRepo {
  import opened Events
  import opened Table
  import opened Ranking

  /** A connection as `build` receives it: the `event` table it already
      holds, if any. */
  datatype Connection = Connection(eventTable: Option<RowidTable>)

  /** The fold of `get_all_events_grouped_by_source` over the query
      output: a key is created on a source's first row and each later row
      is appended to its source's entry, so every entry is that source's
      rows in query order. */
  method GroupBySource(ranked: seq<Event>) returns (groups: map<string, seq<Event>>)
    ensures groups.Keys == SourceSet(ranked)
    ensures forall s :: s in groups ==> groups[s] == BySource(ranked, s)
  {
    groups := map[];
    var rest := ranked;
    ghost var seen: seq<Event> := [];
    while rest != []
      invariant |seen| <= |ranked| && seen == ranked[..|seen|] && rest == ranked[|seen|..]
      invariant Grouped(groups, seen)
    {
      var event := rest[0];
      rest := rest[1..];
      ghost var before := groups;
      if event.source !in groups {
        groups := groups[event.source := []];
      }
      groups := groups[event.source := groups[event.source] + [event]];
      assert groups == AddToGroup(before, event);
      GroupAppend(before, seen, event);
      assert rest == ranked[|seen| + 1..];
      seen := seen + [event];
    }
    assert seen == ranked;
  }

  class Repo {
    /** The rows of the `event` table, in rowid order. */
    var rows: seq<Event>

    ghost predicate Valid()
      reads this
    {
      RowidOrdered(rows)
    }

    /** `build`: `CREATE TABLE IF NOT EXISTS event (...)`. A connection
        without the table gets an empty one; an existing table is kept as
        it is. */
    constructor Build(conn: Connection)
      ensures Valid()
      ensures conn.eventTable.None? ==> rows == []
      ensures conn.eventTable.Some? ==> rows == conn.eventTable.value
    {
      match conn.eventTable
      case None => rows := [];
      case Some(table) => rows := table;
    }

    /** `save`: one INSERT of the event's source, code, output and date.
        The caller's id is ignored and the row gets an id no earlier row
        holds. */
    method Save(event: Event)
      requires Valid()
      modifies this
      ensures Valid()
      ensures rows == Inserted(old(rows), event)
      ensures |rows| == |old(rows)| + 1 && rows[..|old(rows)|] == old(rows)
      ensures rows[|old(rows)|] == event.(id := NewRowId(old(rows)))
      ensures forall e :: e in old(rows) ==> e.id != rows[|old(rows)|].id
    {
      InsertKeepsRowidOrder(rows, event);
      rows := Inserted(rows, event);
    }

    /** `get_event_by_id`: the first row of `SELECT ... WHERE id = <id>`,
        or `InvalidQuery` when there is none. */
    method GetEventById(id: u32) returns (r: Result<Event>)
      ensures r.Ok? <==> exists e :: e in rows && e.id == id as int
      ensures r.Ok? ==> r.value in rows && r.value.id == id as int
      ensures r.Err? ==> r.error == InvalidQuery
      ensures Valid() && r.Ok? ==> forall e :: e in rows && e.id == id as int ==> e == r.value
    {
      var matches := SelectById(rows, id as int);
      if |matches| > 0 {
        assert matches[0] in matches;
        r := Ok(matches[0]);
        if Valid() {
          SelectByIdAtMostOne(rows, id as int);
          assert matches == [matches[0]];
        }
      } else {
        r := Err(InvalidQuery);
        assert forall e :: e in rows && e.id == id as int ==> e in matches;
      }
    }

    /** `get_all_events_by_source`: scans the table and collects the rows
        of `source`, in scan order. */
    method GetAllEventsBySource(source: string) returns (events: seq<Event>)
      ensures events == BySource(rows, source)
      ensures forall e :: e in events <==> e in rows && e.source == source
    {
      events := [];
      var i := 0;
      while i < |rows|
        invariant 0 <= i <= |rows|
        invariant events == BySource(rows[..i], source)
      {
        assert rows[..i + 1][..i] == rows[..i];
        if rows[i].source == source {
          events := events + [rows[i]];
        }
        i := i + 1;
      }
      assert rows[..i] == rows;
      BySourceMembers(rows, source);
    }

    /** `get_all_events_grouped_by_source`: runs the window query and folds
        its rows into a map from source to that source's rows, creating a
        key on its first row and appending after that. */
    method GetAllEventsGroupedBySource(limit: int) returns (events: map<string, seq<Event>>)
      ensures events.Keys == if limit >= 1 then SourceSet(rows) else {}
      ensures forall s :: s in events ==> events[s] == TopByDate(rows, s, limit)
    {
      var ranked := WindowQuery(rows, limit);
      events := GroupBySource(ranked);
      GroupedWindowIsTopByDate(events, rows, limit);
    }

    /** `get_sources`: `SELECT DISTINCT source`, each source once, in the
        order of its first row. */
    method GetSources() returns (sources: seq<string>)
      ensures sources == Sources(rows)
      ensures NoDuplicates(sources) && forall s :: s in sources <==> s in SourceSet(rows)
    {
      sources := [];
      var i := 0;
      while i < |rows|
        invariant 0 <= i <= |rows|
        invariant sources == Sources(rows[..i])
      {
        assert rows[..i + 1][..i] == rows[..i];
        if rows[i].source !in sources {
          sources := sources + [rows[i].source];
        }
        i := i + 1;
      }
      assert rows[..i] == rows;
      SourcesExact(rows);
    }
  }
}
