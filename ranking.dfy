/** The window query of `get_all_events_grouped_by_source`:
    `row_number() over (partition by source order by date desc)`, keeping
    the rows whose number is at most the limit.

    Dates are compared as text (TextOrder). SQL leaves the order of rows
    with equal dates open; this model fixes it: among equal dates the row
    with the lower id (the one saved first) is numbered first. */
module Ranking {
  import opened Events
  import opened TextOrder
  import opened Table

  /** `a` is numbered before `b` in their partition: a later date, or the
      same date and a lower id. */
  predicate Precedes(a: Event, b: Event) {
    Less(b.date, a.date) || (a.date == b.date && a.id < b.id)
  }

  lemma PrecedesAsymmetric(a: Event, b: Event)
    requires Precedes(a, b)
    ensures !Precedes(b, a)
  {
    if Less(b.date, a.date) {
      LessAsymmetric(b.date, a.date);
    } else {
      LessIrreflexive(a.date);
    }
  }

  /** If neither `b` precedes `a` nor `c` precedes `b`, then `c` does not
      precede `a`: "not after" is transitive. */
  lemma NotPrecedesTransitive(a: Event, b: Event, c: Event)
    requires !Precedes(b, a) && !Precedes(c, b)
    ensures !Precedes(c, a)
  {
    LessTotal(a.date, b.date);
    LessTotal(b.date, c.date);
    LessIrreflexive(a.date);
    if Less(c.date, b.date) && Less(b.date, a.date) {
      LessTransitive(c.date, b.date, a.date);
    }
    if Less(c.date, a.date) {
      LessAsymmetric(c.date, a.date);
    }
  }

  /** `xs` is in row-number order: no row precedes a row listed before it. */
  predicate Ranked(xs: seq<Event>) {
    forall i, j :: 0 <= i < j < |xs| ==> !Precedes(xs[j], xs[i])
  }

  /** Puts `e` into the ranked `xs` after every row that precedes it. */
  function Insert(e: Event, xs: seq<Event>): seq<Event>
  {
    if xs == [] || !Precedes(xs[0], e) then [e] + xs
    else [xs[0]] + Insert(e, xs[1..])
  }

  lemma {:induction false} InsertRanked(e: Event, xs: seq<Event>)
    requires Ranked(xs)
    ensures Ranked(Insert(e, xs))
    ensures multiset(Insert(e, xs)) == multiset(xs) + multiset{e}
  {
    if xs == [] || !Precedes(xs[0], e) {
      var r := [e] + xs;
      forall j | 1 <= j < |r|
        ensures !Precedes(r[j], r[0])
      {
        if j > 1 {
          NotPrecedesTransitive(e, xs[0], xs[j - 1]);
        }
      }
    } else {
      var rest := Insert(e, xs[1..]);
      InsertRanked(e, xs[1..]);
      assert xs == [xs[0]] + xs[1..];
      var r := [xs[0]] + rest;
      forall j | 1 <= j < |r|
        ensures !Precedes(r[j], r[0])
      {
        assert r[j] in multiset(rest);
        if r[j] == e {
          PrecedesAsymmetric(xs[0], e);
        } else {
          assert r[j] in xs[1..];
        }
      }
    }
  }

  lemma {:induction false} InsertNoDuplicates(e: Event, xs: seq<Event>)
    requires Ranked(xs) && NoDuplicates(xs) && e !in xs
    ensures NoDuplicates(Insert(e, xs))
  {
    if xs != [] && Precedes(xs[0], e) {
      InsertNoDuplicates(e, xs[1..]);
      InsertRanked(e, xs[1..]);
      assert xs[0] !in xs[1..];
      assert xs[0] !in multiset(Insert(e, xs[1..]));
    }
  }

  /** Numbers a partition: the rows in row-number order (insertion sort). */
  function Rank(xs: seq<Event>): seq<Event>
  {
    if xs == [] then [] else Insert(xs[0], Rank(xs[1..]))
  }

  /** Ranking orders the partition and neither drops nor adds a row. */
  lemma {:induction false} RankSortsPartition(xs: seq<Event>)
    ensures Ranked(Rank(xs))
    ensures multiset(Rank(xs)) == multiset(xs)
  {
    if xs != [] {
      RankSortsPartition(xs[1..]);
      InsertRanked(xs[0], Rank(xs[1..]));
      assert xs == [xs[0]] + xs[1..];
    }
  }

  lemma {:induction false} RankNoDuplicates(xs: seq<Event>)
    requires NoDuplicates(xs)
    ensures NoDuplicates(Rank(xs))
  {
    if xs != [] {
      RankNoDuplicates(xs[1..]);
      RankSortsPartition(xs[1..]);
      assert xs[0] !in multiset(xs[1..]);
      InsertNoDuplicates(xs[0], Rank(xs[1..]));
    }
  }

  /** Keeps the ranked rows whose row number (index + 1) is at most `limit`. */
  function KeepRanks(ranked: seq<Event>, limit: int): (r: seq<Event>)
    ensures |r| == if limit <= 0 then 0 else if limit < |ranked| then limit else |ranked|
    ensures r <= ranked
  {
    if limit <= 0 then [] else if limit < |ranked| then ranked[..limit] else ranked
  }

  /** The rows of `source` that survive `date_rank <= limit`, in row-number
      order: the `limit` rows of that source with the greatest `date` text
      (ties by id). */
  function TopByDate(rows: seq<Event>, source: string, limit: int): seq<Event>
  {
    KeepRanks(Rank(BySource(rows, source)), limit)
  }

  /** A group holds `min(limit, count)` rows, all stored rows of its source. */
  lemma TopByDateShape(rows: seq<Event>, source: string, limit: int)
    ensures var g := TopByDate(rows, source, limit);
      var count := |BySource(rows, source)|;
      && |g| == (if limit <= 0 then 0 else if limit < count then limit else count)
      && forall e :: e in g ==> e in rows && e.source == source
  {
    var ranked := Rank(BySource(rows, source));
    RankSortsPartition(BySource(rows, source));
    BySourceMembers(rows, source);
    assert |ranked| == |multiset(ranked)|;
    forall e | e in TopByDate(rows, source, limit)
      ensures e in rows && e.source == source
    {
      assert e in ranked;
      assert e in multiset(BySource(rows, source));
    }
  }

  /** A known source always gets a non-empty group once `limit >= 1`. */
  lemma TopByDateNonEmpty(rows: seq<Event>, source: string, limit: int)
    requires limit >= 1 && source in SourceSet(rows)
    ensures TopByDate(rows, source, limit) != []
  {
    BySourceEmpty(rows, source);
    TopByDateShape(rows, source, limit);
  }

  /** A group lists its rows by `date` text descending, rows with equal
      dates in save (id) order. */
  lemma TopByDateOrder(rows: seq<Event>, source: string, limit: int)
    ensures var g := TopByDate(rows, source, limit);
      forall i, j :: 0 <= i < j < |g| ==>
        !Less(g[i].date, g[j].date) && (g[i].date == g[j].date ==> g[i].id <= g[j].id)
  {
    RankSortsPartition(BySource(rows, source));
  }

  /** No row of the source left out of the group is numbered before a row
      kept in it: the group is the top of the partition by `date` text
      descending, ties by id. */
  lemma TopByDateIsTop(rows: seq<Event>, source: string, limit: int)
    ensures var g := TopByDate(rows, source, limit);
      forall e, x :: e in rows && e.source == source && e !in g && x in g ==> !Precedes(e, x)
  {
    var part := BySource(rows, source);
    var ranked := Rank(part);
    var g := TopByDate(rows, source, limit);
    RankSortsPartition(part);
    BySourceMembers(rows, source);
    forall e, x | e in rows && e.source == source && e !in g && x in g
      ensures !Precedes(e, x)
    {
      assert e in multiset(part);
      var k :| 0 <= k < |ranked| && ranked[k] == e;
      var i :| 0 <= i < |g| && g[i] == x;
      assert forall m :: 0 <= m < |g| ==> ranked[m] == g[m];
      assert i < k;
    }
  }

  /** In a rowid table no row appears twice in a group. */
  lemma TopByDateNoDuplicates(rows: seq<Event>, source: string, limit: int)
    requires RowidOrdered(rows)
    ensures NoDuplicates(TopByDate(rows, source, limit))
  {
    var part := BySource(rows, source);
    BySourceRowidOrdered(rows, source);
    RankNoDuplicates(part);
  }

  /** The rows of each source in `sources`, numbered and cut at `limit`,
      partition after partition. */
  function Partitions(rows: seq<Event>, sources: seq<string>, limit: int): seq<Event>
  {
    if sources == [] then [] else TopByDate(rows, sources[0], limit) + Partitions(rows, sources[1..], limit)
  }

  /** The whole window query: the surviving rows of every partition, each
      partition in row-number order. SQLite emits partitions sorted by
      source; here they come in order of first appearance, which the
      grouping that consumes the query cannot tell apart. */
  function WindowQuery(rows: seq<Event>, limit: int): seq<Event>
  {
    Partitions(rows, Sources(rows), limit)
  }

  /** Filtering rows that all come from `t`: all of them for `t`, none otherwise. */
  lemma {:induction false} BySourceOfOneSource(xs: seq<Event>, t: string, source: string)
    requires forall i :: 0 <= i < |xs| ==> xs[i].source == t
    ensures BySource(xs, source) == if source == t then xs else []
  {
    if xs != [] {
      var init := xs[..|xs| - 1];
      BySourceOfOneSource(init, t, source);
      if source == t {
        assert xs == init + [xs[|xs| - 1]];
      }
    }
  }

  /** Filtering the query output by one source gives back that source's
      partition, or nothing for a source not partitioned. */
  lemma {:induction false} PartitionsBySource(rows: seq<Event>, sources: seq<string>, limit: int, source: string)
    requires NoDuplicates(sources)
    ensures BySource(Partitions(rows, sources, limit), source) ==
      if source in sources then TopByDate(rows, source, limit) else []
  {
    if sources != [] {
      var t := sources[0];
      var head := TopByDate(rows, t, limit);
      TopByDateShape(rows, t, limit);
      assert forall i :: 0 <= i < |head| ==> head[i] in head;
      BySourceConcat(head, Partitions(rows, sources[1..], limit), source);
      BySourceOfOneSource(head, t, source);
      assert NoDuplicates(sources[1..]) by {
        forall i, j | 0 <= i < j < |sources| - 1
          ensures sources[1..][i] != sources[1..][j]
        {
          assert sources[1..][i] == sources[i + 1];
        }
      }
      PartitionsBySource(rows, sources[1..], limit, source);
      assert source in sources <==> source == t || source in sources[1..];
      assert t !in sources[1..];
    }
  }

  /** Grouping the query output by source yields, for `limit >= 1`, one
      group per stored source, each that source's top rows; for `limit <= 0`
      no row survives. */
  lemma WindowQueryGroups(rows: seq<Event>, limit: int)
    ensures SourceSet(WindowQuery(rows, limit)) == if limit >= 1 then SourceSet(rows) else {}
    ensures forall s :: s in SourceSet(rows) ==> BySource(WindowQuery(rows, limit), s) == TopByDate(rows, s, limit)
  {
    var q := WindowQuery(rows, limit);
    SourcesExact(rows);
    forall s
      ensures BySource(q, s) == if s in SourceSet(rows) then TopByDate(rows, s, limit) else []
    {
      PartitionsBySource(rows, Sources(rows), limit, s);
    }
    forall s
      ensures s in SourceSet(q) <==> limit >= 1 && s in SourceSet(rows)
    {
      BySourceEmpty(q, s);
      BySourceEmpty(rows, s);
      TopByDateShape(rows, s, limit);
    }
  }

  /** A map holding, per source, the rows of the window query output for
      that source is the map from each stored source (when `limit >= 1`)
      to its top rows. */
  lemma GroupedWindowIsTopByDate(groups: map<string, seq<Event>>, rows: seq<Event>, limit: int)
    requires groups.Keys == SourceSet(WindowQuery(rows, limit))
    requires forall s :: s in groups ==> groups[s] == BySource(WindowQuery(rows, limit), s)
    ensures groups.Keys == if limit >= 1 then SourceSet(rows) else {}
    ensures forall s :: s in groups ==> groups[s] == TopByDate(rows, s, limit)
  {
    WindowQueryGroups(rows, limit);
  }
}
