/** What `log`, `blame` and the query of a process tree list, over any tables. */
module Histories {
  import opened Wrappers
  import opened Clock
  import opened Graph
  import opened Queries

  /* ---- One line ---- */

  // The writer is the bound incarnation, or for an unbound event the newest one whose
  // lifetime holds it.
  ghost predicate NamesWriter(rows: seq<ProcRow>, e: EventRow, start: Option<Stamp>) {
    if e.procStart.Some? then start == e.procStart
    else
      var alive := set r | r in rows && r.pid == e.pid && r.startTs <= e.ts
                           && (r.exitTs == None || r.exitTs.value >= e.ts) :: r.startTs;
      match start
      case None => alive == {}
      case Some(s) => s in alive && forall x :: x in alive ==> x <= s
  }

  // The name is that of the stored row, or empty where there is none.
  ghost predicate NamesIdentity(rows: seq<ProcRow>, line: FileEvent) {
    || (exists r :: r in rows && r.pid == line.pid && line.procStart == Some(r.startTs)
                    && line.comm == r.info.comm && line.exe == r.info.exe && line.cmdline == r.info.cmdline)
    || (&& (forall r :: r in rows && r.pid == line.pid ==> line.procStart != Some(r.startTs))
        && line.comm == "" && line.exe == "" && line.cmdline == "")
  }

  // The line shows the event's own columns.
  predicate ShowsEvent(e: EventRow, line: FileEvent) {
    && line.ts == e.ts && line.path == e.path && line.op == e.op && line.pid == e.pid
    && line.otherPath == e.otherPath
  }

  // Oldest first; within a second in the order of recording.
  ghost predicate OldestFirst(listed: seq<EventRow>) {
    forall i, j :: 0 <= i < j < |listed| ==>
      listed[i].ts < listed[j].ts || (listed[i].ts == listed[j].ts && listed[i].id <= listed[j].id)
  }

  lemma {:induction false} LineNames(rows: seq<ProcRow>, r: Resolved)
    ensures ShowsEvent(r.event, ToFileEvent(rows, r)) && ToFileEvent(rows, r).procStart == r.start
    ensures NamesIdentity(rows, ToFileEvent(rows, r))
  {
    var line := ToFileEvent(rows, r);
    if r.start.Some? && Find(rows, r.event.pid, r.start.value).Some? {
      var row := Find(rows, r.event.pid, r.start.value).value;
      assert row in rows && row.pid == line.pid && line.procStart == Some(row.startTs);
    } else if r.start.Some? {
      forall x | x in rows && x.pid == line.pid ensures line.procStart != Some(x.startTs) {
        assert !HasKey(x, r.event.pid, r.start.value);
      }
    }
  }

  lemma {:induction false} ResolveNamesWriter(rows: seq<ProcRow>, e: EventRow)
    ensures NamesWriter(rows, e, Resolve(rows, e).start)
  {
    forall r ensures Matches(r, e.pid, e.ts, true) <==>
                     r.pid == e.pid && r.startTs <= e.ts && (r.exitTs == None || r.exitTs.value >= e.ts)
    {
    }
  }

  /* ---- The history of a path ---- */

  function EventsOf(rs: seq<Resolved>): (r: seq<EventRow>)
    ensures |r| == |rs|
    ensures forall i :: 0 <= i < |r| ==> r[i] == rs[i].event
  {
    if rs == [] then [] else EventsOf(rs[..|rs| - 1]) + [rs[|rs| - 1].event]
  }

  lemma {:induction false} EventsOfSnoc(rs: seq<Resolved>, r: Resolved)
    ensures EventsOf(rs + [r]) == EventsOf(rs) + [r.event]
  {
    assert (rs + [r])[..|rs|] == rs;
  }

  lemma {:induction false} PathEventsResolve(rows: seq<ProcRow>, events: seq<EventRow>, path: string)
    ensures forall r :: r in PathEvents(rows, events, path) ==> r == Resolve(rows, r.event)
  {
    if events != [] {
      PathEventsResolve(rows, events[..|events| - 1], path);
    }
  }

  lemma {:induction false} CountSnoc(a: seq<EventRow>, x: EventRow, e: EventRow)
    ensures multiset(a + [x])[e] == multiset(a)[e] + if x == e then 1 else 0
  {
  }

  function PathOnly(events: seq<EventRow>, path: string): seq<EventRow> {
    if events == [] then []
    else
      var n := |events| - 1;
      PathOnly(events[..n], path) + if events[n].path == path then [events[n]] else []
  }

  lemma {:induction false} PathEventsAre(rows: seq<ProcRow>, events: seq<EventRow>, path: string)
    ensures EventsOf(PathEvents(rows, events, path)) == PathOnly(events, path)
  {
    if events != [] {
      var n := |events| - 1;
      var init := PathEvents(rows, events[..n], path);
      PathEventsAre(rows, events[..n], path);
      if events[n].path == path {
        EventsOfSnoc(init, Resolve(rows, events[n]));
      } else {
        assert PathEvents(rows, events, path) == init;
      }
    }
  }

  lemma {:induction false} PathOnlyCounts(events: seq<EventRow>, path: string, e: EventRow)
    ensures multiset(PathOnly(events, path))[e] == if e.path == path then multiset(events)[e] else 0
  {
    if events != [] {
      var n := |events| - 1;
      PathOnlyCounts(events[..n], path, e);
      assert events == events[..n] + [events[n]];
      CountSnoc(events[..n], events[n], e);
      CountSnoc(PathOnly(events[..n], path), events[n], e);
    }
  }

  lemma {:induction false} EventsOfInsert(sorted: seq<Resolved>, r: Resolved)
    ensures multiset(EventsOf(InsertByTime(sorted, r))) == multiset(EventsOf(sorted)) + multiset{r.event}
  {
    if sorted == [] {
      EventsOfSnoc([], r);
    } else {
      var n := |sorted| - 1;
      var init, last := sorted[..n], sorted[n];
      if Before(last.event, r.event) {
        EventsOfSnoc(sorted, r);
      } else {
        EventsOfInsert(init, r);
        EventsOfSnoc(InsertByTime(init, r), last);
      }
    }
  }

  lemma {:induction false} EventsOfSorted(rs: seq<Resolved>)
    ensures multiset(EventsOf(SortByTime(rs))) == multiset(EventsOf(rs))
  {
    if rs != [] {
      var n := |rs| - 1;
      EventsOfSorted(rs[..n]);
      EventsOfInsert(SortByTime(rs[..n]), rs[n]);
    }
  }

  lemma {:induction false} SortedIsOldestFirst(sorted: seq<Resolved>)
    requires TimeOrdered(sorted)
    ensures OldestFirst(EventsOf(sorted))
  {
    var listed := EventsOf(sorted);
    forall i, j | 0 <= i < j < |listed|
      ensures listed[i].ts < listed[j].ts || (listed[i].ts == listed[j].ts && listed[i].id <= listed[j].id)
    {
      assert Before(sorted[i].event, sorted[j].event);
    }
  }

  lemma {:induction false} SameMembers<T>(a: seq<T>, b: seq<T>)
    requires multiset(a) == multiset(b)
    ensures forall x :: x in a <==> x in b
  {
    forall x ensures x in a <==> x in b {
      assert x in a <==> x in multiset(a);
      assert x in b <==> x in multiset(b);
    }
  }

  // A line of a log shows this event.
  ghost predicate LogLine(rows: seq<ProcRow>, e: EventRow, line: FileEvent) {
    ShowsEvent(e, line) && NamesWriter(rows, e, line.procStart) && NamesIdentity(rows, line)
  }

  lemma {:induction false} ResolvedLine(rows: seq<ProcRow>, r: Resolved)
    requires r == Resolve(rows, r.event)
    ensures LogLine(rows, r.event, ToFileEvent(rows, r))
  {
    ResolveNamesWriter(rows, r.event);
    LineNames(rows, r);
  }

  /** The log of a path lists the events of that path and no others, each as often as it
   *  was recorded, oldest first, with its own columns and its writer.
   */
  lemma {:induction false} LogLists(rows: seq<ProcRow>, events: seq<EventRow>, path: string)
    returns (listed: seq<EventRow>)
    ensures forall e :: multiset(listed)[e] == if e.path == path then multiset(events)[e] else 0
    ensures OldestFirst(listed)
    ensures var log := LogFile(rows, events, path);
            |log| == |listed| && forall i :: 0 <= i < |log| ==> LogLine(rows, listed[i], log[i])
  {
    var found := PathEvents(rows, events, path);
    var sorted := SortByTime(found);
    listed := EventsOf(sorted);
    SortByTimeSorts(found);
    SortedIsOldestFirst(sorted);
    EventsOfSorted(found);
    PathEventsAre(rows, events, path);
    forall e ensures multiset(listed)[e] == if e.path == path then multiset(events)[e] else 0 {
      PathOnlyCounts(events, path, e);
    }
    PathEventsResolve(rows, events, path);
    SameMembers(sorted, found);
    forall i | 0 <= i < |sorted| ensures LogLine(rows, listed[i], ToFileEvent(rows, sorted[i])) {
      assert sorted[i] in sorted;
      ResolvedLine(rows, sorted[i]);
    }
  }

  /** Blame is an event of the path that none of its others follows, or none when the
   *  path has no events.
   */
  lemma {:induction false} BlameIsLast(rows: seq<ProcRow>, events: seq<EventRow>, path: string)
    ensures Blame(rows, events, path) == None <==> forall e :: e in events ==> e.path != path
    ensures Blame(rows, events, path).Some? ==>
              var line := Blame(rows, events, path).value;
              exists e :: && e in events && e.path == path && LogLine(rows, e, line)
                          && forall x :: x in events && x.path == path ==>
                               x.ts < e.ts || (x.ts == e.ts && x.id <= e.id)
  {
    var log := LogFile(rows, events, path);
    var listed := LogLists(rows, events, path);
    forall e ensures e in listed <==> e in events && e.path == path {
      assert e in listed <==> e in multiset(listed);
      assert e in events <==> e in multiset(events);
    }
    if log != [] {
      var e := listed[|listed| - 1];
      assert e in listed;
      forall x | x in events && x.path == path ensures x.ts < e.ts || (x.ts == e.ts && x.id <= e.id) {
        assert x in listed;
        var i :| 0 <= i < |listed| && listed[i] == x;
      }
    } else {
      forall e | e in events ensures e.path != path {
        assert e !in listed;
      }
    }
  }

  /* ---- The events of a process tree ---- */

  // t wrote e: the bound incarnation, or for an unbound event any that had begun.
  predicate Wrote(t: ProcRow, e: EventRow) {
    t.pid == e.pid && (e.procStart == Some(t.startTs) || (e.procStart == None && t.startTs <= e.ts))
  }

  // The entry names the start of a process of the tree that wrote its event.
  ghost predicate Attributed(tree: seq<ProcRow>, r: Resolved) {
    exists t :: t in tree && Wrote(t, r.event) && r.start == Some(t.startTs)
  }

  lemma {:induction false} JoinOneLists(e: EventRow, tree: seq<ProcRow>, r: Resolved)
    ensures r in JoinOne(e, tree) <==> r.event == e && Attributed(tree, r)
  {
    if tree != [] {
      var n := |tree| - 1;
      JoinOneLists(e, tree[..n], r);
      assert forall t :: t in tree <==> t in tree[..n] || t == tree[n];
    }
  }

  lemma {:induction false} JoinLists(events: seq<EventRow>, tree: seq<ProcRow>, r: Resolved)
    ensures r in Join(events, tree) <==> r.event in events && Attributed(tree, r)
  {
    if events != [] {
      var init, last := events[..|events| - 1], events[|events| - 1];
      JoinLists(init, tree, r);
      JoinOneLists(last, tree, r);
      assert r in Join(events, tree) <==> r in Join(init, tree) || r in JoinOne(last, tree);
      assert r.event in events <==> r.event in init || r.event == last;
    }
  }

  ghost predicate WrittenIn(tree: seq<ProcRow>, e: EventRow) {
    exists t :: t in tree && Wrote(t, e)
  }

  lemma {:induction false} JoinedEvents(events: seq<EventRow>, tree: seq<ProcRow>, sorted: seq<Resolved>, e: EventRow)
    requires multiset(sorted) == multiset(Join(events, tree))
    ensures e in EventsOf(sorted) <==> e in events && WrittenIn(tree, e)
  {
    var listed := EventsOf(sorted);
    SameMembers(sorted, Join(events, tree));
    if e in events && WrittenIn(tree, e) {
      var t :| t in tree && Wrote(t, e);
      var r := Resolved(e, Some(t.startTs));
      JoinLists(events, tree, r);
      var i :| 0 <= i < |sorted| && sorted[i] == r;
      assert listed[i] == e;
    }
    if e in listed {
      var i :| 0 <= i < |listed| && listed[i] == e;
      assert sorted[i] in sorted;
      JoinLists(events, tree, sorted[i]);
    }
  }

  // A line of the query shows this event with a process of the tree.
  ghost predicate TreeLine(rows: seq<ProcRow>, tree: seq<ProcRow>, e: EventRow, line: FileEvent) {
    && ShowsEvent(e, line) && NamesIdentity(rows, line)
    && exists t :: t in tree && Wrote(t, e) && line.procStart == Some(t.startTs)
  }

  /** Over any tables the query of a tree shows, oldest first, exactly the events some
   *  descendant wrote, each with the start and the name of such a descendant.
   */
  lemma {:induction false} TreeLists(rows: seq<ProcRow>, events: seq<EventRow>, pid: int, start: Stamp)
    returns (listed: seq<EventRow>)
    ensures var tree := Descendants(rows, pid, start);
            var log := EventsByTree(rows, events, pid, start);
            && (forall e :: e in listed <==> e in events && WrittenIn(tree, e))
            && OldestFirst(listed)
            && |log| == |listed|
            && (forall i :: 0 <= i < |log| ==> TreeLine(rows, tree, listed[i], log[i]))
  {
    var tree := Descendants(rows, pid, start);
    var sorted := SortByTime(Join(events, tree));
    listed := EventsOf(sorted);
    SortByTimeSorts(Join(events, tree));
    SortedIsOldestFirst(sorted);
    SameMembers(sorted, Join(events, tree));
    forall e ensures e in listed <==> e in events && WrittenIn(tree, e) {
      JoinedEvents(events, tree, sorted, e);
    }
    forall i | 0 <= i < |sorted| ensures TreeLine(rows, tree, listed[i], ToFileEvent(rows, sorted[i])) {
      assert sorted[i] in sorted;
      JoinLists(events, tree, sorted[i]);
      LineNames(rows, sorted[i]);
    }
  }
}
