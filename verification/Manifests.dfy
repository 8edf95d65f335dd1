/** The manifest of a command: each event of its process tree once, in time order. */
module Manifests {
  import opened Wrappers
  import opened Clock
  import opened Graph
  import opened Queries
  import opened Kinship
  import Lex
  import Revert
  import PlanProperties

  ghost predicate NoRepeat<T>(s: seq<T>) {
    forall i, j :: 0 <= i < j < |s| ==> s[i] != s[j]
  }

  lemma {:induction false} NoRepeatConcat<T>(a: seq<T>, b: seq<T>)
    requires NoRepeat(a) && NoRepeat(b)
    requires forall x :: x in a ==> x !in b
    ensures NoRepeat(a + b)
  {
    forall i, j | 0 <= i < j < |a + b| ensures (a + b)[i] != (a + b)[j] {
      if i < |a| <= j {
        assert a[i] in a && b[j - |a|] in b;
      }
    }
  }

  /* ---- The tree lists each process once ---- */

  lemma {:induction false} ChildRowsOnce(rows: seq<ProcRow>, p: ProcRow)
    requires OneIncarnation(rows)
    ensures NoRepeat(ChildRows(rows, p))
  {
    if rows != [] {
      var rest := rows[1..];
      ChildRowsOnce(rest, p);
      forall x | x in rest ensures x != rows[0] {
        var k :| 0 <= k < |rest| && rest[k] == x;
        assert rows[k + 1] == x;
      }
      if rows[0].ppid == Some(p.pid) {
        NoRepeatConcat([rows[0]], ChildRows(rest, p));
      }
    }
  }

  lemma {:induction false} ChildrenOfLevelOnce(rows: seq<ProcRow>, level: seq<ProcRow>)
    requires OneIncarnation(rows)
    requires NoRepeat(level) && forall q :: q in level ==> q in rows
    ensures NoRepeat(ChildrenOfLevel(rows, level))
  {
    if level != [] {
      var rest := level[1..];
      ChildrenOfLevelOnce(rows, rest);
      ChildRowsOnce(rows, level[0]);
      forall x | x in ChildRows(rows, level[0]) ensures x !in ChildrenOfLevel(rows, rest) {
        InChildrenOfLevel(rows, rest, x);
        forall q | q in rest ensures x.ppid != Some(q.pid) {
          var k :| 0 <= k < |rest| && rest[k] == q;
          assert level[k + 1] == q && level[0] in rows;
          SameRow(rows, q, level[0]);
        }
      }
      NoRepeatConcat(ChildRows(rows, level[0]), ChildrenOfLevel(rows, rest));
    }
  }

  lemma {:induction false} DescentOnce(rows: seq<ProcRow>, limit: nat, p: ProcRow, k: nat, level: seq<ProcRow>,
                                       hops: nat)
    requires OneIncarnation(rows) && NoChain(rows, limit)
    requires IsLevel(rows, p, k, level) && NoRepeat(level)
    ensures NoRepeat(DescendantsFrom(rows, level, hops))
    decreases hops
  {
    if hops > 0 {
      var next := ChildrenOfLevel(rows, level);
      var below := DescendantsFrom(rows, next, hops - 1);
      NextLevel(rows, p, k, level);
      ChildrenOfLevelOnce(rows, level);
      DescentOnce(rows, limit, p, k + 1, next, hops - 1);
      forall d | d in level ensures d !in below {
        LevelsApart(rows, limit, p, k, next, hops - 1, d);
      }
      NoRepeatConcat(level, below);
    }
  }

  lemma {:induction false} LevelsApart(rows: seq<ProcRow>, limit: nat, p: ProcRow, k: nat, next: seq<ProcRow>,
                                       hops: nat, d: ProcRow)
    requires OneIncarnation(rows) && NoChain(rows, limit)
    requires IsLevel(rows, p, k + 1, next)
    requires d in rows && Ancestor(rows, d, k) == Some(p)
    ensures d !in DescendantsFrom(rows, next, hops)
  {
    DownQueryLevels(rows, p, k + 1, next, hops, d);
    forall j: nat | k + 1 <= j ensures Ancestor(rows, d, j) != Some(p) {
      if Ancestor(rows, d, j) == Some(p) {
        OneDistance(rows, limit, d, p, j, k);
      }
    }
  }

  lemma {:induction false} DescendantsOnce(rows: seq<ProcRow>, limit: nat, hops: nat, p: ProcRow)
    requires OneIncarnation(rows) && NoChain(rows, limit) && p in rows
    ensures NoRepeat(DescendantsFrom(rows, WithKey(rows, p.pid, p.startTs), hops))
  {
    KeyRow(rows, p);
    FirstLevel(rows, p);
    DescentOnce(rows, limit, p, 0, [p], hops);
  }

  /* ---- The join ---- */

  // Each pid has at most one row in the tree.
  ghost predicate OnePid(tree: seq<ProcRow>) {
    forall i, j :: 0 <= i < j < |tree| ==> tree[i].pid != tree[j].pid
  }

  lemma {:induction false} JoinOneResult(e: EventRow, tree: seq<ProcRow>)
    requires OnePid(tree)
    ensures |JoinOne(e, tree)| <= 1
    ensures forall r :: r in JoinOne(e, tree) <==>
              exists t :: t in tree && WrittenBy(e, t) && r == Resolved(e, Some(t.startTs))
  {
    if tree != [] {
      var n := |tree| - 1;
      JoinOneResult(e, tree[..n]);
      assert forall t :: t in tree <==> t in tree[..n] || t == tree[n];
      forall t | t in tree[..n] && WrittenBy(e, tree[n]) ensures !WrittenBy(e, t) {
        var k :| 0 <= k < n && tree[k] == t;
      }
      var before := JoinOne(e, tree[..n]);
      assert before != [] ==> before[0] in before;
    }
  }

  ghost predicate DistinctEvents(rs: seq<Resolved>) {
    forall i, j :: 0 <= i < j < |rs| ==> rs[i].event.id != rs[j].event.id
  }

  // The entry is this event, resolved to a process of the tree.
  ghost predicate Listed(events: seq<EventRow>, tree: seq<ProcRow>, r: Resolved) {
    r.event in events && exists t :: t in tree && WrittenBy(r.event, t) && r == Resolved(r.event, Some(t.startTs))
  }

  lemma {:induction false} JoinResult(events: seq<EventRow>, tree: seq<ProcRow>, r: Resolved)
    requires OnePid(tree)
    ensures r in Join(events, tree) <==> Listed(events, tree, r)
  {
    if events != [] {
      var n := |events| - 1;
      JoinResult(events[..n], tree, r);
      JoinOneResult(events[n], tree);
      assert events == events[..n] + [events[n]];
      assert r in JoinOne(events[n], tree) ==> r.event == events[n];
    }
  }

  lemma {:induction false} JoinDistinct(events: seq<EventRow>, tree: seq<ProcRow>)
    requires OnePid(tree) && IdsIncrease(events)
    ensures DistinctEvents(Join(events, tree))
  {
    if events != [] {
      var n := |events| - 1;
      var init, last := Join(events[..n], tree), JoinOne(events[n], tree);
      JoinDistinct(events[..n], tree);
      JoinOneResult(events[n], tree);
      forall r | r in init ensures r.event.id < events[n].id {
        JoinResult(events[..n], tree, r);
        var k :| 0 <= k < n && events[k] == r.event;
      }
      forall r | r in last ensures r.event == events[n] {
      }
      JoinAppend(init, last, events[n].id);
    }
  }

  lemma {:induction false} JoinAppend(init: seq<Resolved>, last: seq<Resolved>, id: nat)
    requires DistinctEvents(init) && |last| <= 1
    requires forall r :: r in init ==> r.event.id < id
    requires forall r :: r in last ==> r.event.id == id
    ensures DistinctEvents(init + last)
  {
    var all := init + last;
    forall i, j | 0 <= i < j < |all| ensures all[i].event.id != all[j].event.id {
      assert all[i] in init;
      if j == |init| {
        assert all[j] in last;
      }
    }
  }

  lemma {:induction false} InsertDistinct(sorted: seq<Resolved>, r: Resolved)
    requires DistinctEvents(sorted)
    requires forall x :: x in sorted ==> x.event.id != r.event.id
    ensures DistinctEvents(InsertByTime(sorted, r))
    ensures forall x :: x in InsertByTime(sorted, r) <==> x in sorted || x == r
  {
    if sorted != [] {
      var n := |sorted| - 1;
      assert sorted == sorted[..n] + [sorted[n]];
      if !Before(sorted[n].event, r.event) {
        InsertDistinct(sorted[..n], r);
        var ins := InsertByTime(sorted[..n], r);
        forall i | 0 <= i < |ins| ensures ins[i].event.id != sorted[n].event.id {
          assert ins[i] in ins;
        }
      }
    }
  }

  lemma {:induction false} SortDistinct(rs: seq<Resolved>)
    requires DistinctEvents(rs)
    ensures DistinctEvents(SortByTime(rs))
    ensures forall x :: x in SortByTime(rs) <==> x in rs
  {
    if rs != [] {
      var n := |rs| - 1;
      assert rs == rs[..n] + [rs[n]];
      SortDistinct(rs[..n]);
      InsertDistinct(SortByTime(rs[..n]), rs[n]);
    }
  }

  lemma {:induction false} TreeHasOnePid(rows: seq<ProcRow>, limit: nat, hops: nat, p: ProcRow)
    requires OneIncarnation(rows) && NoChain(rows, limit) && p in rows
    requires limit <= hops + 1 && ParentsAlive(rows)
    ensures OnePid(DescendantsFrom(rows, WithKey(rows, p.pid, p.startTs), hops))
  {
    var tree := DescendantsFrom(rows, WithKey(rows, p.pid, p.startTs), hops);
    DescendantsOnce(rows, limit, hops, p);
    forall i, j | 0 <= i < j < |tree| ensures tree[i].pid != tree[j].pid {
      assert tree[i] in tree && tree[j] in tree;
      DescendantsDescend(rows, limit, hops, p, tree[i]);
      DescendantsDescend(rows, limit, hops, p, tree[j]);
      SameRow(rows, tree[i], tree[j]);
    }
  }

  ghost predicate WriterBelow(rows: seq<ProcRow>, e: EventRow, p: ProcRow) {
    exists t :: t in rows && Descends(rows, t, p) && WrittenBy(e, t)
  }

  // The manifest over a depth limit of so many hops.
  function ManifestTo(rows: seq<ProcRow>, events: seq<EventRow>, p: ProcRow, hops: nat): seq<Resolved> {
    SortByTime(Join(events, DescendantsFrom(rows, WithKey(rows, p.pid, p.startTs), hops)))
  }

  lemma {:induction false} ManifestToIsExact(rows: seq<ProcRow>, events: seq<EventRow>, limit: nat, hops: nat,
                                             p: ProcRow)
    requires Family(rows, limit) && limit <= hops + 1 && p in rows && IdsIncrease(events)
    ensures var m := ManifestTo(rows, events, p, hops);
            && TimeOrdered(m)
            && DistinctEvents(m)
            && (forall e :: e in events && WriterBelow(rows, e, p) ==> exists r :: r in m && r.event == e)
            && (forall r :: r in m ==>
                  r.event in events &&
                  exists t :: t in rows && Descends(rows, t, p) && WrittenBy(r.event, t) && r.start == Some(t.startTs))
  {
    var tree := DescendantsFrom(rows, WithKey(rows, p.pid, p.startTs), hops);
    var joined := Join(events, tree);
    TreeHasOnePid(rows, limit, hops, p);
    JoinDistinct(events, tree);
    SortByTimeSorts(joined);
    SortDistinct(joined);
    forall t ensures t in tree <==> t in rows && Descends(rows, t, p) {
      DescendantsDescend(rows, limit, hops, p, t);
    }
    forall e | e in events && WriterBelow(rows, e, p) ensures exists r :: r in SortByTime(joined) && r.event == e {
      var t :| t in rows && Descends(rows, t, p) && WrittenBy(e, t);
      JoinResult(events, tree, Resolved(e, Some(t.startTs)));
    }
    forall r | r in SortByTime(joined)
      ensures r.event in events &&
              exists t :: t in rows && Descends(rows, t, p) && WrittenBy(r.event, t) && r.start == Some(t.startTs)
    {
      JoinResult(events, tree, r);
    }
  }

  /** The manifest of a process lists every event written by it or a descendant
   *  exactly once, in time order, and nothing else.
   */
  lemma {:induction false} ManifestIsExact(rows: seq<ProcRow>, events: seq<EventRow>, p: ProcRow)
    requires Family(rows, ANCESTRY_DEPTH + 1) && p in rows && IdsIncrease(events)
    ensures var m := Manifest(rows, events, p.pid, p.startTs);
            && TimeOrdered(m)
            && DistinctEvents(m)
            && (forall e :: e in events && WriterBelow(rows, e, p) ==> exists r :: r in m && r.event == e)
            && (forall r :: r in m ==>
                  r.event in events &&
                  exists t :: t in rows && Descends(rows, t, p) && WrittenBy(r.event, t) && r.start == Some(t.startTs))
  {
    ManifestToIsExact(rows, events, ANCESTRY_DEPTH + 1, DESCENT_DEPTH, p);
  }

  // Two ancestors of one process are on one line.
  lemma {:induction false} AncestorsComparable(rows: seq<ProcRow>, t: ProcRow, p: ProcRow, q: ProcRow)
    requires Descends(rows, t, p) && Descends(rows, t, q)
    ensures Descends(rows, p, q) || Descends(rows, q, p)
  {
    var j: nat :| Ancestor(rows, t, j) == Some(p);
    var k: nat :| Ancestor(rows, t, k) == Some(q);
    if j <= k {
      AncestorAdds(rows, t, j, k - j);
    } else {
      AncestorAdds(rows, t, k, j - k);
    }
  }

  lemma {:induction false} SharedEventMeansKin(rows: seq<ProcRow>, events: seq<EventRow>,
                                              p: ProcRow, q: ProcRow, a: Resolved, b: Resolved)
    requires Family(rows, ANCESTRY_DEPTH + 1) && p in rows && q in rows && IdsIncrease(events)
    requires a in Manifest(rows, events, p.pid, p.startTs)
    requires b in Manifest(rows, events, q.pid, q.startTs)
    requires a.event == b.event
    ensures Descends(rows, p, q) || Descends(rows, q, p)
  {
    ManifestIsExact(rows, events, p);
    ManifestIsExact(rows, events, q);
    var t :| t in rows && Descends(rows, t, p) && WrittenBy(a.event, t);
    var u :| u in rows && Descends(rows, u, q) && WrittenBy(b.event, u);
    SameRow(rows, t, u);
    AncestorsComparable(rows, t, p, q);
  }

  // Neither command is an ancestor of the other.
  ghost predicate Unrelated(rows: seq<ProcRow>, p: ProcRow, q: ProcRow) {
    p !in Ancestry(rows, q.pid, q.startTs) && q !in Ancestry(rows, p.pid, p.startTs)
  }

  /** Two commands neither of which descends from the other share no event. */
  lemma {:induction false} UnrelatedManifestsAreDisjoint(rows: seq<ProcRow>, events: seq<EventRow>, p: ProcRow,
                                                         q: ProcRow)
    requires Family(rows, ANCESTRY_DEPTH + 1) && p in rows && q in rows && IdsIncrease(events)
    requires Unrelated(rows, p, q)
    ensures forall a, b :: a in Manifest(rows, events, p.pid, p.startTs)
                           && b in Manifest(rows, events, q.pid, q.startTs)
                           ==> a.event != b.event
  {
    AncestryIsDescent(rows, ANCESTRY_DEPTH, q, p);
    AncestryIsDescent(rows, ANCESTRY_DEPTH, p, q);
    forall a, b | a in Manifest(rows, events, p.pid, p.startTs) && b in Manifest(rows, events, q.pid, q.startTs)
      ensures a.event != b.event
    {
      if a.event == b.event {
        SharedEventMeansKin(rows, events, p, q, a, b);
      }
    }
  }

  /* ---- The query's own output ---- */

  // An event as shown with this writer.
  function Shown(e: EventRow, t: ProcRow): FileEvent {
    FileEvent(e.ts, e.path, e.op, e.pid, t.info.comm, t.info.exe, t.info.cmdline, Some(t.startTs), e.otherPath)
  }

  lemma {:induction false} OneIncarnationOneKey(rows: seq<ProcRow>, t: ProcRow)
    requires OneIncarnation(rows) && t in rows
    ensures Find(rows, t.pid, t.startTs) == Some(t)
  {
    SameRow(rows, Find(rows, t.pid, t.startTs).value, t);
  }

  /** Each line of the query is an event of the manifest, shown with the name of the
   *  descendant that wrote it.
   */
  lemma {:induction false} EventsByTreeNamesWriters(rows: seq<ProcRow>, events: seq<EventRow>, p: ProcRow, i: nat)
    requires Family(rows, ANCESTRY_DEPTH + 1) && p in rows && IdsIncrease(events)
    requires i < |Manifest(rows, events, p.pid, p.startTs)|
    ensures |EventsByTree(rows, events, p.pid, p.startTs)| == |Manifest(rows, events, p.pid, p.startTs)|
    ensures var e := Manifest(rows, events, p.pid, p.startTs)[i].event;
            exists t :: t in rows && Descends(rows, t, p) && WrittenBy(e, t)
                        && EventsByTree(rows, events, p.pid, p.startTs)[i] == Shown(e, t)
  {
    ManifestIsExact(rows, events, p);
    var m := Manifest(rows, events, p.pid, p.startTs);
    var r := m[i];
    assert r in m;
    var t :| t in rows && Descends(rows, t, p) && WrittenBy(r.event, t) && r.start == Some(t.startTs);
    OneIncarnationOneKey(rows, t);
    assert ToFileEvent(rows, r) == Shown(r.event, t);
  }

  /* ---- From the query to an undo plan ---- */

  // The lines as planning reads them, for any naming of the instants.
  function ToUndo(name: Stamp -> string, log: seq<FileEvent>): (r: seq<Revert.FileEvent>)
    ensures |r| == |log|
    ensures forall i :: 0 <= i < |r| ==>
              r[i] == Revert.FileEvent(name(log[i].ts), log[i].path, log[i].op, log[i].otherPath)
  {
    if log == [] then []
    else
      var e := log[|log| - 1];
      ToUndo(name, log[..|log| - 1]) + [Revert.FileEvent(name(e.ts), e.path, e.op, e.otherPath)]
  }

  ghost predicate ListsEvents(m: seq<Resolved>, events: seq<EventRow>) {
    TimeOrdered(m) && forall i :: 0 <= i < |m| ==> m[i].event in events
  }

  lemma {:induction false} ManifestListsEvents(rows: seq<ProcRow>, events: seq<EventRow>, p: ProcRow)
    requires Family(rows, ANCESTRY_DEPTH + 1) && p in rows && IdsIncrease(events)
    ensures ListsEvents(Manifest(rows, events, p.pid, p.startTs), events)
  {
    ManifestIsExact(rows, events, p);
  }

  lemma {:induction false} ListedInOrder(m: seq<Resolved>, events: seq<EventRow>, i: nat, j: nat)
    requires ListsEvents(m, events) && i <= j < |m|
    ensures m[i].event in events && m[j].event in events && m[i].event.ts <= m[j].event.ts
  {
    assert i < j ==> Before(m[i].event, m[j].event);
  }

  // Names that sort as their instants do put the query's lines in the order planning needs.
  lemma {:induction false} ManifestFeedsPlan(rows: seq<ProcRow>, events: seq<EventRow>, p: ProcRow,
                                             name: Stamp -> string)
    requires Family(rows, ANCESTRY_DEPTH + 1) && p in rows && IdsIncrease(events)
    requires forall d, e :: d in events && e in events && d.ts <= e.ts ==> Lex.Le(name(d.ts), name(e.ts))
    ensures PlanProperties.EventsInOrder(ToUndo(name, EventsByTree(rows, events, p.pid, p.startTs)))
  {
    var m, log := Manifest(rows, events, p.pid, p.startTs), EventsByTree(rows, events, p.pid, p.startTs);
    ManifestListsEvents(rows, events, p);
    forall i, j | 0 <= i <= j < |log| ensures Lex.Le(name(log[i].ts), name(log[j].ts)) {
      ListedInOrder(m, events, i, j);
    }
  }
}
