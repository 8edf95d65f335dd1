/** The read side of the graph: history of a path, ancestry, descendants, the
 *  manifest of a process tree, and retention.
 *
 *  A recursive query is evaluated level by level; UNION ALL keeps duplicates, so
 *  levels are sequences.
 */
module Queries {
  import opened Wrappers
  import opened Clock
  import opened ProcTrees
  import opened Graph

  /* ---- Upwards ---- */

  // p can be c's parent: the pid c names, alive when c was born.
  predicate IsParentRow(p: ProcRow, c: ProcRow) {
    && c.ppid == Some(p.pid)
    && p.startTs <= c.startTs
    && (p.exitTs.None? || p.exitTs.value >= c.startTs)
  }

  function ParentRows(rows: seq<ProcRow>, c: ProcRow): (r: seq<ProcRow>)
    ensures forall x :: x in r <==> x in rows && IsParentRow(x, c)
  {
    if rows == [] then []
    else (if IsParentRow(rows[0], c) then [rows[0]] else []) + ParentRows(rows[1..], c)
  }

  function ParentsOfLevel(rows: seq<ProcRow>, level: seq<ProcRow>): seq<ProcRow> {
    if level == [] then [] else ParentRows(rows, level[0]) + ParentsOfLevel(rows, level[1..])
  }

  const ANCESTRY_DEPTH: nat := 64

  function WithKey(rows: seq<ProcRow>, pid: int, start: Stamp): (r: seq<ProcRow>)
    ensures forall x :: x in r <==> x in rows && HasKey(x, pid, start)
  {
    if rows == [] then []
    else (if HasKey(rows[0], pid, start) then [rows[0]] else []) + WithKey(rows[1..], pid, start)
  }

  function AncestryFrom(rows: seq<ProcRow>, level: seq<ProcRow>, hops: nat): seq<ProcRow>
    decreases hops
  {
    level + if hops > 0 then AncestryFrom(rows, ParentsOfLevel(rows, level), hops - 1) else []
  }

  function Ancestry(rows: seq<ProcRow>, pid: int, start: Stamp): seq<ProcRow> {
    AncestryFrom(rows, WithKey(rows, pid, start), ANCESTRY_DEPTH)
  }

  /* ---- Downwards ---- */

  // No time window here: any row that names the pid as its parent.
  function ChildRows(rows: seq<ProcRow>, p: ProcRow): (r: seq<ProcRow>)
    ensures forall x :: x in r <==> x in rows && x.ppid == Some(p.pid)
  {
    if rows == [] then []
    else (if rows[0].ppid == Some(p.pid) then [rows[0]] else []) + ChildRows(rows[1..], p)
  }

  function ChildrenOfLevel(rows: seq<ProcRow>, level: seq<ProcRow>): seq<ProcRow> {
    if level == [] then [] else ChildRows(rows, level[0]) + ChildrenOfLevel(rows, level[1..])
  }

  const DESCENT_DEPTH: nat := 256

  function DescendantsFrom(rows: seq<ProcRow>, level: seq<ProcRow>, hops: nat): seq<ProcRow>
    decreases hops
  {
    level + if hops > 0 then DescendantsFrom(rows, ChildrenOfLevel(rows, level), hops - 1) else []
  }

  function Descendants(rows: seq<ProcRow>, pid: int, start: Stamp): seq<ProcRow> {
    DescendantsFrom(rows, WithKey(rows, pid, start), DESCENT_DEPTH)
  }

  /* ---- Events ---- */

  datatype FileEvent = FileEvent(
    ts: Stamp, path: string, op: string, pid: int,
    comm: string, exe: string, cmdline: string,
    procStart: Option<Stamp>, otherPath: Option<string>)

  // An event with the incarnation a query resolved it to.
  datatype Resolved = Resolved(event: EventRow, start: Option<Stamp>)

  function ToFileEvent(rows: seq<ProcRow>, r: Resolved): FileEvent {
    var e := r.event;
    var writer := match r.start case None => None case Some(s) => Find(rows, e.pid, s);
    var info := match writer case None => ProcInfo("", "", "", -1) case Some(p) => p.info;
    FileEvent(e.ts, e.path, e.op, e.pid, info.comm, info.exe, info.cmdline, r.start, e.otherPath)
  }

  function ToFileEvents(rows: seq<ProcRow>, rs: seq<Resolved>): (r: seq<FileEvent>)
    ensures |r| == |rs|
    ensures forall i :: 0 <= i < |r| ==> r[i] == ToFileEvent(rows, rs[i])
  {
    if rs == [] then []
    else ToFileEvents(rows, rs[..|rs| - 1]) + [ToFileEvent(rows, rs[|rs| - 1])]
  }

  // ORDER BY ts, id
  predicate Before(a: EventRow, b: EventRow) {
    a.ts < b.ts || (a.ts == b.ts && a.id <= b.id)
  }

  function InsertByTime(sorted: seq<Resolved>, r: Resolved): seq<Resolved> {
    if sorted == [] then [r]
    else
      var n := |sorted| - 1;
      if Before(sorted[n].event, r.event) then sorted + [r] else InsertByTime(sorted[..n], r) + [sorted[n]]
  }

  function SortByTime(rs: seq<Resolved>): seq<Resolved> {
    if rs == [] then [] else InsertByTime(SortByTime(rs[..|rs| - 1]), rs[|rs| - 1])
  }

  /* ---- History of one path ---- */

  // The stored binding, or the incarnation whose window holds the event.
  function Resolve(rows: seq<ProcRow>, e: EventRow): Resolved {
    Resolved(e, if e.procStart.Some? then e.procStart else Newest(rows, e.pid, e.ts, true))
  }

  function PathEvents(rows: seq<ProcRow>, events: seq<EventRow>, path: string): seq<Resolved> {
    if events == [] then []
    else
      var n := |events| - 1;
      PathEvents(rows, events[..n], path) + if events[n].path == path then [Resolve(rows, events[n])] else []
  }

  function LogFile(rows: seq<ProcRow>, events: seq<EventRow>, path: string): seq<FileEvent> {
    ToFileEvents(rows, SortByTime(PathEvents(rows, events, path)))
  }

  function Blame(rows: seq<ProcRow>, events: seq<EventRow>, path: string): Option<FileEvent> {
    var log := LogFile(rows, events, path);
    if log == [] then None else Some(log[|log| - 1])
  }

  /* ---- The manifest of a process tree ---- */

  predicate WrittenBy(e: EventRow, t: ProcRow) {
    e.pid == t.pid && (e.procStart == Some(t.startTs) || (e.procStart.None? && t.startTs <= e.ts))
  }

  // All (event, tree row) pairs the join keeps.
  function JoinOne(e: EventRow, tree: seq<ProcRow>): seq<Resolved> {
    if tree == [] then []
    else
      var n := |tree| - 1;
      JoinOne(e, tree[..n]) + if WrittenBy(e, tree[n]) then [Resolved(e, Some(tree[n].startTs))] else []
  }

  function Join(events: seq<EventRow>, tree: seq<ProcRow>): seq<Resolved> {
    if events == [] then []
    else Join(events[..|events| - 1], tree) + JoinOne(events[|events| - 1], tree)
  }

  function Manifest(rows: seq<ProcRow>, events: seq<EventRow>, pid: int, start: Stamp): seq<Resolved> {
    SortByTime(Join(events, Descendants(rows, pid, start)))
  }

  function EventsByTree(rows: seq<ProcRow>, events: seq<EventRow>, pid: int, start: Stamp): seq<FileEvent> {
    ToFileEvents(rows, Manifest(rows, events, pid, start))
  }

  /* ---- Ordering by time sorts ---- */

  ghost predicate TimeOrdered(rs: seq<Resolved>) {
    forall i, j :: 0 <= i < j < |rs| ==> Before(rs[i].event, rs[j].event)
  }

  lemma {:induction false} InsertByTimePermutes(sorted: seq<Resolved>, r: Resolved)
    ensures multiset(InsertByTime(sorted, r)) == multiset(sorted) + multiset{r}
  {
    if sorted != [] {
      var n := |sorted| - 1;
      assert sorted == sorted[..n] + [sorted[n]];
      if !Before(sorted[n].event, r.event) {
        InsertByTimePermutes(sorted[..n], r);
      }
    }
  }

  lemma {:induction false} InsertByTimeOrders(sorted: seq<Resolved>, r: Resolved)
    requires TimeOrdered(sorted)
    ensures TimeOrdered(InsertByTime(sorted, r))
  {
    if sorted != [] {
      var n := |sorted| - 1;
      if !Before(sorted[n].event, r.event) {
        var init := sorted[..n];
        InsertByTimeOrders(init, r);
        var ins := InsertByTime(init, r);
        forall x | x in ins ensures Before(x.event, sorted[n].event) {
          InsertByTimePermutes(init, r);
          assert x in multiset(ins);
          assert x in init || x == r;
        }
      }
    }
  }

  lemma {:induction false} SortByTimeSorts(rs: seq<Resolved>)
    ensures TimeOrdered(SortByTime(rs))
    ensures multiset(SortByTime(rs)) == multiset(rs)
  {
    if rs != [] {
      var n := |rs| - 1;
      SortByTimeSorts(rs[..n]);
      assert rs == rs[..n] + [rs[n]];
      InsertByTimeOrders(SortByTime(rs[..n]), rs[n]);
      InsertByTimePermutes(SortByTime(rs[..n]), rs[n]);
    }
  }
}
