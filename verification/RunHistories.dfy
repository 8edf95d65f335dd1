/** What a whole run of the daemon leaves in the tables: its writes, each bound to its
 *  author, under the name the author had.
 */
module RunHistories {
  import opened Wrappers
  import opened Clock
  import opened ProcTrees
  import opened Graph
  import opened Queries
  import opened LazyStore
  import opened LateWrites
  import opened Histories

  /* ---- Events are writes ---- */

  // The event shows the columns of this step.
  predicate Records(e: EventRow, step: (Stamp, Action)) {
    && step.1.Write?
    && e.ts == step.0 && e.path == step.1.path && e.op == step.1.op && e.pid == step.1.pid
    && e.otherPath == step.1.other
  }

  function Writes(run: Run): Run {
    if run == [] then []
    else
      var n := |run| - 1;
      Writes(run[..n]) + if run[n].1.Write? then [run[n]] else []
  }

  /** After any run the events are its writes in order, column by column, numbered from 1. */
  lemma {:induction false} EventsAreWrites(run: Run)
    ensures var es, ws := After(START, run).events, Writes(run);
            |es| == |ws| && forall k :: 0 <= k < |es| ==> Records(es[k], ws[k]) && es[k].id == k + 1
  {
    if run != [] {
      EventsAreWrites(run[..|run| - 1]);
    }
  }

  lemma {:induction false} StepRecords(w: World, ts: Stamp, a: Action)
    ensures var v := Next(w, ts, a);
            v.now == ts && if a.Write? then |v.events| == |w.events| + 1 && v.events[..|w.events|] == w.events
                                            && v.events[|w.events|].ts == ts
                           else v.events == w.events
  {
  }

  ghost predicate InTime(events: seq<EventRow>, now: Stamp) {
    && (forall i :: 0 <= i < |events| ==> events[i].ts <= now)
    && (forall i, j :: 0 <= i < j < |events| ==> events[i].ts <= events[j].ts)
  }

  lemma {:induction false} OneMoreInTime(events: seq<EventRow>, now: Stamp, longer: seq<EventRow>, ts: Stamp)
    requires InTime(events, now) && now <= ts
    requires |longer| == |events| + 1 && longer[..|events|] == events && longer[|events|].ts == ts
    ensures InTime(longer, ts)
  {
    assert forall i :: 0 <= i < |events| ==> longer[i] == longer[..|events|][i];
  }

  lemma {:induction false} WritesInTime(run: Run)
    requires Legal(START, run)
    ensures InTime(After(START, run).events, After(START, run).now)
  {
    if run != [] {
      var n := |run| - 1;
      var before := After(START, run[..n]);
      WritesInTime(run[..n]);
      StepRecords(before, run[n].0, run[n].1);
      if run[n].1.Write? {
        OneMoreInTime(before.events, before.now, After(START, run).events, run[n].0);
      }
    }
  }

  /* ---- Names ---- */

  // The identity a message gives a pid; a fork gives an empty one.
  function NameGiven(a: Action, pid: int): Option<ProcInfo> {
    match a
    case Seed(p, _, info) => if p == pid then Some(info) else None
    case Fork(_, p) => if p == pid then Some(ProcInfo("", "", "", 0)) else None
    case Exec(p, info, _) => if p == pid then Some(info) else None
    case _ => None
  }

  // The identity the messages of a run gave a pid last.
  function NameOf(run: Run, pid: int): Option<ProcInfo> {
    if run == [] then None
    else
      var n := |run| - 1;
      if NameGiven(run[n].1, pid).Some? then NameGiven(run[n].1, pid) else NameOf(run[..n], pid)
  }

  lemma {:induction false} StepNames(w: World, ts: Stamp, a: Action, pid: int)
    requires pid in Next(w, ts, a).tree
    ensures NameGiven(a, pid) == None ==> pid in w.tree && Next(w, ts, a).tree[pid].info == w.tree[pid].info
    ensures NameGiven(a, pid).Some? ==> Next(w, ts, a).tree[pid].info == NameGiven(a, pid).value
  {
    if a.Write? {
      MarkAllAt(w.tree, UnpersistedChain(w.tree, a.pid), pid);
    }
  }

  /** After any run every entry of the tree bears the last name its pid was given. */
  lemma {:induction false} TreeNames(run: Run, pid: int)
    requires pid in After(START, run).tree
    ensures NameOf(run, pid) == Some(After(START, run).tree[pid].info)
  {
    var n := |run| - 1;
    StepNames(After(START, run[..n]), run[n].0, run[n].1, pid);
    if NameGiven(run[n].1, pid) == None {
      TreeNames(run[..n], pid);
    }
  }

  /* ---- Stored names ---- */

  lemma {:induction false} PersistKeepsName(store: seq<ProcRow>, chain: seq<(int, ProcNode)>, p: int, s: Stamp)
    requires Find(store, p, s).Some?
    ensures var r := Find(PersistRows(store, chain), p, s);
            r.Some? && r.value.info == Find(store, p, s).value.info
  {
    if chain != [] {
      var n := |chain| - 1;
      var before, pid, node := PersistRows(store, chain[..n]), chain[n].0, chain[n].1;
      var row := ProcRow(pid, node.startTs, node.ppid, node.info, None);
      PersistKeepsName(store, chain[..n], p, s);
      FindInsert(before, row, p, s);
      if node.exited.Some? {
        FindSetExitAt(InsertOrIgnore(before, row), pid, node.startTs, node.exited.value, p, s);
      }
    }
  }

  // What a step does to a row of the store, as far as names go.
  lemma {:induction false} StepStores(w: World, ts: Stamp, a: Action, p: int, s: Stamp)
    ensures var v := Next(w, ts, a);
            && (Find(w.store, p, s).Some? ==>
                  Find(v.store, p, s).Some? && Find(v.store, p, s).value.info == Find(w.store, p, s).value.info)
            && (Find(w.store, p, s).None? && Find(v.store, p, s).Some? ==>
                  a.Write? && p in w.tree && w.tree[p].startTs == s && Find(v.store, p, s).value.info == w.tree[p].info)
  {
    match a
    case Exit(pid) =>
      if pid in w.tree && w.tree[pid].persisted {
        FindSetExitAt(w.store, pid, w.tree[pid].startTs, ts, p, s);
      }
    case Write(_, _, pid, _) =>
      var chain := UnpersistedChain(w.tree, pid);
      if Find(w.store, p, s).Some? {
        PersistKeepsName(w.store, chain, p, s);
      } else if Find(PersistRows(w.store, chain), p, s).Some? {
        ChainIsRootFirst(w.tree, pid);
        StoredIdentity(w.store, chain, p, s);
      }
    case _ =>
  }

  // Step n of the run is the one that stored this row.
  ghost predicate StoredBy(run: Run, n: nat, p: int, s: Stamp) {
    && n < |run| && run[n].1.Write?
    && Find(After(START, run[..n]).store, p, s).None?
    && Find(After(START, run[..n + 1]).store, p, s).Some?
  }

  /** Every stored row was stored by one write of the run, and bears the last name its pid
   *  had been given by then.
   */
  lemma {:induction false} RowsBearNames(run: Run, p: int, s: Stamp) returns (n: nat)
    requires Find(After(START, run).store, p, s).Some?
    ensures StoredBy(run, n, p, s)
    ensures NameOf(run[..n], p) == Some(Find(After(START, run).store, p, s).value.info)
  {
    var k := |run| - 1;
    var before := After(START, run[..k]);
    StepStores(before, run[k].0, run[k].1, p, s);
    if Find(before.store, p, s).Some? {
      n := RowsBearNames(run[..k], p, s);
      assert run[..k][..n] == run[..n] && run[..k][..n + 1] == run[..n + 1];
    } else {
      n := k;
      TreeNames(run[..k], p);
      assert run[..k + 1] == run;
    }
  }

  lemma {:induction false} NameStays(run: Run, i: nat, pid: int)
    requires i < |run| && NameGiven(run[i].1, pid).Some?
    requires forall j :: i < j < |run| ==> NameGiven(run[j].1, pid) == None
    ensures NameOf(run, pid) == NameGiven(run[i].1, pid)
  {
    if i < |run| - 1 {
      NameStays(run[..|run| - 1], i, pid);
    }
  }

  /** From the last exec of a process not yet stored, through any steps, to its first
   *  write: the stored row bears the name of that exec.
   */
  lemma {:induction false} ExecNamesRow(run: Run, i: nat, ts: Stamp, path: string, op: string, other: Option<string>)
    requires i < |run| && run[i].1.Exec?
    requires forall j :: i < j < |run| ==> NameGiven(run[j].1, run[i].1.pid) == None
    requires Legal(START, run) && After(START, run).now <= ts
    requires run[i].1.pid in After(START, run).tree && !After(START, run).tree[run[i].1.pid].persisted
    ensures var w, pid := After(START, run), run[i].1.pid;
            var row := Find(Next(w, ts, Write(path, op, pid, other)).store, pid, w.tree[pid].startTs);
            row.Some? && row.value.info == run[i].1.info
  {
    StartInv();
    RunKeepsInv(START, run);
    NameStays(run, i, run[i].1.pid);
    TreeNames(run, run[i].1.pid);
    WriteBindsAuthor(After(START, run), ts, path, op, run[i].1.pid, other);
  }

  /* ---- The log of a path after a run ---- */

  function WritesTo(run: Run, path: string): Run {
    if run == [] then []
    else
      var n := |run| - 1;
      WritesTo(run[..n], path) + if run[n].1.Write? && run[n].1.path == path then [run[n]] else []
  }

  // One list of events records one list of steps.
  ghost predicate RecordsAll(es: seq<EventRow>, steps: Run) {
    |es| == |steps| && forall i :: 0 <= i < |es| ==> Records(es[i], steps[i])
  }

  lemma {:induction false} LastEvent(w: World, ts: Stamp, a: Action)
    requires a.Write?
    ensures var v := Next(w, ts, a);
            v.events == w.events + [v.events[|w.events|]] && Records(v.events[|w.events|], (ts, a))
  {
  }

  lemma {:induction false} PathEventsOfRun(run: Run, path: string)
    ensures RecordsAll(PathOnly(After(START, run).events, path), WritesTo(run, path))
  {
    if run != [] {
      var n := |run| - 1;
      var before, es := After(START, run[..n]), After(START, run).events;
      PathEventsOfRun(run[..n], path);
      if run[n].1.Write? {
        LastEvent(before, run[n].0, run[n].1);
        assert es[..|es| - 1] == before.events;
        OneMoreRecord(PathOnly(before.events, path), WritesTo(run[..n], path), es[|es| - 1], run[n], path);
      } else {
        StepRecords(before, run[n].0, run[n].1);
      }
    }
  }

  lemma {:induction false} OneMoreRecord(es: seq<EventRow>, steps: Run, e: EventRow, step: (Stamp, Action),
                                         path: string)
    requires RecordsAll(es, steps) && Records(e, step)
    ensures RecordsAll(es + (if e.path == path then [e] else []),
                       steps + if step.1.Write? && step.1.path == path then [step] else [])
  {
  }

  lemma {:induction false} PathEventsStayOrdered(rows: seq<ProcRow>, events: seq<EventRow>, path: string)
    requires forall i, j :: 0 <= i < j < |events| ==> Before(events[i], events[j])
    ensures TimeOrdered(PathEvents(rows, events, path))
    ensures forall r :: r in PathEvents(rows, events, path) ==> r.event in events
  {
    if events != [] {
      PathEventsStayOrdered(rows, events[..|events| - 1], path);
    }
  }

  lemma {:induction false} SortedStays(rs: seq<Resolved>)
    requires TimeOrdered(rs)
    ensures SortByTime(rs) == rs
  {
    if rs != [] {
      var n := |rs| - 1;
      SortedStays(rs[..n]);
      assert n > 0 ==> Before(rs[n - 1].event, rs[n].event);
      assert rs == rs[..n] + [rs[n]];
    }
  }

  // A line of the log shows this step.
  predicate ShowsStep(line: FileEvent, step: (Stamp, Action)) {
    && step.1.Write?
    && line.ts == step.0 && line.path == step.1.path && line.op == step.1.op && line.pid == step.1.pid
    && line.otherPath == step.1.other
  }

  /** After every legal run the log of a path shows the run's writes to that path, one line
   *  a write, in the order they were made.
   */
  lemma {:induction false} LogIsWrites(run: Run, path: string)
    requires Legal(START, run)
    ensures var w := After(START, run);
            var log, steps := LogFile(w.store, w.events, path), WritesTo(run, path);
            |log| == |steps| && forall i :: 0 <= i < |log| ==> ShowsStep(log[i], steps[i])
  {
    var w := After(START, run);
    var found := PathEvents(w.store, w.events, path);
    EventsAreWrites(run);
    WritesInTime(run);
    PathEventsStayOrdered(w.store, w.events, path);
    SortedStays(found);
    PathEventsAre(w.store, w.events, path);
    PathEventsOfRun(run, path);
    var es, steps := EventsOf(found), WritesTo(run, path);
    forall i | 0 <= i < |found| ensures ShowsStep(ToFileEvent(w.store, found[i]), steps[i]) {
      assert Records(es[i], steps[i]);
      LineNames(w.store, found[i]);
    }
  }

  /* ---- Its authors ---- */

  lemma {:induction false} KeptSince(run: Run, i: nat, p: int, s: Stamp, e: EventRow)
    requires i <= |run|
    ensures Find(After(START, run[..i]).store, p, s).Some? ==> Find(After(START, run).store, p, s).Some?
    ensures e in After(START, run[..i]).events ==> e in After(START, run).events
    decreases |run|
  {
    if i == |run| {
      assert run[..i] == run;
    } else {
      var n := |run| - 1;
      var before := After(START, run[..n]);
      assert run[..n][..i] == run[..i];
      KeptSince(run[..n], i, p, s, e);
      StepStores(before, run[n].0, run[n].1, p, s);
      StepRecords(before, run[n].0, run[n].1);
    }
  }

  lemma {:induction false} WriteIsBound(run: Run, i: nat) returns (e: EventRow)
    requires Legal(START, run) && i < |run| && run[i].1.Write? && run[i].1.pid in After(START, run[..i]).tree
    ensures e in After(START, run).events && Records(e, run[i])
    ensures e.procStart == Some(After(START, run[..i]).tree[run[i].1.pid].startTs)
    ensures Find(After(START, run[..i + 1]).store, e.pid, e.procStart.value).Some?
  {
    var w, a := After(START, run[..i]), run[i].1;
    assert run[..i + 1][..i] == run[..i];
    LegalPrefix(run, i + 1);
    LegalPrefix(run, i);
    StartInv();
    RunKeepsInv(START, run[..i]);
    WriteBindsAuthor(w, run[i].0, a.path, a.op, a.pid, a.other);
    LastEvent(w, run[i].0, a);
    e := After(START, run[..i + 1]).events[|w.events|];
    KeptSince(run, i + 1, 0, 0, e);
  }

  lemma {:induction false} LegalPrefix(run: Run, i: nat)
    requires Legal(START, run) && i <= |run|
    ensures Legal(START, run[..i])
    decreases |run|
  {
    if i == |run| {
      assert run[..i] == run;
    } else {
      var n := |run| - 1;
      assert run[..n][..i] == run[..i];
      LegalPrefix(run[..n], i);
    }
  }

  // The line shows the step, bound to this start under this name.
  predicate Attributes(line: FileEvent, step: (Stamp, Action), start: Stamp, name: ProcInfo) {
    && ShowsStep(line, step) && line.procStart == Some(start)
    && line.comm == name.comm && line.exe == name.exe && line.cmdline == name.cmdline
  }

  /** Whatever a run does before and after, a write by a process the tree knew is in the
   *  log of its path, bound to that very incarnation, under the last name the process had
   *  been given by the write that stored it, which is this one or an earlier.
   */
  lemma {:induction false} LogNamesAuthor(run: Run, i: nat) returns (line: FileEvent, n: nat)
    requires Legal(START, run) && i < |run| && run[i].1.Write? && run[i].1.pid in After(START, run[..i]).tree
    ensures var w, pid := After(START, run), run[i].1.pid;
            var start := After(START, run[..i]).tree[pid].startTs;
            && n <= i && StoredBy(run, n, pid, start) && NameOf(run[..n], pid).Some?
            && line in LogFile(w.store, w.events, run[i].1.path)
            && Attributes(line, run[i], start, NameOf(run[..n], pid).value)
  {
    var w, pid, path := After(START, run), run[i].1.pid, run[i].1.path;
    var start := After(START, run[..i]).tree[pid].startTs;
    var e := WriteIsBound(run, i);
    KeptSince(run, i + 1, pid, start, e);
    n := RowsBearNames(run, pid, start);
    if n > i {
      LegalPrefix(run, n);
      assert run[..n][..i + 1] == run[..i + 1];
      KeptSince(run[..n], i + 1, pid, start, e);
    }
    var listed := LogLists(w.store, w.events, path);
    var log := LogFile(w.store, w.events, path);
    assert multiset(listed)[e] == multiset(w.events)[e] > 0;
    var k :| 0 <= k < |listed| && listed[k] == e;
    line := log[k];
    NameOfLine(run, line, pid, start);
  }

  lemma {:induction false} NameOfLine(run: Run, line: FileEvent, pid: int, start: Stamp)
    requires Legal(START, run) && NamesIdentity(After(START, run).store, line)
    requires line.pid == pid && line.procStart == Some(start) && Find(After(START, run).store, pid, start).Some?
    ensures var name := Find(After(START, run).store, pid, start).value.info;
            line.comm == name.comm && line.exe == name.exe && line.cmdline == name.cmdline
  {
    var w := After(START, run);
    StartInv();
    RunKeepsInv(START, run);
    var row := Find(w.store, pid, start).value;
    assert row in w.store;
    var r :| r in w.store && r.pid == line.pid && line.procStart == Some(r.startTs)
             && line.comm == r.info.comm && line.exe == r.info.exe && line.cmdline == r.info.cmdline;
    MemberIsFound(w.store, r);
  }
}
