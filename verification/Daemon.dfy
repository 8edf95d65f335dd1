/** The daemon's handlers over the shared tree and the graph. */
module Daemon {
  import opened Wrappers
  import opened Clock
  import opened ProcTrees
  import opened Graph
  import LazyStore

  class Whodidd {
    const table: ProcTree
    const graph: Store
    ghost var eager: seq<ProcRow>
    ghost var missed: set<(int, Stamp)>
    ghost var now: Stamp

    constructor ()
      ensures fresh(table) && fresh(graph)
      ensures View() == LazyStore.START
    {
      table := new ProcTree();
      graph := new Store();
      eager, missed, now := [], {}, 0;
    }

    ghost function View(): LazyStore.World
      reads this, table, graph
    {
      LazyStore.World(table.procs, graph.processes, graph.events, eager, missed, now)
    }

    // Root first: each row before the rows that name it as their parent.
    method PersistChain(pid: int)
      modifies table, graph
      ensures var chain := UnpersistedChain(old(table.procs), pid);
              && table.procs == LazyStore.MarkAll(old(table.procs), chain)
              && graph.processes == LazyStore.PersistRows(old(graph.processes), chain)
              && graph.events == old(graph.events)
    {
      var chain := table.Chain(pid);
      for i := 0 to |chain|
        invariant table.procs == LazyStore.MarkAll(old(table.procs), chain[..i])
        invariant graph.processes == LazyStore.PersistRows(old(graph.processes), chain[..i])
        invariant graph.events == old(graph.events)
      {
        ghost var tree, store := old(table.procs), old(graph.processes);
        LazyStore.OneMore(tree, store, chain, i);
        var (cpid, node) := chain[i];
        graph.RecordExistingRow(cpid, node.ppid, node.info, node.startTs);
        if node.exited.Some? {
          graph.RecordExitAt(cpid, node.startTs, node.exited.value);
        }
        table.MarkPersisted(cpid);
      }
      assert chain[..|chain|] == chain;
    }

    // The name on the log line is the tree's, or what /proc says of a pid it does not know.
    method LogEventFull(path: string, op: string, pid: int, other: Option<string>, ts: Stamp, procName: ProcInfo)
      returns (who: ProcInfo)
      modifies this, table, graph
      ensures View() == LazyStore.Next(old(View()), ts, LazyStore.Write(path, op, pid, other))
      ensures old(LazyStore.Inv(View()) && LazyStore.Enabled(View(), ts, LazyStore.Write(path, op, pid, other)))
              ==> LazyStore.Inv(View())
      ensures graph.events[..|old(graph.events)|] == old(graph.events)
              && |graph.events| == |old(graph.events)| + 1
      ensures var e := graph.events[|old(graph.events)|];
              e.ts == ts && e.path == path && e.op == op && e.pid == pid && e.otherPath == other
      ensures who == if pid in old(table.procs) then old(table.procs)[pid].info else procName
    {
      ghost var before := View();
      PersistChain(pid);
      graph.RecordEventFull(path, op, pid, other, ts);
      LazyStore.MarkAllAt(before.tree, UnpersistedChain(before.tree, pid), pid);
      who := if pid in table.procs then table.procs[pid].info else procName;
      now := ts;
      if LazyStore.Inv(before) && before.now <= ts {
        LazyStore.StepKeepsInv(before, ts, LazyStore.Write(path, op, pid, other));
      }
    }

    method OnSeed(pid: int, ppid: Option<int>, info: ProcInfo, ts: Stamp)
      modifies this, table
      ensures table.procs == old(table.procs)[pid := ProcNode(ppid, ts, info, None, false)]
      ensures View() == LazyStore.Next(old(View()), ts, LazyStore.Seed(pid, ppid, info))
      ensures old(LazyStore.Inv(View()) && LazyStore.Enabled(View(), ts, LazyStore.Seed(pid, ppid, info)))
              ==> LazyStore.Inv(View())
    {
      ghost var before, step := View(), LazyStore.Seed(pid, ppid, info);
      table.Seed(pid, ppid, info, ts);
      eager, now := RecordExisting(eager, pid, ppid, info, ts), ts;
      if LazyStore.Inv(before) && LazyStore.Enabled(before, ts, step) {
        LazyStore.StepKeepsInv(before, ts, step);
      }
    }

    method OnFork(parent: int, child: int, ts: Stamp)
      modifies this, table
      ensures table.procs == old(table.procs)[child := ProcNode(Some(parent), ts, ProcInfo("", "", "", 0), None, false)]
      ensures View() == LazyStore.Next(old(View()), ts, LazyStore.Fork(parent, child))
      ensures old(LazyStore.Inv(View()) && LazyStore.Enabled(View(), ts, LazyStore.Fork(parent, child)))
              ==> LazyStore.Inv(View())
    {
      ghost var before, step := View(), LazyStore.Fork(parent, child);
      table.OnFork(parent, child, ts);
      eager, now := RecordFork(eager, parent, child, ts), ts;
      if LazyStore.Inv(before) && LazyStore.Enabled(before, ts, step) {
        LazyStore.StepKeepsInv(before, ts, step);
      }
    }

    method OnExec(pid: int, info: ProcInfo, ppidIfNew: Option<int>, ts: Stamp)
      modifies this, table
      ensures table.procs.Keys == old(table.procs).Keys + {pid} && table.procs[pid].info == info
      ensures View() == LazyStore.Next(old(View()), ts, LazyStore.Exec(pid, info, ppidIfNew))
      ensures old(LazyStore.Inv(View()) && LazyStore.Enabled(View(), ts, LazyStore.Exec(pid, info, ppidIfNew)))
              ==> LazyStore.Inv(View())
    {
      ghost var before, step := View(), LazyStore.Exec(pid, info, ppidIfNew);
      missed := missed + LazyStore.Missed(table.procs, pid, ppidIfNew, ts);
      table.OnExec(pid, info, ppidIfNew, ts);
      eager, now := RecordExec(eager, pid, info, ts), ts;
      if LazyStore.Inv(before) && LazyStore.Enabled(before, ts, step) {
        LazyStore.StepKeepsInv(before, ts, step);
      }
    }

    method OnExit(pid: int, ts: Stamp)
      modifies this, table, graph
      ensures graph.events == old(graph.events)
      ensures !(pid in old(table.procs) && old(table.procs)[pid].persisted) ==>
                graph.processes == old(graph.processes)
      ensures pid in old(table.procs) && old(table.procs)[pid].persisted ==>
                |graph.processes| == |old(graph.processes)| &&
                forall i :: 0 <= i < |graph.processes| ==>
                  var r := old(graph.processes)[i];
                  graph.processes[i] == if r.pid == pid && r.startTs == old(table.procs)[pid].startTs
                                        then ProcRow(pid, r.startTs, r.ppid, r.info, Some(ts)) else r
      ensures View() == LazyStore.Next(old(View()), ts, LazyStore.Exit(pid))
      ensures old(LazyStore.Inv(View()) && LazyStore.Enabled(View(), ts, LazyStore.Exit(pid)))
              ==> LazyStore.Inv(View())
    {
      ghost var before, step := View(), LazyStore.Exit(pid);
      var start := table.OnExit(pid, ts);
      if start.Some? {
        graph.RecordExitAt(pid, start.value, ts);
      }
      eager, now := SetExitLive(eager, pid, ts), ts;
      if LazyStore.Inv(before) && LazyStore.Enabled(before, ts, step) {
        LazyStore.StepKeepsInv(before, ts, step);
      }
    }

    method EvictStale(ts: Stamp)
      modifies this, table
      ensures forall p :: p in table.procs <==>
                && p in old(table.procs)
                && (old(table.procs)[p].exited == None || old(table.procs)[p].exited.value >= ts - 90)
      ensures View() == LazyStore.Next(old(View()), ts, LazyStore.Evict)
      ensures old(LazyStore.Inv(View()) && LazyStore.Enabled(View(), ts, LazyStore.Evict))
              ==> LazyStore.Inv(View())
    {
      ghost var before := View();
      var _ := table.EvictStale(ts - EXITED_GRACE_SECS);
      now := ts;
      if LazyStore.Inv(before) && before.now <= ts {
        LazyStore.StepKeepsInv(before, ts, LazyStore.Evict);
      }
    }
  }
}
