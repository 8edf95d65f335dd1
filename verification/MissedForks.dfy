/** The one event the two stores record differently: an exec of a process whose
 *  fork was never seen.  The tree keeps the parent read from /proc, the eager
 *  row has none.
 */
module MissedForks {
  import opened Wrappers
  import opened Clock
  import opened ProcTrees
  import opened Graph
  import opened LazyStore
  import AncestorClosed

  lemma {:induction false} ExecOfUnseen(w: World, ts: Stamp, pid: int, info: ProcInfo, ppid: Option<int>)
    requires Inv(w) && w.now <= ts && pid !in w.tree
    ensures var u := Next(w, ts, Exec(pid, info, ppid));
            && u.tree == w.tree[pid := ProcNode(ppid, ts, info, None, false)]
            && u.store == w.store && LineageAt(w.store, pid, ts) == None
            && LineageAt(u.eager, pid, ts) == Some(Lineage(None, None))
  {
    LiveMeansInTree(w, pid);
    assert RowAt(w, pid, ts);
    if LineageAt(w.eager, pid, ts).Some? {
      NewStartIsNew(w, ts, pid, ts);
    }
    LineageInsert(w.eager, ProcRow(pid, ts, None, info, None), pid, ts);
  }

  // A write stores its author with the parent the tree gives it.
  lemma {:induction false} WriteStoresParent(tree: Procs, store: seq<ProcRow>, pid: int)
    requires pid in tree && !tree[pid].persisted
    requires LineageAt(store, pid, tree[pid].startTs) == None
    ensures var l := LineageAt(PersistRows(store, UnpersistedChain(tree, pid)), pid, tree[pid].startTs);
            l.Some? && l.value.ppid == tree[pid].ppid
  {
    var chain := UnpersistedChain(tree, pid);
    ChainIsRootFirst(tree, pid);
    var n := |chain| - 1;
    AncestorClosed.PersistRowsParents(store, chain, pid, tree[pid].startTs);
    LineagePersistRow(PersistRows(store, chain[..n]), pid, chain[n].1, pid, tree[pid].startTs);
  }

  /** After an exec of an unseen process and a write by it, the stored parent is
   *  the eager one exactly when /proc gave none.
   */
  lemma {:induction false} MissedForkAgrees(w: World, ts: Stamp, pid: int, info: ProcInfo, ppid: Option<int>,
                                            later: Stamp, path: string, op: string, other: Option<string>)
    requires Inv(w) && w.now <= ts && pid !in w.tree
    ensures var v := Next(Next(w, ts, Exec(pid, info, ppid)), later, Write(path, op, pid, other));
            var lazy, eager := LineageAt(v.store, pid, ts), LineageAt(v.eager, pid, ts);
            && lazy.Some? && eager.Some?
            && (lazy.value.ppid == eager.value.ppid <==> ppid == None)
  {
    ExecOfUnseen(w, ts, pid, info, ppid);
    var u := Next(w, ts, Exec(pid, info, ppid));
    WriteStoresParent(u.tree, u.store, pid);
  }

  // Step i is an exec of a process the tree does not know, with a parent from /proc.
  ghost predicate MissesFork(run: Run, i: nat, pid: int, ts: Stamp)
    requires i < |run|
  {
    && run[i].0 == ts && run[i].1.Exec? && run[i].1.pid == pid && run[i].1.ppidIfNew.Some?
    && pid !in After(START, run[..i]).tree
  }

  ghost predicate ForkMissed(run: Run, pid: int, ts: Stamp) {
    exists i :: 0 <= i < |run| && MissesFork(run, i, pid, ts)
  }

  lemma {:induction false} SameMisses(run: Run, n: nat, i: nat, pid: int, ts: Stamp)
    requires i < n <= |run|
    ensures MissesFork(run[..n], i, pid, ts) <==> MissesFork(run, i, pid, ts)
  {
    assert run[..n][..i] == run[..i];
  }

  lemma {:induction false} LastMisses(run: Run, n: nat, pid: int, ts: Stamp)
    requires |run| == n + 1
    ensures (pid, ts) in After(START, run).missed <==>
            (pid, ts) in After(START, run[..n]).missed || MissesFork(run, n, pid, ts)
  {
  }

  lemma {:induction false} MissedMeansExec(run: Run, pid: int, ts: Stamp)
    ensures (pid, ts) in After(START, run).missed <==> ForkMissed(run, pid, ts)
  {
    if run != [] {
      var n := |run| - 1;
      MissedMeansExec(run[..n], pid, ts);
      LastMisses(run, n, pid, ts);
      forall i | 0 <= i < n ensures MissesFork(run[..n], i, pid, ts) <==> MissesFork(run, i, pid, ts) {
        SameMisses(run, n, i, pid, ts);
      }
    }
  }

  /** Over every legal run: each stored row has an eager row of the same start and exit,
   *  and their parents differ exactly where the process was first seen at an exec and
   *  /proc gave it a parent.
   */
  lemma {:induction false} ParentsDifferWhereMissed(run: Run, r: ProcRow)
    requires Legal(START, run) && r in After(START, run).store
    ensures var l := LineageAt(After(START, run).eager, r.pid, r.startTs);
            && l.Some? && l.value.exitTs == r.exitTs
            && (l.value.ppid != r.ppid <==> ForkMissed(run, r.pid, r.startTs))
  {
    LazyRowsAreEagerRows(run, r);
    MissedMeansExec(run, r.pid, r.startTs);
  }

  // For instance a shell under init, first seen when it runs a command.
  lemma {:induction false} ShellUnderInit(info: ProcInfo)
    ensures var v := Next(Next(START, 1, Exec(7, info, Some(1))), 2, Write("/etc/motd", "close_write", 7, None));
            var lazy, eager := LineageAt(v.store, 7, 1), LineageAt(v.eager, 7, 1);
            lazy.Some? && eager.Some? && lazy.value.ppid != eager.value.ppid
  {
    StartInv();
    MissedForkAgrees(START, 1, 7, info, Some(1), 2, "/etc/motd", "close_write", None);
  }
}
