/** Invariant 1 of the process tree: persisted implies every ancestor persisted. */
module AncestorClosed {
  import opened Wrappers
  import opened Clock
  import opened ProcTrees
  import opened Graph
  import opened LazyStore

  // A stored row's parent, if the tree knows it, is persisted.
  ghost predicate ClosedAt(tree: Procs, store: seq<ProcRow>, p: int, s: Stamp) {
    match LineageAt(store, p, s)
    case None => true
    case Some(l) => l.ppid.Some? && l.ppid.value in tree ==> tree[l.ppid.value].persisted
  }

  ghost predicate Closed(tree: Procs, store: seq<ProcRow>) {
    forall p, s {:trigger ClosedAt(tree, store, p, s)} :: ClosedAt(tree, store, p, s)
  }

  // The top entry's parent is unknown, persisted already, or in the chain itself.
  ghost predicate Covered(tree: Procs, chain: seq<(int, ProcNode)>) {
    chain != [] ==>
      match chain[0].1.ppid
      case None => true
      case Some(q) => q !in tree || tree[q].persisted || exists i :: 0 <= i < |chain| && chain[i].0 == q
  }

  lemma {:induction false} ShortChainsAreCovered(tree: Procs, pid: int)
    ensures |UnpersistedChain(tree, pid)| < MAX_CHAIN ==> Covered(tree, UnpersistedChain(tree, pid))
  {
    ChainIsRootFirst(tree, pid);
    var chain := UnpersistedChain(tree, pid);
    if 0 < |chain| < MAX_CHAIN {
      assert TopOfWalk(tree, chain[0].0);
      assert chain[0].1 == tree[chain[0].0];
    }
  }

  /* ---- Persisting a chain ---- */

  // A link's parent is marked by the links before it, unless it was already or is unknown.
  lemma {:induction false} ParentIsMarked(tree: Procs, pid: int, n: nat)
    requires n < |UnpersistedChain(tree, pid)| < MAX_CHAIN
    ensures var chain := UnpersistedChain(tree, pid);
            var node, marked := chain[n].1, MarkAll(tree, chain[..n]);
            node.ppid.Some? && node.ppid.value in marked ==>
              node.ppid.value == chain[n].0 || marked[node.ppid.value].persisted
  {
    var chain := UnpersistedChain(tree, pid);
    ChainIsRootFirst(tree, pid);
    var node, part := chain[n].1, chain[..n];
    if node.ppid.Some? {
      MarkAllAt(tree, part, node.ppid.value);
      if n > 0 {
        assert part[n - 1].0 == chain[n - 1].0;
      } else {
        assert TopOfWalk(tree, chain[0].0);
      }
    }
  }

  // After the first k root-first writes the parent of each stored row is stored
  // or was unknown, provided the chain is short.
  lemma {:induction false} EveryPrefixIsClosed(tree: Procs, store: seq<ProcRow>, pid: int, k: nat)
    requires Closed(tree, store)
    requires |UnpersistedChain(tree, pid)| < MAX_CHAIN
    requires k <= |UnpersistedChain(tree, pid)|
    ensures var part := UnpersistedChain(tree, pid)[..k];
            Closed(MarkAll(tree, part), PersistRows(store, part))
  {
    var chain := UnpersistedChain(tree, pid);
    ChainIsRootFirst(tree, pid);
    if k == 0 {
      assert chain[..0] == [];
    } else {
      var n := k - 1;
      var part := chain[..n];
      EveryPrefixIsClosed(tree, store, pid, n);
      assert n + 1 == k;
      OneMore(tree, store, chain, n);
      ParentIsMarked(tree, pid, n);
      PersistOneClosed(MarkAll(tree, part), PersistRows(store, part), chain[n].0, chain[n].1);
    }
  }

  lemma {:induction false} PersistOneClosed(tree: Procs, store: seq<ProcRow>, pid: int, node: ProcNode)
    requires Closed(tree, store)
    requires node.ppid.Some? && node.ppid.value in tree ==> node.ppid.value == pid || tree[node.ppid.value].persisted
    ensures Closed(Marked(tree, pid), PersistRow(store, pid, node))
  {
    forall p, s ensures ClosedAt(Marked(tree, pid), PersistRow(store, pid, node), p, s) {
      assert ClosedAt(tree, store, p, s);
      LineagePersistRow(store, pid, node, p, s);
    }
  }

  // The rows of the whole chain, in terms of the rows before.
  lemma {:induction false} PersistRowsParents(store: seq<ProcRow>, chain: seq<(int, ProcNode)>, p: int, s: Stamp)
    ensures match LineageAt(PersistRows(store, chain), p, s)
            case None => LineageAt(store, p, s) == None
            case Some(l) =>
              || (LineageAt(store, p, s).Some? && LineageAt(store, p, s).value.ppid == l.ppid)
              || exists i :: 0 <= i < |chain| && chain[i].0 == p && chain[i].1.ppid == l.ppid
  {
    if chain != [] {
      var n := |chain| - 1;
      PersistRowsParents(store, chain[..n], p, s);
      LineagePersistRow(PersistRows(store, chain[..n]), chain[n].0, chain[n].1, p, s);
    }
  }

  lemma {:induction false} PersistRowsStores(store: seq<ProcRow>, chain: seq<(int, ProcNode)>, i: nat)
    requires i < |chain|
    ensures LineageAt(PersistRows(store, chain), chain[i].0, chain[i].1.startTs).Some?
  {
    var n := |chain| - 1;
    LineagePersistRow(PersistRows(store, chain[..n]), chain[n].0, chain[n].1, chain[i].0, chain[i].1.startTs);
    if i < n {
      PersistRowsStores(store, chain[..n], i);
    }
  }

  lemma {:induction false} CoveredCloses(tree: Procs, store: seq<ProcRow>, pid: int)
    requires Closed(tree, store)
    requires Covered(tree, UnpersistedChain(tree, pid))
    ensures var chain := UnpersistedChain(tree, pid);
            Closed(MarkAll(tree, chain), PersistRows(store, chain))
  {
    var chain := UnpersistedChain(tree, pid);
    var tree', store' := MarkAll(tree, chain), PersistRows(store, chain);
    ChainIsRootFirst(tree, pid);
    forall p, s ensures ClosedAt(tree', store', p, s) {
      assert ClosedAt(tree, store, p, s);
      PersistRowsParents(store, chain, p, s);
      if LineageAt(store', p, s).Some? && LineageAt(store', p, s).value.ppid.Some? {
        var q := LineageAt(store', p, s).value.ppid.value;
        MarkAllAt(tree, chain, q);
        if i :| 0 <= i < |chain| && chain[i].0 == p && chain[i].1.ppid == Some(q) {
          if i > 0 {
            assert chain[i - 1].0 == q;
          }
        }
      }
    }
  }

  /** The tree stays ancestor-closed across a write exactly when the walk was not
   *  cut off: its top parent is unknown, persisted, or on the walk itself.
   */
  lemma {:induction false} WriteClosesExactlyWhenCovered(w: World, ts: Stamp, path: string, op: string, pid: int,
                                                         other: Option<string>)
    requires Inv(w) && w.now <= ts
    requires Closed(w.tree, w.store)
    ensures var v := Next(w, ts, Write(path, op, pid, other));
            Closed(v.tree, v.store) <==> Covered(w.tree, UnpersistedChain(w.tree, pid))
  {
    var chain := UnpersistedChain(w.tree, pid);
    var v := Next(w, ts, Write(path, op, pid, other));
    if Covered(w.tree, chain) {
      CoveredCloses(w.tree, w.store, pid);
    } else {
      ChainIsRootFirst(w.tree, pid);
      var p, node, q := chain[0].0, chain[0].1, chain[0].1.ppid.value;
      PersistRowsStores(w.store, chain, 0);
      WriteKeepsInv(w, ts, path, op, pid, other);
      MarkAllAt(w.tree, chain, p);
      MarkAllAt(w.tree, chain, q);
      assert RowAt(v, p, node.startTs) && MirrorAt(v, p);
      assert !ClosedAt(v.tree, v.store, p, node.startTs);
    }
  }

  /* ---- The other steps ---- */

  lemma {:induction false} BirthKeepsClosed(tree: Procs, store: seq<ProcRow>, pid: int, ppid: Option<int>,
                                            info: ProcInfo, ts: Stamp)
    requires Closed(tree, store) && NoStoredChild(store, pid)
    ensures Closed(Born(tree, pid, ppid, info, ts), store)
  {
    forall p, s ensures ClosedAt(Born(tree, pid, ppid, info, ts), store, p, s) {
      assert ClosedAt(tree, store, p, s);
    }
  }

  lemma {:induction false} StepKeepsClosed(w: World, ts: Stamp, a: Action)
    requires Inv(w) && Enabled(w, ts, a)
    requires Closed(w.tree, w.store)
    requires a.Write? ==> Covered(w.tree, UnpersistedChain(w.tree, a.pid))
    ensures Closed(Next(w, ts, a).tree, Next(w, ts, a).store)
  {
    var v := Next(w, ts, a);
    match a
    case Seed(pid, ppid, info) => BirthKeepsClosed(w.tree, w.store, pid, ppid, info, ts);
    case Fork(parent, child) => BirthKeepsClosed(w.tree, w.store, child, Some(parent), NO_INFO, ts);
    case Write(_, _, pid, _) => CoveredCloses(w.tree, w.store, pid);
    case Exec(pid, info, ppidIfNew) =>
      if pid !in w.tree {
        BirthKeepsClosed(w.tree, w.store, pid, ppidIfNew, info, ts);
      } else {
        forall p, s ensures ClosedAt(v.tree, v.store, p, s) {
          assert ClosedAt(w.tree, w.store, p, s);
        }
      }
    case Exit(pid) =>
      forall p, s ensures ClosedAt(v.tree, v.store, p, s) {
        assert ClosedAt(w.tree, w.store, p, s);
        ExitLineage(w, ts, pid, p, s);
      }
    case Evict =>
      forall p, s ensures ClosedAt(v.tree, v.store, p, s) {
        assert ClosedAt(w.tree, w.store, p, s);
      }
  }

  /* ---- Runs ---- */

  // No write of the run met a chain that was cut off.
  ghost predicate NeverCutOff(w: World, run: Run) {
    run != [] ==>
      var n := |run| - 1;
      && NeverCutOff(w, run[..n])
      && (run[n].1.Write? ==>
            Covered(After(w, run[..n]).tree, UnpersistedChain(After(w, run[..n]).tree, run[n].1.pid)))
  }

  // Every write of the run met a chain below the limit.
  ghost predicate ChainsAreShort(w: World, run: Run) {
    run != [] ==>
      var n := |run| - 1;
      && ChainsAreShort(w, run[..n])
      && (run[n].1.Write? ==> |UnpersistedChain(After(w, run[..n]).tree, run[n].1.pid)| < MAX_CHAIN)
  }

  lemma {:induction false} ShortRunsAreNeverCutOff(w: World, run: Run)
    requires ChainsAreShort(w, run)
    ensures NeverCutOff(w, run)
  {
    if run != [] {
      var n := |run| - 1;
      ShortRunsAreNeverCutOff(w, run[..n]);
      if run[n].1.Write? {
        ShortChainsAreCovered(After(w, run[..n]).tree, run[n].1.pid);
      }
    }
  }

  lemma {:induction false} RunKeepsClosed(w: World, run: Run)
    requires Inv(w) && Closed(w.tree, w.store)
    requires Legal(w, run) && NeverCutOff(w, run)
    ensures Closed(After(w, run).tree, After(w, run).store)
  {
    if run != [] {
      var n := |run| - 1;
      RunKeepsClosed(w, run[..n]);
      RunKeepsInv(w, run[..n]);
      StepKeepsClosed(After(w, run[..n]), run[n].0, run[n].1);
    }
  }

  // The k-th ancestor the tree still knows.
  function TreeAncestor(tree: Procs, pid: int, k: nat): Option<int> {
    if k == 0 then (if pid in tree then Some(pid) else None)
    else
      match TreeAncestor(tree, pid, k - 1)
      case None => None
      case Some(q) =>
        if q in tree && tree[q].ppid.Some? && tree[q].ppid.value in tree then tree[q].ppid else None
  }

  lemma {:induction false} PersistedUpwards(w: World, pid: int, k: nat)
    requires Inv(w) && Closed(w.tree, w.store)
    requires pid in w.tree && w.tree[pid].persisted
    requires TreeAncestor(w.tree, pid, k).Some?
    ensures var q := TreeAncestor(w.tree, pid, k).value;
            q in w.tree && w.tree[q].persisted
  {
    if k > 0 {
      PersistedUpwards(w, pid, k - 1);
      var q := TreeAncestor(w.tree, pid, k - 1).value;
      assert MirrorAt(w, q) && RowAt(w, q, w.tree[q].startTs);
      assert ClosedAt(w.tree, w.store, q, w.tree[q].startTs);
    }
  }

  lemma {:induction false} StartIsClosed()
    ensures Inv(START) && Closed(START.tree, START.store)
  {
    StartInv();
    forall p, s ensures ClosedAt(START.tree, START.store, p, s) {
    }
  }

  /** In every reachable tree a persisted process has only persisted ancestors. */
  lemma {:induction false} PersistedAncestors(run: Run, pid: int, k: nat)
    requires Legal(START, run) && NeverCutOff(START, run)
    requires var t := After(START, run).tree;
             pid in t && t[pid].persisted && TreeAncestor(t, pid, k).Some?
    ensures var t := After(START, run).tree;
            TreeAncestor(t, pid, k).value in t && t[TreeAncestor(t, pid, k).value].persisted
  {
    StartIsClosed();
    RunKeepsInv(START, run);
    RunKeepsClosed(START, run);
    PersistedUpwards(After(START, run), pid, k);
  }
}
