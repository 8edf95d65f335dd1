/** Writes processed after their author's exit. */
module LateWrites {
  import opened Wrappers
  import opened Clock
  import opened ProcTrees
  import opened Graph
  import opened LazyStore

  // Everything the entry records, except whether it has been stored.
  predicate SameEntry(a: ProcNode, b: ProcNode) {
    a.ppid == b.ppid && a.startTs == b.startTs && a.info == b.info && a.exited == b.exited
  }

  ghost predicate AllBy(run: Run, ts: Stamp) {
    forall i :: 0 <= i < |run| ==> run[i].0 <= ts
  }

  lemma {:induction false} EntrySurvivesStep(w: World, ts: Stamp, a: Action, pid: int)
    requires Enabled(w, ts, a)
    requires pid in w.tree && w.tree[pid].exited.Some?
    requires ts <= w.tree[pid].exited.value + EXITED_GRACE_SECS
    ensures pid in Next(w, ts, a).tree && SameEntry(Next(w, ts, a).tree[pid], w.tree[pid])
  {
    if a.Write? {
      MarkAllAt(w.tree, UnpersistedChain(w.tree, a.pid), pid);
    }
  }

  // Until the grace runs out an exited entry stays, whatever else happens.
  lemma {:induction false} EntrySurvives(w: World, run: Run, pid: int)
    requires Legal(w, run)
    requires pid in w.tree && w.tree[pid].exited.Some?
    requires AllBy(run, w.tree[pid].exited.value + 90)
    ensures pid in After(w, run).tree && SameEntry(After(w, run).tree[pid], w.tree[pid])
  {
    if run != [] {
      var n := |run| - 1;
      EntrySurvives(w, run[..n], pid);
      EntrySurvivesStep(After(w, run[..n]), run[n].0, run[n].1, pid);
    }
  }

  // A pid the tree knows resolves to the tree's incarnation once that is stored.
  lemma {:induction false} LookupFindsCurrent(w: World, pid: int, ts: Stamp)
    requires Inv(w) && w.now <= ts
    requires pid in w.tree && w.tree[pid].persisted
    ensures Lookup(w.store, pid, ts) == Some(w.tree[pid].startTs)
  {
    var start := w.tree[pid].startTs;
    assert MirrorAt(w, pid) && RowAt(w, pid, start);
    forall r | r in w.store && r.pid == pid
      ensures r.startTs <= start && (r.startTs == start || !InWindow(r, pid, ts))
    {
      MemberIsFound(w.store, r);
      assert RowAt(w, pid, r.startTs);
    }
    var current := Find(w.store, pid, start).value;
    assert current in w.store && Started(current, pid, ts);
    assert Matches(current, pid, ts, false);
  }

  lemma {:induction false} StoredIdentity(store: seq<ProcRow>, chain: seq<(int, ProcNode)>, p: int, s: Stamp)
    requires Find(store, p, s).None? && Find(PersistRows(store, chain), p, s).Some?
    ensures exists i :: 0 <= i < |chain| && chain[i].0 == p && chain[i].1.startTs == s &&
              chain[i].1.info == Find(PersistRows(store, chain), p, s).value.info
  {
    if chain != [] {
      var n := |chain| - 1;
      var before, pid, node := PersistRows(store, chain[..n]), chain[n].0, chain[n].1;
      var row := ProcRow(pid, node.startTs, node.ppid, node.info, None);
      FindInsert(before, row, p, s);
      if node.exited.Some? {
        FindSetExitAt(InsertOrIgnore(before, row), pid, node.startTs, node.exited.value, p, s);
      }
      if Find(before, p, s).Some? {
        StoredIdentity(store, chain[..n], p, s);
      } else {
        assert chain[n].1.info == Find(PersistRows(store, chain), p, s).value.info;
      }
    }
  }

  // Processing a write stores its author and binds the event to it.
  lemma {:induction false} WriteBindsAuthor(w: World, ts: Stamp, path: string, op: string, pid: int,
                                            other: Option<string>)
    requires Inv(w) && w.now <= ts
    requires pid in w.tree
    ensures var v, node := Next(w, ts, Write(path, op, pid, other)), w.tree[pid];
            && LineageAt(v.store, pid, node.startTs) == Some(Lineage(node.ppid, node.exited))
            && (!node.persisted ==> Find(v.store, pid, node.startTs).value.info == node.info)
            && |v.events| == |w.events| + 1
            && v.events[|w.events|].procStart == Some(node.startTs)
  {
    var v, node := Next(w, ts, Write(path, op, pid, other)), w.tree[pid];
    var chain := UnpersistedChain(w.tree, pid);
    ChainIsRootFirst(w.tree, pid);
    MarkAllAt(w.tree, chain, pid);
    WriteKeepsInv(w, ts, path, op, pid, other);
    assert MirrorAt(w, pid) && MirrorAt(v, pid) && RowAt(v, pid, node.startTs);
    assert v.tree[pid].persisted;
    LookupFindsCurrent(v, pid, ts);
    if !node.persisted {
      AuthorIsNamed(w.tree, w.store, pid);
    }
  }

  lemma {:induction false} AuthorIsNamed(tree: Procs, store: seq<ProcRow>, pid: int)
    requires pid in tree && Find(store, pid, tree[pid].startTs).None?
    requires Find(PersistRows(store, UnpersistedChain(tree, pid)), pid, tree[pid].startTs).Some?
    ensures Find(PersistRows(store, UnpersistedChain(tree, pid)), pid, tree[pid].startTs).value.info == tree[pid].info
  {
    ChainIsRootFirst(tree, pid);
    StoredIdentity(store, UnpersistedChain(tree, pid), pid, tree[pid].startTs);
  }

  /** A write processed within the grace after its author's exit keeps its author:
   *  the entry is still there with its last identity, the row is stored with that
   *  exit, and the event is bound to it although the exit lies before the event.
   */
  lemma {:induction false} LateWriteKeepsAuthor(w: World, pid: int, exit: Stamp, between: Run,
                             ts: Stamp, path: string, op: string, other: Option<string>)
    requires Inv(w) && Enabled(w, exit, Exit(pid)) && pid in w.tree
    requires Legal(Next(w, exit, Exit(pid)), between)
    requires AllBy(between, exit + 90)
    requires After(Next(w, exit, Exit(pid)), between).now <= ts
    ensures var before := After(Next(w, exit, Exit(pid)), between);
            var after := Next(before, ts, Write(path, op, pid, other));
            var author := w.tree[pid];
            && pid in before.tree
            && SameEntry(before.tree[pid], author.(exited := Some(exit)))
            && LineageAt(after.store, pid, author.startTs) == Some(Lineage(author.ppid, Some(exit)))
            && (!before.tree[pid].persisted ==> Find(after.store, pid, author.startTs).value.info == author.info)
            && after.events[|before.events|].procStart == Some(author.startTs)
  {
    var gone := Next(w, exit, Exit(pid));
    var before := After(gone, between);
    StepKeepsInv(w, exit, Exit(pid));
    RunKeepsInv(gone, between);
    EntrySurvives(gone, between, pid);
    WriteBindsAuthor(before, ts, path, op, pid, other);
  }

  // The eager store would have bound the event to the same incarnation.
  lemma {:induction false} SameBindingAsEager(w: World, ts: Stamp, path: string, op: string, pid: int,
                                              other: Option<string>)
    requires Inv(w) && w.now <= ts
    requires pid in w.tree
    ensures Next(w, ts, Write(path, op, pid, other)).events[|w.events|].procStart == Lookup(w.eager, pid, ts)
  {
    WriteBindsAuthor(w, ts, path, op, pid, other);
    var start := w.tree[pid].startTs;
    assert MirrorAt(w, pid) && RowAt(w, pid, start);
    forall r | r in w.eager && r.pid == pid
      ensures r.startTs <= start && (r.startTs == start || !InWindow(r, pid, ts))
    {
      MemberIsFound(w.eager, r);
      assert RowAt(w, pid, r.startTs);
    }
    var current := Find(w.eager, pid, start).value;
    assert current in w.eager && Matches(current, pid, ts, false);
  }
}
