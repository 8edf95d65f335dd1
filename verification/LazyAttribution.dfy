/** Attribution in the tables the daemon fills, where a row may be stored long after
 *  its process began.
 */
module LazyAttribution {
  import opened Wrappers
  import opened Clock
  import opened ProcTrees
  import opened Graph
  import opened LazyStore
  import opened Queries
  import opened Incarnations
  import LateWrites

  // No incarnation that an unbound event could belong to began before the event.
  ghost predicate UnseenAt(w: World, e: EventRow, s: Stamp) {
    && (e.pid in w.tree ==> e.ts <= w.tree[e.pid].startTs)
    && (LineageAt(w.store, e.pid, s).Some? ==> e.ts <= s)
  }

  ghost predicate Unseen(w: World) {
    forall e, s {:trigger UnseenAt(w, e, s)} :: e in w.events && e.procStart.None? ==> UnseenAt(w, e, s)
  }

  ghost predicate EventsPast(w: World) {
    forall e :: e in w.events ==> e.ts <= w.now
  }

  lemma {:induction false} KeysStay(w: World, ts: Stamp, a: Action, p: int, s: Stamp)
    ensures Find(w.store, p, s).Some? ==> Find(Next(w, ts, a).store, p, s).Some?
  {
    match a
    case Exit(pid) =>
      if pid in w.tree {
        FindSetExitAt(w.store, pid, w.tree[pid].startTs, ts, p, s);
      }
    case Write(_, _, pid, _) => PersistKeepsKeys(w.store, UnpersistedChain(w.tree, pid), p, s);
    case _ =>
  }

  lemma {:induction false} PersistKeepsKeys(store: seq<ProcRow>, chain: seq<(int, ProcNode)>, p: int, s: Stamp)
    ensures Find(store, p, s).Some? ==> Find(PersistRows(store, chain), p, s).Some?
  {
    if chain != [] {
      var n := |chain| - 1;
      PersistKeepsKeys(store, chain[..n], p, s);
      LineagePersistRow(PersistRows(store, chain[..n]), chain[n].0, chain[n].1, p, s);
    }
  }

  // A row that a write adds is the tree's entry for its pid.
  lemma {:induction false} NewRowsAreEntries(tree: Procs, store: seq<ProcRow>, pid: int, p: int, s: Stamp)
    requires Find(store, p, s).None? && Find(PersistRows(store, UnpersistedChain(tree, pid)), p, s).Some?
    ensures p in tree && tree[p].startTs == s
  {
    var chain := UnpersistedChain(tree, pid);
    ChainIsRootFirst(tree, pid);
    LateWrites.StoredIdentity(store, chain, p, s);
  }

  lemma {:induction false} WriteKeepsUnseen(w: World, ts: Stamp, path: string, op: string, pid: int,
                                            other: Option<string>)
    requires Inv(w) && w.now <= ts && Unseen(w)
    ensures Unseen(Next(w, ts, Write(path, op, pid, other)))
  {
    var v, chain := Next(w, ts, Write(path, op, pid, other)), UnpersistedChain(w.tree, pid);
    WriteKeepsInv(w, ts, path, op, pid, other);
    forall e, s | e in v.events && e.procStart.None? ensures UnseenAt(v, e, s) {
      MarkAllAt(w.tree, chain, e.pid);
      if e in w.events {
        assert UnseenAt(w, e, s);
        if Find(w.store, e.pid, s).None? && Find(v.store, e.pid, s).Some? {
          NewRowsAreEntries(w.tree, w.store, pid, e.pid, s);
        }
      } else {
        NewUnbound(w, ts, path, op, pid, other, s);
      }
    }
  }

  // The event of a write is left unbound only when its pid is neither known nor stored.
  lemma {:induction false} NewUnbound(w: World, ts: Stamp, path: string, op: string, pid: int, other: Option<string>,
                                      s: Stamp)
    requires Inv(w) && w.now <= ts
    requires Next(w, ts, Write(path, op, pid, other)).events[|w.events|].procStart.None?
    ensures pid !in w.tree
    ensures LineageAt(Next(w, ts, Write(path, op, pid, other)).store, pid, s).None?
  {
    var v := Next(w, ts, Write(path, op, pid, other));
    if pid in w.tree {
      LateWrites.WriteBindsAuthor(w, ts, path, op, pid, other);
    }
    WriteKeepsInv(w, ts, path, op, pid, other);
    assert RowAt(v, pid, s);
    if Find(v.store, pid, s).Some? {
      var r := Find(v.store, pid, s).value;
      assert Matches(r, pid, ts, false);
    }
  }

  lemma {:induction false} StepKeepsUnseen(w: World, ts: Stamp, a: Action)
    requires Inv(w) && Enabled(w, ts, a) && Unseen(w) && EventsPast(w)
    ensures Unseen(Next(w, ts, a)) && EventsPast(Next(w, ts, a))
  {
    if a.Write? {
      WriteKeepsUnseen(w, ts, a.path, a.op, a.pid, a.other);
    } else {
      var v := Next(w, ts, a);
      forall e, s | e in v.events && e.procStart.None? ensures UnseenAt(v, e, s) {
        assert UnseenAt(w, e, s);
        if a.Exit? && a.pid in w.tree {
          LineageSetExitAt(w.store, a.pid, w.tree[a.pid].startTs, ts, e.pid, s);
        }
      }
    }
  }

  lemma {:induction false} RunKeepsUnseen(w: World, run: Run)
    requires Inv(w) && Unseen(w) && EventsPast(w) && Legal(w, run)
    ensures var v := LazyStore.After(w, run); Inv(v) && Unseen(v) && EventsPast(v)
  {
    RunKeepsInv(w, run);
    if run != [] {
      var n := |run| - 1;
      RunKeepsUnseen(w, run[..n]);
      StepKeepsUnseen(LazyStore.After(w, run[..n]), run[n].0, run[n].1);
    }
  }

  lemma {:induction false} KeysStayOverRun(w: World, run: Run, p: int, s: Stamp)
    ensures Find(w.store, p, s).Some? ==> Find(LazyStore.After(w, run).store, p, s).Some?
  {
    if run != [] {
      var n := |run| - 1;
      KeysStayOverRun(w, run[..n], p, s);
      KeysStay(LazyStore.After(w, run[..n]), run[n].0, run[n].1, p, s);
    }
  }

  // An unbound event resolves to an incarnation of its own second or to none.
  lemma {:induction false} UnboundResolves(w: World, e: EventRow)
    requires Inv(w) && Unseen(w) && e in w.events && e.procStart.None?
    ensures Resolve(w.store, e).start == if Find(w.store, e.pid, e.ts).Some? then Some(e.ts) else None
  {
    var found := Newest(w.store, e.pid, e.ts, true);
    if Find(w.store, e.pid, e.ts).Some? {
      assert RowAt(w, e.pid, e.ts);
      assert Matches(Find(w.store, e.pid, e.ts).value, e.pid, e.ts, true);
    }
    if found.Some? {
      var r :| r in w.store && Matches(r, e.pid, e.ts, true) && r.startTs == found.value;
      MemberIsFound(w.store, r);
      assert UnseenAt(w, e, r.startTs);
    }
  }

  /** In every run of the daemon, an event that resolves goes on resolving to the same
   *  incarnation, however late other rows are stored.
   */
  lemma {:induction false} LateRowsKeepAttribution(before: Run, later: Run, e: EventRow)
    requires Legal(START, before) && Legal(LazyStore.After(START, before), later)
    requires e in LazyStore.After(START, before).events && Attributed(LazyStore.After(START, before).store, e)
    ensures var w := LazyStore.After(START, before);
            var store := LazyStore.After(w, later).store;
            Attributed(store, e) && Resolve(store, e).start == Resolve(w.store, e).start
  {
    var w := LazyStore.After(START, before);
    StartInv();
    RunKeepsUnseen(START, before);
    RunKeepsUnseen(w, later);
    KeysStayOverRun(w, later, e.pid, Resolve(w.store, e).start.value);
    EventsStay(w, later, e);
    if e.procStart.None? {
      UnboundResolves(w, e);
      UnboundResolves(LazyStore.After(w, later), e);
    }
  }

  lemma {:induction false} EventsStay(w: World, run: Run, e: EventRow)
    requires e in w.events
    ensures e in LazyStore.After(w, run).events
  {
    if run != [] {
      EventsStay(w, run[..|run| - 1], e);
    }
  }

  /** The events of a run carry increasing ids, as every manifest query relies on. */
  lemma {:induction false} RunIdsIncrease(run: Run)
    ensures IdsIncrease(LazyStore.After(START, run).events)
  {
    if run != [] {
      var n := |run| - 1;
      RunIdsIncrease(run[..n]);
      var w := LazyStore.After(START, run[..n]);
      match run[n].1
      case Write(path, op, pid, other) =>
        var store := PersistRows(w.store, UnpersistedChain(w.tree, pid));
        RecordEventKeepsIds(w.events, store, path, op, pid, other, run[n].0);
      case _ =>
    }
  }
}
