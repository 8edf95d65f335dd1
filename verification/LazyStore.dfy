/** The daemon's two ways of storing processes.
 *
 *  The daemon keeps every fork, exec and exit in memory and stores a process and
 *  its unpersisted ancestors only when it writes.  The graph's own record_*
 *  calls would store each of them at once; that eager store runs alongside here
 *  as a specification, and every lazily stored row is shown to be its row.
 */
module LazyStore {
  import opened Wrappers
  import opened Clock
  import opened ProcTrees
  import opened Graph

  datatype World = World(
    tree: Procs,
    store: seq<ProcRow>,
    events: seq<EventRow>,
    eager: seq<ProcRow>,
    missed: set<(int, Stamp)>,
    now: Stamp)

  const START := World(map[], [], [], [], {}, 0)

  datatype Action =
    | Seed(pid: int, ppid: Option<int>, info: ProcInfo)
    | Fork(parent: int, child: int)
    | Exec(pid: int, info: ProcInfo, ppidIfNew: Option<int>)
    | Exit(pid: int)
    | Write(path: string, op: string, pid: int, other: Option<string>)
    | Evict

  /* ---- persist_chain ---- */

  function PersistRow(store: seq<ProcRow>, pid: int, node: ProcNode): seq<ProcRow> {
    var inserted := RecordExisting(store, pid, node.ppid, node.info, node.startTs);
    match node.exited
    case None => inserted
    case Some(exit) => SetExitAt(inserted, pid, node.startTs, exit)
  }

  function PersistRows(store: seq<ProcRow>, chain: seq<(int, ProcNode)>): seq<ProcRow> {
    if chain == [] then store
    else
      var n := |chain| - 1;
      PersistRow(PersistRows(store, chain[..n]), chain[n].0, chain[n].1)
  }

  function MarkAll(tree: Procs, chain: seq<(int, ProcNode)>): Procs {
    if chain == [] then tree
    else
      var n := |chain| - 1;
      Marked(MarkAll(tree, chain[..n]), chain[n].0)
  }

  lemma {:induction false} OneMore(tree: Procs, store: seq<ProcRow>, chain: seq<(int, ProcNode)>, i: nat)
    requires i < |chain|
    ensures MarkAll(tree, chain[..i + 1]) == Marked(MarkAll(tree, chain[..i]), chain[i].0)
    ensures PersistRows(store, chain[..i + 1]) == PersistRow(PersistRows(store, chain[..i]), chain[i].0, chain[i].1)
  {
    assert chain[..i + 1][..i] == chain[..i];
  }

  /* ---- One step of the daemon ---- */

  // An exec of a process whose fork was missed and whose parent /proc gave: the tree
  // keeps that parent, the eager row has none.
  function Missed(tree: Procs, pid: int, ppid: Option<int>, ts: Stamp): set<(int, Stamp)> {
    if pid !in tree && ppid.Some? then {(pid, ts)} else {}
  }

  function Next(w: World, ts: Stamp, a: Action): World {
    match a
    case Seed(pid, ppid, info) =>
      w.(tree := Born(w.tree, pid, ppid, info, ts),
         eager := RecordExisting(w.eager, pid, ppid, info, ts),
         now := ts)
    case Fork(parent, child) =>
      w.(tree := Born(w.tree, child, Some(parent), NO_INFO, ts),
         eager := RecordFork(w.eager, parent, child, ts),
         now := ts)
    case Exec(pid, info, ppidIfNew) =>
      w.(tree := Execed(w.tree, pid, info, ppidIfNew, ts),
         eager := RecordExec(w.eager, pid, info, ts),
         missed := w.missed + Missed(w.tree, pid, ppidIfNew, ts),
         now := ts)
    case Exit(pid) =>
      w.(tree := Exited(w.tree, pid, ts),
         store := if pid in w.tree && w.tree[pid].persisted
                  then SetExitAt(w.store, pid, w.tree[pid].startTs, ts) else w.store,
         eager := SetExitLive(w.eager, pid, ts),
         now := ts)
    case Write(path, op, pid, other) =>
      var chain := UnpersistedChain(w.tree, pid);
      var store := PersistRows(w.store, chain);
      w.(tree := MarkAll(w.tree, chain),
         store := store,
         events := RecordEvent(w.events, store, path, op, pid, other, ts),
         now := ts)
    case Evict =>
      w.(tree := Evicted(w.tree, ts - EXITED_GRACE_SECS), now := ts)
  }

  // No stored row names this pid as its parent.
  ghost predicate NoStoredChild(store: seq<ProcRow>, pid: int) {
    forall r :: r in store ==> r.ppid != Some(pid)
  }

  // A pid that may be born now: unknown to the tree and not a stored parent.
  ghost predicate Fresh(w: World, pid: int) {
    pid !in w.tree && NoStoredChild(w.store, pid)
  }

  // Stamps do not go back, the stream of a pid is fork, exec*, exit, and a new
  // pid is not one still in use.
  ghost predicate Enabled(w: World, ts: Stamp, a: Action) {
    && w.now <= ts
    && match a
       case Seed(pid, _, _) => Fresh(w, pid)
       case Fork(_, child) => Fresh(w, child)
       case Exec(pid, _, _) =>
         if pid in w.tree then w.tree[pid].exited.None? else Fresh(w, pid)
       case Exit(pid) => pid in w.tree ==> w.tree[pid].exited.None?
       case Write(_, _, _, _) => true
       case Evict => true
  }

  /* ---- Lineage of stored rows ---- */

  datatype Lineage = Lineage(ppid: Option<int>, exitTs: Option<Stamp>)

  function LineageAt(rows: seq<ProcRow>, pid: int, start: Stamp): Option<Lineage> {
    match Find(rows, pid, start)
    case None => None
    case Some(r) => Some(Lineage(r.ppid, r.exitTs))
  }

  lemma {:induction false} LineageInsert(rows: seq<ProcRow>, row: ProcRow, p: int, s: Stamp)
    ensures LineageAt(InsertOrIgnore(rows, row), p, s) ==
            if LineageAt(rows, p, s).Some? then LineageAt(rows, p, s)
            else if HasKey(row, p, s) then Some(Lineage(row.ppid, row.exitTs)) else None
  {
    FindInsert(rows, row, p, s);
  }

  lemma {:induction false} LineageSetExitAt(rows: seq<ProcRow>, pid: int, start: Stamp, ts: Stamp, p: int, s: Stamp)
    ensures LineageAt(SetExitAt(rows, pid, start, ts), p, s) ==
            match LineageAt(rows, p, s)
            case None => None
            case Some(l) => Some(if p == pid && s == start then l.(exitTs := Some(ts)) else l)
  {
    FindSetExitAt(rows, pid, start, ts, p, s);
  }

  lemma {:induction false} LineageSetExitLive(rows: seq<ProcRow>, pid: int, ts: Stamp, p: int, s: Stamp)
    ensures LineageAt(SetExitLive(rows, pid, ts), p, s) ==
            match LineageAt(rows, p, s)
            case None => None
            case Some(l) => Some(if p == pid && l.exitTs.None? then l.(exitTs := Some(ts)) else l)
  {
    FindSetExitLive(rows, pid, ts, p, s);
  }

  lemma {:induction false} LineagePersistRow(store: seq<ProcRow>, pid: int, node: ProcNode, p: int, s: Stamp)
    ensures LineageAt(PersistRow(store, pid, node), p, s) ==
            if p == pid && s == node.startTs then
              Some(match LineageAt(store, p, s)
                   case None => Lineage(node.ppid, node.exited)
                   case Some(l) => if node.exited.Some? then l.(exitTs := node.exited) else l)
            else LineageAt(store, p, s)
  {
    var row := ProcRow(pid, node.startTs, node.ppid, node.info, None);
    LineageInsert(store, row, p, s);
    if node.exited.Some? {
      LineageSetExitAt(InsertOrIgnore(store, row), pid, node.startTs, node.exited.value, p, s);
    }
  }

  /* ---- The invariant ---- */

  // This incarnation is the tree's entry for its pid.
  predicate InTree(tree: Procs, pid: int, start: Stamp) {
    pid in tree && tree[pid].startTs == start
  }

  // The eager form of a lazily kept lineage.
  function AsEager(w: World, p: int, s: Stamp, l: Lineage): Lineage {
    if (p, s) in w.missed then l.(ppid := None) else l
  }

  ghost predicate MirrorAt(w: World, p: int) {
    p in w.tree ==>
      var node := w.tree[p];
      var kept := Lineage(node.ppid, node.exited);
      && LineageAt(w.eager, p, node.startTs) == Some(AsEager(w, p, node.startTs, kept))
      && LineageAt(w.store, p, node.startTs) == (if node.persisted then Some(kept) else None)
      && ((p, node.startTs) in w.missed ==> node.ppid.Some?)
  }

  ghost predicate RowAt(w: World, p: int, s: Stamp) {
    match LineageAt(w.eager, p, s)
    case None => LineageAt(w.store, p, s) == None && (p, s) !in w.missed
    case Some(l) =>
      && s <= w.now
      && (l.exitTs.Some? ==> s <= l.exitTs.value <= w.now)
      && (!InTree(w.tree, p, s) ==> l.exitTs.Some? && l.exitTs.value < w.now)
      && (p in w.tree ==> s <= w.tree[p].startTs)
      && (LineageAt(w.store, p, s).Some? ==>
            var k := LineageAt(w.store, p, s).value;
            AsEager(w, p, s, k) == l && ((p, s) in w.missed ==> k.ppid.Some?))
  }

  // An earlier incarnation ended before the later one began.
  ghost predicate WindowsAt(rows: seq<ProcRow>, p: int, s: Stamp, s': Stamp) {
    LineageAt(rows, p, s).Some? && LineageAt(rows, p, s').Some? && s < s' ==>
      LineageAt(rows, p, s).value.exitTs.Some? && LineageAt(rows, p, s).value.exitTs.value < s'
  }

  ghost predicate Mirrored(w: World) {
    forall p {:trigger MirrorAt(w, p)} :: MirrorAt(w, p)
  }

  ghost predicate RowsAgree(w: World) {
    forall p, s {:trigger RowAt(w, p, s)} :: RowAt(w, p, s)
  }

  ghost predicate Disjoint(rows: seq<ProcRow>) {
    forall p, s, s' {:trigger WindowsAt(rows, p, s, s')} :: WindowsAt(rows, p, s, s')
  }

  ghost predicate Inv(w: World) {
    && UniqueKeys(w.eager)
    && UniqueKeys(w.store)
    && Mirrored(w)
    && RowsAgree(w)
    && Disjoint(w.eager)
  }

  /* ---- Births: seed, fork, exec of an unseen pid ---- */

  // The tree may know a parent that the row does not.
  function BornWorld(w: World, ts: Stamp, row: ProcRow, ppid: Option<int>, info: ProcInfo): World {
    w.(tree := Born(w.tree, row.pid, ppid, info, ts),
       eager := InsertOrIgnore(w.eager, row),
       missed := w.missed + if ppid == row.ppid then {} else {(row.pid, ts)},
       now := ts)
  }

  lemma {:induction false} NewStartIsNew(w: World, ts: Stamp, pid: int, s: Stamp)
    requires Inv(w) && w.now <= ts && pid !in w.tree
    requires LineageAt(w.eager, pid, s).Some?
    ensures s < ts
    ensures LineageAt(w.eager, pid, s).value.exitTs.Some? && LineageAt(w.eager, pid, s).value.exitTs.value < ts
  {
    assert RowAt(w, pid, s);
  }

  lemma {:induction false} BirthKeepsMirror(w: World, ts: Stamp, row: ProcRow, ppid: Option<int>, info: ProcInfo,
                                            p: int)
    requires Inv(w) && w.now <= ts && row.pid !in w.tree
    requires row.startTs == ts && row.exitTs == None && (row.ppid == ppid || row.ppid == None)
    requires LineageAt(w.eager, row.pid, ts) == None
    ensures MirrorAt(BornWorld(w, ts, row, ppid, info), p)
  {
    var v := BornWorld(w, ts, row, ppid, info);
    assert MirrorAt(w, p) && RowAt(w, p, ts);
    if p in v.tree {
      LineageInsert(w.eager, row, p, v.tree[p].startTs);
    }
  }

  lemma {:induction false} BirthKeepsRow(w: World, ts: Stamp, row: ProcRow, ppid: Option<int>, info: ProcInfo,
                                         p: int, s: Stamp)
    requires Inv(w) && w.now <= ts && row.pid !in w.tree
    requires row.startTs == ts && row.exitTs == None && (row.ppid == ppid || row.ppid == None)
    ensures RowAt(BornWorld(w, ts, row, ppid, info), p, s)
  {
    assert RowAt(w, p, s);
    LineageInsert(w.eager, row, p, s);
    if p == row.pid && LineageAt(w.eager, p, s).Some? {
      NewStartIsNew(w, ts, p, s);
    }
  }

  lemma {:induction false} BirthKeepsInv(w: World, ts: Stamp, row: ProcRow, ppid: Option<int>, info: ProcInfo)
    requires Inv(w) && w.now <= ts && row.pid !in w.tree
    requires row.startTs == ts && row.exitTs == None && (row.ppid == ppid || row.ppid == None)
    ensures Inv(BornWorld(w, ts, row, ppid, info))
  {
    var v := BornWorld(w, ts, row, ppid, info);
    InsertKeepsUnique(w.eager, row);
    assert LineageAt(w.eager, row.pid, ts) == None by {
      if LineageAt(w.eager, row.pid, ts).Some? {
        NewStartIsNew(w, ts, row.pid, ts);
      }
    }
    forall p ensures MirrorAt(v, p) {
      BirthKeepsMirror(w, ts, row, ppid, info, p);
    }
    forall p, s ensures RowAt(v, p, s) {
      BirthKeepsRow(w, ts, row, ppid, info, p, s);
    }
    forall p, s, s' ensures WindowsAt(v.eager, p, s, s') {
      assert WindowsAt(w.eager, p, s, s') && RowAt(w, p, s');
      LineageInsert(w.eager, row, p, s);
      LineageInsert(w.eager, row, p, s');
      if p == row.pid && LineageAt(w.eager, p, s).Some? {
        NewStartIsNew(w, ts, p, s);
      }
    }
  }

  /* ---- Exec and exit ---- */

  lemma {:induction false} LineageSetInfo(rows: seq<ProcRow>, pid: int, info: ProcInfo, p: int, s: Stamp)
    ensures LineageAt(SetInfoLive(rows, pid, info), p, s) == LineageAt(rows, p, s)
  {
    FindSetInfoLive(rows, pid, info, p, s);
  }

  lemma {:induction false} LiveMeansInTree(w: World, pid: int)
    requires Inv(w)
    ensures HasLive(w.eager, pid) <==> pid in w.tree && w.tree[pid].exited.None?
  {
    if r :| r in w.eager && IsLive(r, pid) {
      MemberIsFound(w.eager, r);
      assert RowAt(w, pid, r.startTs) && MirrorAt(w, pid);
    }
    if pid in w.tree && w.tree[pid].exited.None? {
      assert MirrorAt(w, pid);
      var r := Find(w.eager, pid, w.tree[pid].startTs).value;
      assert r in w.eager && IsLive(r, pid);
    }
  }

  lemma {:induction false} ExecKeepsMirror(w: World, ts: Stamp, pid: int, info: ProcInfo, ppidIfNew: Option<int>,
                                           p: int)
    requires Inv(w) && pid in w.tree && HasLive(w.eager, pid)
    ensures MirrorAt(Next(w, ts, Exec(pid, info, ppidIfNew)), p)
  {
    assert MirrorAt(w, p);
    if p in w.tree {
      LineageSetInfo(w.eager, pid, info, p, w.tree[p].startTs);
    }
  }

  lemma {:induction false} ExecKeepsRow(w: World, ts: Stamp, pid: int, info: ProcInfo, ppidIfNew: Option<int>,
                                        p: int, s: Stamp)
    requires Inv(w) && w.now <= ts && pid in w.tree && HasLive(w.eager, pid)
    ensures RowAt(Next(w, ts, Exec(pid, info, ppidIfNew)), p, s)
  {
    assert RowAt(w, p, s);
    LineageSetInfo(w.eager, pid, info, p, s);
  }

  lemma {:induction false} ExecKnownKeepsInv(w: World, ts: Stamp, pid: int, info: ProcInfo, ppidIfNew: Option<int>)
    requires Inv(w) && Enabled(w, ts, Exec(pid, info, ppidIfNew)) && pid in w.tree
    ensures Inv(Next(w, ts, Exec(pid, info, ppidIfNew)))
  {
    var v := Next(w, ts, Exec(pid, info, ppidIfNew));
    LiveMeansInTree(w, pid);
    UpdatesKeepKeys(w.eager, pid, 0, ts, info);
    SameKeysUnique(v.eager, w.eager);
    forall p ensures MirrorAt(v, p) {
      ExecKeepsMirror(w, ts, pid, info, ppidIfNew, p);
    }
    forall p, s ensures RowAt(v, p, s) {
      ExecKeepsRow(w, ts, pid, info, ppidIfNew, p, s);
    }
    forall p, s, s' ensures WindowsAt(v.eager, p, s, s') {
      assert WindowsAt(w.eager, p, s, s');
      LineageSetInfo(w.eager, pid, info, p, s);
      LineageSetInfo(w.eager, pid, info, p, s');
    }
  }

  lemma {:induction false} ExecKeepsInv(w: World, ts: Stamp, pid: int, info: ProcInfo, ppidIfNew: Option<int>)
    requires Inv(w) && Enabled(w, ts, Exec(pid, info, ppidIfNew))
    ensures Inv(Next(w, ts, Exec(pid, info, ppidIfNew)))
  {
    if pid in w.tree {
      ExecKnownKeepsInv(w, ts, pid, info, ppidIfNew);
    } else {
      LiveMeansInTree(w, pid);
      BirthKeepsInv(w, ts, ProcRow(pid, ts, None, info, None), ppidIfNew, info);
    }
  }

  lemma {:induction false} ExitKeepsInv(w: World, ts: Stamp, pid: int)
    requires Inv(w) && Enabled(w, ts, Exit(pid))
    ensures Inv(Next(w, ts, Exit(pid)))
  {
    var v := Next(w, ts, Exit(pid));
    ExitKeepsUnique(w, ts, pid);
    forall p ensures MirrorAt(v, p) {
      assert MirrorAt(w, p);
      if p in w.tree {
        ExitLineage(w, ts, pid, p, w.tree[p].startTs);
      }
    }
    forall p, s ensures RowAt(v, p, s) {
      ExitKeepsRow(w, ts, pid, p, s);
    }
    forall p, s, s' ensures WindowsAt(v.eager, p, s, s') {
      assert WindowsAt(w.eager, p, s, s');
      ExitLineage(w, ts, pid, p, s);
      ExitLineage(w, ts, pid, p, s');
    }
  }

  lemma {:induction false} ExitKeepsUnique(w: World, ts: Stamp, pid: int)
    requires UniqueKeys(w.eager) && UniqueKeys(w.store)
    ensures UniqueKeys(Next(w, ts, Exit(pid)).eager) && UniqueKeys(Next(w, ts, Exit(pid)).store)
  {
    var v := Next(w, ts, Exit(pid));
    UpdatesKeepKeys(w.eager, pid, 0, ts, NO_INFO);
    SameKeysUnique(v.eager, w.eager);
    if pid in w.tree && w.tree[pid].persisted {
      UpdatesKeepKeys(w.store, pid, w.tree[pid].startTs, ts, NO_INFO);
      SameKeysUnique(v.store, w.store);
    }
  }

  lemma {:induction false} ExitKeepsRow(w: World, ts: Stamp, pid: int, p: int, s: Stamp)
    requires Inv(w) && Enabled(w, ts, Exit(pid))
    ensures RowAt(Next(w, ts, Exit(pid)), p, s)
  {
    assert RowAt(w, p, s) && MirrorAt(w, p);
    ExitLineage(w, ts, pid, p, s);
  }

  lemma {:induction false} ExitLineage(w: World, ts: Stamp, pid: int, p: int, s: Stamp)
    ensures var v := Next(w, ts, Exit(pid));
            && LineageAt(v.eager, p, s) ==
               (match LineageAt(w.eager, p, s)
                case None => None
                case Some(l) => Some(if p == pid && l.exitTs.None? then l.(exitTs := Some(ts)) else l))
            && LineageAt(v.store, p, s) ==
               (match LineageAt(w.store, p, s)
                case None => None
                case Some(l) =>
                  Some(if p == pid && InTree(w.tree, p, s) && w.tree[p].persisted
                       then l.(exitTs := Some(ts)) else l))
  {
    LineageSetExitLive(w.eager, pid, ts, p, s);
    if pid in w.tree {
      LineageSetExitAt(w.store, pid, w.tree[pid].startTs, ts, p, s);
    }
  }

  /* ---- Persisting a chain ---- */

  // Each entry is the tree's, up to marks already made.
  ghost predicate FromTree(tree: Procs, chain: seq<(int, ProcNode)>) {
    forall i :: 0 <= i < |chain| ==> chain[i].0 in tree && tree[chain[i].0] == chain[i].1
  }

  lemma {:induction false} MarkAllAt(tree: Procs, chain: seq<(int, ProcNode)>, p: int)
    ensures MarkAll(tree, chain).Keys == tree.Keys
    ensures p in tree ==>
              MarkAll(tree, chain)[p] ==
              tree[p].(persisted := tree[p].persisted || exists i :: 0 <= i < |chain| && chain[i].0 == p)
  {
    if chain != [] {
      var n := |chain| - 1;
      MarkAllAt(tree, chain[..n], p);
      assert (exists i :: 0 <= i < |chain| && chain[i].0 == p) <==>
             chain[n].0 == p || exists i :: 0 <= i < n && chain[..n][i].0 == p by {
        if i :| 0 <= i < |chain| && chain[i].0 == p && i != n {
          assert chain[..n][i].0 == p;
        }
      }
    }
  }

  lemma {:induction false} PersistRowsUnique(store: seq<ProcRow>, chain: seq<(int, ProcNode)>)
    requires UniqueKeys(store)
    ensures UniqueKeys(PersistRows(store, chain))
  {
    if chain != [] {
      var n := |chain| - 1;
      var before, pid, node := PersistRows(store, chain[..n]), chain[n].0, chain[n].1;
      PersistRowsUnique(store, chain[..n]);
      var row := ProcRow(pid, node.startTs, node.ppid, node.info, None);
      InsertKeepsUnique(before, row);
      if node.exited.Some? {
        UpdatesKeepKeys(InsertOrIgnore(before, row), pid, node.startTs, node.exited.value, NO_INFO);
        SameKeysUnique(PersistRow(before, pid, node), InsertOrIgnore(before, row));
      }
    }
  }

  // Persisting any prefix of a chain of tree entries keeps the invariant.
  lemma {:induction false} PersistKeepsInv(w: World, chain: seq<(int, ProcNode)>)
    requires Inv(w) && FromTree(w.tree, chain)
    ensures Inv(w.(tree := MarkAll(w.tree, chain), store := PersistRows(w.store, chain)))
  {
    if chain != [] {
      var n := |chain| - 1;
      var before := w.(tree := MarkAll(w.tree, chain[..n]), store := PersistRows(w.store, chain[..n]));
      PersistKeepsInv(w, chain[..n]);
      var pid, node := chain[n].0, chain[n].1;
      MarkAllAt(w.tree, chain[..n], pid);
      PersistOneKeepsInv(before, pid, node);
    }
  }

  lemma {:induction false} PersistOneKeepsInv(w: World, pid: int, node: ProcNode)
    requires Inv(w)
    requires pid in w.tree && node == w.tree[pid].(persisted := node.persisted)
    ensures Inv(w.(tree := Marked(w.tree, pid), store := PersistRow(w.store, pid, node)))
  {
    var v := w.(tree := Marked(w.tree, pid), store := PersistRow(w.store, pid, node));
    PersistRowsUnique(w.store, [(pid, node)]);
    assert PersistRows(w.store, [(pid, node)]) == v.store by {
      assert [(pid, node)][..0] == [];
    }
    forall p ensures MirrorAt(v, p) {
      assert MirrorAt(w, p);
      if p in w.tree {
        LineagePersistRow(w.store, pid, node, p, w.tree[p].startTs);
      }
    }
    forall p, s ensures RowAt(v, p, s) {
      assert RowAt(w, p, s) && MirrorAt(w, p) && MirrorAt(w, pid);
      LineagePersistRow(w.store, pid, node, p, s);
    }
  }

  lemma {:induction false} LaterKeepsInv(w: World, ts: Stamp)
    requires Inv(w) && w.now <= ts
    ensures Inv(w.(now := ts))
  {
    var v := w.(now := ts);
    forall p ensures MirrorAt(v, p) {
      assert MirrorAt(w, p);
    }
    forall p, s ensures RowAt(v, p, s) {
      assert RowAt(w, p, s);
    }
  }

  lemma {:induction false} WriteKeepsInv(w: World, ts: Stamp, path: string, op: string, pid: int, other: Option<string>)
    requires Inv(w) && w.now <= ts
    ensures Inv(Next(w, ts, Write(path, op, pid, other)))
  {
    var chain := UnpersistedChain(w.tree, pid);
    ChainIsRootFirst(w.tree, pid);
    PersistKeepsInv(w, chain);
    var v := w.(tree := MarkAll(w.tree, chain), store := PersistRows(w.store, chain));
    LaterKeepsInv(v, ts);
    SameButEvents(v.(now := ts), Next(w, ts, Write(path, op, pid, other)));
  }

  lemma {:induction false} SameButEvents(v: World, u: World)
    requires Inv(v) && u == v.(events := u.events)
    ensures Inv(u)
  {
    forall p ensures MirrorAt(u, p) {
      assert MirrorAt(v, p);
    }
    forall p, s ensures RowAt(u, p, s) {
      assert RowAt(v, p, s);
    }
  }

  lemma {:induction false} EvictKeepsInv(w: World, ts: Stamp)
    requires Inv(w) && w.now <= ts
    ensures Inv(Next(w, ts, Evict))
  {
    var v := Next(w, ts, Evict);
    forall p ensures MirrorAt(v, p) {
      assert MirrorAt(w, p);
    }
    forall p, s ensures RowAt(v, p, s) {
      assert RowAt(w, p, s) && MirrorAt(w, p);
    }
  }

  /** Every enabled step keeps the agreement of the lazy and the eager store. */
  lemma {:induction false} StepKeepsInv(w: World, ts: Stamp, a: Action)
    requires Inv(w) && Enabled(w, ts, a)
    ensures Inv(Next(w, ts, a))
  {
    assert w.missed + {} == w.missed;
    match a
    case Seed(pid, ppid, info) => BirthKeepsInv(w, ts, ProcRow(pid, ts, ppid, info, None), ppid, info);
    case Fork(parent, child) =>
      BirthKeepsInv(w, ts, ProcRow(child, ts, Some(parent), UNKNOWN_INFO, None), Some(parent), NO_INFO);
    case Exec(pid, info, ppidIfNew) => ExecKeepsInv(w, ts, pid, info, ppidIfNew);
    case Exit(pid) => ExitKeepsInv(w, ts, pid);
    case Write(path, op, pid, other) => WriteKeepsInv(w, ts, path, op, pid, other);
    case Evict => EvictKeepsInv(w, ts);
  }

  /* ---- Runs ---- */

  type Run = seq<(Stamp, Action)>

  function After(w: World, run: Run): World {
    if run == [] then w
    else
      var n := |run| - 1;
      Next(After(w, run[..n]), run[n].0, run[n].1)
  }

  ghost predicate Legal(w: World, run: Run) {
    run != [] ==>
      var n := |run| - 1;
      Legal(w, run[..n]) && Enabled(After(w, run[..n]), run[n].0, run[n].1)
  }

  lemma {:induction false} StartInv()
    ensures Inv(START)
  {
    forall p ensures MirrorAt(START, p) {
    }
    forall p, s ensures RowAt(START, p, s) {
    }
  }

  lemma {:induction false} RunKeepsInv(w: World, run: Run)
    requires Inv(w) && Legal(w, run)
    ensures Inv(After(w, run))
  {
    if run != [] {
      var n := |run| - 1;
      RunKeepsInv(w, run[..n]);
      StepKeepsInv(After(w, run[..n]), run[n].0, run[n].1);
    }
  }

  /** Lazy refines eager: after every legal run, missed forks included, each stored
   *  row has the exit the eager store has for that incarnation, and its parent too
   *  unless the fork was missed: then it has one and the eager row has none.
   */
  lemma {:induction false} LazyRowsAreEagerRows(run: Run, r: ProcRow)
    requires Legal(START, run)
    requires r in After(START, run).store
    ensures var w := After(START, run);
            var missed := (r.pid, r.startTs) in w.missed;
            && LineageAt(w.eager, r.pid, r.startTs) == Some(Lineage(if missed then None else r.ppid, r.exitTs))
            && (missed ==> r.ppid.Some?)
  {
    var w := After(START, run);
    StartInv();
    RunKeepsInv(START, run);
    MemberIsFound(w.store, r);
    assert RowAt(w, r.pid, r.startTs);
  }

  /** And an entry still in the tree is stored exactly when it is marked persisted. */
  lemma {:induction false} StoredMeansMarked(run: Run, p: int)
    requires Legal(START, run) && p in After(START, run).tree
    ensures var w := After(START, run);
            w.tree[p].persisted <==> LineageAt(w.store, p, w.tree[p].startTs).Some?
  {
    StartInv();
    RunKeepsInv(START, run);
    assert MirrorAt(After(START, run), p);
  }
}
