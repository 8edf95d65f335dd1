/** What a command wrote, asked of the lazy store and of the eager one. */
module LazyManifests {
  import opened Wrappers
  import opened Clock
  import opened Graph
  import opened Queries
  import opened LazyStore
  import opened AncestorClosed
  import opened AncestryRefinement
  import opened Kinship
  import opened Manifests
  import opened LazyAttribution

  /* ---- Sorted lists with the same members ---- */

  // A member that every other member has to be found before is the last.
  lemma {:induction false} LastIsLast(a: seq<Resolved>, x: Resolved)
    requires TimeOrdered(a) && DistinctEvents(a) && x in a
    requires forall r :: r in a && r != x ==> Before(r.event, x.event)
    ensures a[|a| - 1] == x
  {
    var i :| 0 <= i < |a| && a[i] == x;
    var y := a[|a| - 1];
    assert y in a;
    assert i < |a| - 1 ==> Before(x.event, y.event);
  }

  lemma {:induction false} BeforeLast(a: seq<Resolved>, r: Resolved)
    requires TimeOrdered(a) && r in a && r != a[|a| - 1]
    ensures Before(r.event, a[|a| - 1].event)
  {
    var i :| 0 <= i < |a| && a[i] == r;
    assert i < |a| - 1;
  }

  ghost predicate SameMembers(a: seq<Resolved>, b: seq<Resolved>) {
    forall r :: r in a <==> r in b
  }

  lemma {:induction false} SameLast(a: seq<Resolved>, b: seq<Resolved>)
    requires TimeOrdered(a) && TimeOrdered(b) && DistinctEvents(b) && a != [] && SameMembers(a, b)
    ensures b != [] && b[|b| - 1] == a[|a| - 1]
  {
    var x := a[|a| - 1];
    assert x in a;
    assert x in b;
    forall r | r in b && r != x ensures Before(r.event, x.event) {
      assert r in a;
      BeforeLast(a, r);
    }
    LastIsLast(b, x);
  }

  lemma {:induction false} SameInit(a: seq<Resolved>, b: seq<Resolved>)
    requires DistinctEvents(a) && DistinctEvents(b) && SameMembers(a, b)
    requires a != [] && b != [] && a[|a| - 1] == b[|b| - 1]
    ensures SameMembers(a[..|a| - 1], b[..|b| - 1])
  {
    var c, d := a[..|a| - 1], b[..|b| - 1];
    forall r ensures r in c <==> r in d {
      AllButLast(a, r);
      AllButLast(b, r);
    }
  }

  lemma {:induction false} SameMembersSameList(a: seq<Resolved>, b: seq<Resolved>)
    requires TimeOrdered(a) && DistinctEvents(a) && TimeOrdered(b) && DistinctEvents(b)
    requires SameMembers(a, b)
    ensures a == b
    decreases |a|
  {
    if b != [] {
      assert b[0] in b;
    }
    if a != [] {
      SameLast(a, b);
      SameInit(a, b);
      SameMembersSameList(a[..|a| - 1], b[..|b| - 1]);
      assert a == a[..|a| - 1] + [a[|a| - 1]] && b == b[..|b| - 1] + [b[|b| - 1]];
    }
  }

  lemma {:induction false} AllButLast(a: seq<Resolved>, r: Resolved)
    requires a != [] && DistinctEvents(a)
    ensures r in a[..|a| - 1] <==> r in a && r != a[|a| - 1]
  {
    var m := |a| - 1;
    assert a == a[..m] + [a[m]];
    if r in a[..m] {
      var i :| 0 <= i < m && a[i] == r;
      assert a[i].event.id != a[m].event.id;
    }
  }

  /* ---- The members of a manifest ---- */

  ghost predicate InManifest(rows: seq<ProcRow>, events: seq<EventRow>, p: ProcRow, r: Resolved) {
    && r.event in events
    && exists t :: t in rows && Descends(rows, t, p) && WrittenBy(r.event, t) && r.start == Some(t.startTs)
  }

  lemma {:induction false} OneResolution(rows: seq<ProcRow>, events: seq<EventRow>, p: ProcRow, r: Resolved,
                                         x: Resolved)
    requires OneIncarnation(rows) && r.event == x.event
    requires InManifest(rows, events, p, r) && InManifest(rows, events, p, x)
    ensures r == x
  {
    var t :| t in rows && Descends(rows, t, p) && WrittenBy(r.event, t) && r.start == Some(t.startTs);
    var u :| u in rows && Descends(rows, u, p) && WrittenBy(x.event, u) && x.start == Some(u.startTs);
    SameRow(rows, t, u);
  }

  lemma {:induction false} ManifestMembers(rows: seq<ProcRow>, events: seq<EventRow>, p: ProcRow, r: Resolved)
    requires Family(rows, ANCESTRY_DEPTH + 1) && p in rows && IdsIncrease(events)
    ensures r in Manifest(rows, events, p.pid, p.startTs) <==> InManifest(rows, events, p, r)
  {
    var m := Manifest(rows, events, p.pid, p.startTs);
    ManifestIsExact(rows, events, p);
    if InManifest(rows, events, p, r) {
      assert WriterBelow(rows, r.event, p);
      var x :| x in m && x.event == r.event;
      assert InManifest(rows, events, p, x);
      OneResolution(rows, events, p, r, x);
    }
  }

  lemma {:induction false} ManifestsEqualWhen(a: seq<ProcRow>, b: seq<ProcRow>, events: seq<EventRow>, p: ProcRow,
                                              q: ProcRow)
    requires Family(a, ANCESTRY_DEPTH + 1) && Family(b, ANCESTRY_DEPTH + 1) && IdsIncrease(events)
    requires p in a && q in b && p.pid == q.pid && p.startTs == q.startTs
    ensures Manifest(a, events, p.pid, p.startTs) == Manifest(b, events, q.pid, q.startTs)
            <==> forall r :: InManifest(a, events, p, r) <==> InManifest(b, events, q, r)
  {
    var x, y := Manifest(a, events, p.pid, p.startTs), Manifest(b, events, q.pid, q.startTs);
    ManifestIsExact(a, events, p);
    ManifestIsExact(b, events, q);
    forall r ensures (r in x <==> InManifest(a, events, p, r)) && (r in y <==> InManifest(b, events, q, r)) {
      ManifestMembers(a, events, p, r);
      ManifestMembers(b, events, q, r);
    }
    if forall r :: InManifest(a, events, p, r) <==> InManifest(b, events, q, r) {
      SameMembersSameList(x, y);
    }
  }

  /* ---- A part of a family ---- */

  // Same incarnation, parent and exit; names may differ.
  predicate SameLife(a: ProcRow, b: ProcRow) {
    a.pid == b.pid && a.startTs == b.startTs && a.ppid == b.ppid && a.exitTs == b.exitTs
  }

  ghost predicate PartOf(lazy: seq<ProcRow>, eager: seq<ProcRow>) {
    forall r :: r in lazy ==> exists e :: e in eager && SameLife(r, e)
  }

  // The connector reported every fork, or /proc gave no parent.
  ghost predicate NoForkMissed(run: Run) {
    LazyStore.After(START, run).missed == {}
  }

  lemma {:induction false} StoreIsPart(w: World)
    requires Inv(w) && w.missed == {}
    ensures PartOf(w.store, w.eager)
  {
    StoreHasTwins(w);
    forall r | r in w.store ensures exists e :: e in w.eager && SameLife(r, e) {
      var e :| e in w.eager && Twin(r, e, w.missed);
      assert SameLife(r, e);
    }
  }

  lemma {:induction false} PartHasOneIncarnation(lazy: seq<ProcRow>, eager: seq<ProcRow>)
    requires PartOf(lazy, eager) && UniqueKeys(lazy) && OneIncarnation(eager)
    ensures OneIncarnation(lazy)
  {
    forall i, j | 0 <= i < j < |lazy| ensures lazy[i].pid != lazy[j].pid {
      assert lazy[i] in lazy && lazy[j] in lazy;
      var x :| x in eager && SameLife(lazy[i], x);
      var y :| y in eager && SameLife(lazy[j], y);
      SameRow(eager, x, y);
    }
  }

  // A row's parent in the part is its parent in the whole.
  lemma {:induction false} ParentInWhole(lazy: seq<ProcRow>, eager: seq<ProcRow>, c: ProcRow, d: ProcRow)
    requires PartOf(lazy, eager) && OneIncarnation(eager) && SameLife(c, d)
    ensures ParentOf(lazy, c).Some? ==>
              ParentOf(eager, d).Some? && SameLife(ParentOf(lazy, c).value, ParentOf(eager, d).value)
  {
    if ParentOf(lazy, c).Some? {
      var y :| y in eager && SameLife(ParentOf(lazy, c).value, y);
      ParentIsStored(eager, y, d);
    }
  }

  lemma {:induction false} AncestorInWhole(lazy: seq<ProcRow>, eager: seq<ProcRow>, c: ProcRow, d: ProcRow, k: nat)
    requires PartOf(lazy, eager) && OneIncarnation(eager) && SameLife(c, d)
    ensures Ancestor(lazy, c, k).Some? ==>
              Ancestor(eager, d, k).Some? && SameLife(Ancestor(lazy, c, k).value, Ancestor(eager, d, k).value)
  {
    if k > 0 {
      AncestorInWhole(lazy, eager, c, d, k - 1);
      if Ancestor(lazy, c, k).Some? {
        ParentInWhole(lazy, eager, Ancestor(lazy, c, k - 1).value, Ancestor(eager, d, k - 1).value);
      }
    }
  }

  lemma {:induction false} PartIsFamily(lazy: seq<ProcRow>, eager: seq<ProcRow>, hops: nat)
    requires PartOf(lazy, eager) && UniqueKeys(lazy) && Family(eager, hops)
    ensures Family(lazy, hops)
  {
    PartHasOneIncarnation(lazy, eager);
    forall p, c | p in lazy && c in lazy && c.ppid == Some(p.pid) ensures IsParentRow(p, c) {
      var x :| x in eager && SameLife(p, x);
      var y :| y in eager && SameLife(c, y);
      assert IsParentRow(x, y);
    }
    forall r | r in lazy ensures Ancestor(lazy, r, hops) == None {
      var e :| e in eager && SameLife(r, e);
      AncestorInWhole(lazy, eager, r, e, hops);
    }
  }

  ghost predicate Stored(lazy: seq<ProcRow>, e: ProcRow) {
    exists r :: r in lazy && SameLife(r, e)
  }

  // The row and everything above it, so many hops up, is stored.
  ghost predicate LineStored(lazy: seq<ProcRow>, eager: seq<ProcRow>, t: ProcRow, k: nat) {
    forall j: nat :: j <= k && Ancestor(eager, t, j).Some? ==> Stored(lazy, Ancestor(eager, t, j).value)
  }

  lemma {:induction false} AncestorInPart(lazy: seq<ProcRow>, eager: seq<ProcRow>, c: ProcRow, d: ProcRow, k: nat)
    requires PartOf(lazy, eager) && OneIncarnation(lazy) && OneIncarnation(eager)
    requires c in lazy && SameLife(c, d) && LineStored(lazy, eager, d, k) && Ancestor(eager, d, k).Some?
    ensures Ancestor(lazy, c, k).Some? && SameLife(Ancestor(lazy, c, k).value, Ancestor(eager, d, k).value)
  {
    if k > 0 {
      AncestorInPart(lazy, eager, c, d, k - 1);
      var x :| x in lazy && SameLife(x, Ancestor(eager, d, k).value);
      ParentIsStored(lazy, x, Ancestor(lazy, c, k - 1).value);
    }
  }

  /* ---- The comparison ---- */

  // Every event of the command was written by a stored process below a stored line.
  ghost predicate AllLinesStored(lazy: seq<ProcRow>, eager: seq<ProcRow>, events: seq<EventRow>, q: ProcRow) {
    forall e, t, k: nat :: e in events && t in eager && WrittenBy(e, t) && Ancestor(eager, t, k) == Some(q)
                           ==> LineStored(lazy, eager, t, k)
  }

  // The part never lists more.
  lemma {:induction false} PartListsLess(lazy: seq<ProcRow>, eager: seq<ProcRow>, events: seq<EventRow>,
                                         p: ProcRow, q: ProcRow, r: Resolved)
    requires PartOf(lazy, eager) && OneIncarnation(eager) && p in lazy && q in eager && SameLife(p, q)
    requires InManifest(lazy, events, p, r)
    ensures InManifest(eager, events, q, r)
  {
    var t :| t in lazy && Descends(lazy, t, p) && WrittenBy(r.event, t) && r.start == Some(t.startTs);
    var k: nat :| Ancestor(lazy, t, k) == Some(p);
    var u :| u in eager && SameLife(t, u);
    AncestorInWhole(lazy, eager, t, u, k);
    AncestorStored(eager, u, k);
    SameRow(eager, Ancestor(eager, u, k).value, q);
    assert Descends(eager, u, q);
  }

  lemma {:induction false} StoredLinesList(lazy: seq<ProcRow>, eager: seq<ProcRow>, events: seq<EventRow>,
                                           p: ProcRow, q: ProcRow, r: Resolved)
    requires PartOf(lazy, eager) && OneIncarnation(lazy) && OneIncarnation(eager)
    requires p in lazy && q in eager && SameLife(p, q)
    requires AllLinesStored(lazy, eager, events, q) && InManifest(eager, events, q, r)
    ensures InManifest(lazy, events, p, r)
  {
    var u :| u in eager && Descends(eager, u, q) && WrittenBy(r.event, u) && r.start == Some(u.startTs);
    var k: nat :| Ancestor(eager, u, k) == Some(q);
    assert LineStored(lazy, eager, u, k);
    assert Ancestor(eager, u, 0) == Some(u);
    var t :| t in lazy && SameLife(t, u);
    AncestorInPart(lazy, eager, t, u, k);
    AncestorStored(lazy, t, k);
    SameRow(lazy, Ancestor(lazy, t, k).value, p);
    assert Descends(lazy, t, p);
  }

  lemma {:induction false} LineOfStored(lazy: seq<ProcRow>, eager: seq<ProcRow>, t: ProcRow, u: ProcRow, k: nat)
    requires PartOf(lazy, eager) && OneIncarnation(eager)
    requires t in lazy && SameLife(t, u) && Ancestor(lazy, t, k).Some?
    ensures LineStored(lazy, eager, u, k)
  {
    forall j: nat | j <= k && Ancestor(eager, u, j).Some? ensures Stored(lazy, Ancestor(eager, u, j).value) {
      AncestorAdds(lazy, t, j, k - j);
      AncestorInWhole(lazy, eager, t, u, j);
      AncestorStored(lazy, t, j);
    }
  }

  lemma {:induction false} ListedLineIsStored(lazy: seq<ProcRow>, eager: seq<ProcRow>, events: seq<EventRow>,
                                              p: ProcRow, q: ProcRow, e: EventRow, u: ProcRow, k: nat, hops: nat)
    requires PartOf(lazy, eager) && Family(eager, hops) && p in lazy && q in eager && SameLife(p, q)
    requires e in events && u in eager && WrittenBy(e, u) && Ancestor(eager, u, k) == Some(q)
    requires InManifest(lazy, events, p, Resolved(e, Some(u.startTs)))
    ensures LineStored(lazy, eager, u, k)
  {
    var t :| t in lazy && Descends(lazy, t, p) && WrittenBy(e, t) && u.startTs == t.startTs;
    var i: nat :| Ancestor(lazy, t, i) == Some(p);
    var v :| v in eager && SameLife(t, v);
    SameRow(eager, u, v);
    AncestorInWhole(lazy, eager, t, u, i);
    AncestorStored(eager, u, i);
    SameRow(eager, Ancestor(eager, u, i).value, q);
    OneDistance(eager, hops, u, q, i, k);
    LineOfStored(lazy, eager, t, u, k);
  }

  lemma {:induction false} SameMembersWhenStored(lazy: seq<ProcRow>, eager: seq<ProcRow>, events: seq<EventRow>,
                                                 p: ProcRow, q: ProcRow, hops: nat)
    requires PartOf(lazy, eager) && Family(lazy, hops) && Family(eager, hops)
    requires p in lazy && q in eager && SameLife(p, q)
    ensures (forall r :: InManifest(lazy, events, p, r) <==> InManifest(eager, events, q, r))
            <==> AllLinesStored(lazy, eager, events, q)
  {
    forall r | InManifest(lazy, events, p, r) ensures InManifest(eager, events, q, r) {
      PartListsLess(lazy, eager, events, p, q, r);
    }
    if AllLinesStored(lazy, eager, events, q) {
      forall r | InManifest(eager, events, q, r) ensures InManifest(lazy, events, p, r) {
        StoredLinesList(lazy, eager, events, p, q, r);
      }
    }
    if forall r :: InManifest(lazy, events, p, r) <==> InManifest(eager, events, q, r) {
      forall e, u, k: nat | e in events && u in eager && WrittenBy(e, u) && Ancestor(eager, u, k) == Some(q)
        ensures LineStored(lazy, eager, u, k)
      {
        assert Descends(eager, u, q);
        assert InManifest(eager, events, q, Resolved(e, Some(u.startTs)));
        ListedLineIsStored(lazy, eager, events, p, q, e, u, k, hops);
      }
    }
  }

  // The facts of a run that the comparison rests on.
  ghost predicate Comparable(run: Run, p: ProcRow, q: ProcRow) {
    var w := LazyStore.After(START, run);
    && Legal(START, run) && NoForkMissed(run) && Family(w.eager, ANCESTRY_DEPTH + 1)
    && p in w.store && q in w.eager && SameLife(p, q)
  }

  lemma {:induction false} ComparableFacts(run: Run, p: ProcRow, q: ProcRow)
    requires Comparable(run, p, q)
    ensures var w := LazyStore.After(START, run);
            && Inv(w) && PartOf(w.store, w.eager) && Family(w.store, ANCESTRY_DEPTH + 1) && IdsIncrease(w.events)
  {
    var w := LazyStore.After(START, run);
    ReachableFacts(run);
    StoreIsPart(w);
    PartIsFamily(w.store, w.eager, ANCESTRY_DEPTH + 1);
    RunIdsIncrease(run);
  }

  /** The lazy manifest of a stored command is the eager one exactly when, for each of
   *  its events, the writer and all between it and the command are stored.
   */
  lemma {:induction false} LazyManifestIsEager(run: Run, p: ProcRow, q: ProcRow)
    requires Comparable(run, p, q)
    ensures var w := LazyStore.After(START, run);
            Manifest(w.store, w.events, p.pid, p.startTs) == Manifest(w.eager, w.events, p.pid, p.startTs)
            <==> AllLinesStored(w.store, w.eager, w.events, q)
  {
    var w := LazyStore.After(START, run);
    ComparableFacts(run, p, q);
    ManifestsEqualWhen(w.store, w.eager, w.events, p, q);
    SameMembersWhenStored(w.store, w.eager, w.events, p, q, ANCESTRY_DEPTH + 1);
  }

  /** And it never lists an event the eager manifest does not. */
  lemma {:induction false} LazyManifestListsLess(run: Run, p: ProcRow, q: ProcRow, r: Resolved)
    requires Comparable(run, p, q)
    requires r in Manifest(LazyStore.After(START, run).store, LazyStore.After(START, run).events, p.pid, p.startTs)
    ensures r in Manifest(LazyStore.After(START, run).eager, LazyStore.After(START, run).events, p.pid, p.startTs)
  {
    var w := LazyStore.After(START, run);
    ComparableFacts(run, p, q);
    ManifestMembers(w.store, w.events, p, r);
    PartListsLess(w.store, w.eager, w.events, p, q, r);
    ManifestMembers(w.eager, w.events, q, r);
  }

  /* ---- In terms of what was evicted ---- */

  ghost predicate BoundAreStored(w: World) {
    forall e :: e in w.events && e.procStart.Some? ==> Find(w.store, e.pid, e.procStart.value).Some?
  }

  lemma {:induction false} RunStoresBound(run: Run)
    ensures BoundAreStored(LazyStore.After(START, run))
  {
    if run != [] {
      var n := |run| - 1;
      var w := LazyStore.After(START, run[..n]);
      var v := LazyStore.After(START, run);
      RunStoresBound(run[..n]);
      forall e | e in v.events && e.procStart.Some? ensures Find(v.store, e.pid, e.procStart.value).Some? {
        StepStoresBound(w, run[n].0, run[n].1, e);
      }
    }
  }

  lemma {:induction false} StepStoresBound(w: World, ts: Stamp, a: Action, e: EventRow)
    requires BoundAreStored(w) && e in Next(w, ts, a).events && e.procStart.Some?
    ensures Find(Next(w, ts, a).store, e.pid, e.procStart.value).Some?
  {
    KeysStay(w, ts, a, e.pid, e.procStart.value);
    if e !in w.events {
      LookupIsStored(Next(w, ts, a).store, e.pid, e.ts);
    }
  }

  lemma {:induction false} FoundByKey(rows: seq<ProcRow>, r: ProcRow)
    requires r in rows
    ensures Find(rows, r.pid, r.startTs).Some?
  {
    assert HasKey(r, r.pid, r.startTs);
  }

  lemma {:induction false} LookupIsStored(rows: seq<ProcRow>, pid: int, ts: Stamp)
    ensures Lookup(rows, pid, ts).Some? ==> Find(rows, pid, Lookup(rows, pid, ts).value).Some?
  {
    if Lookup(rows, pid, ts).Some? {
      var s := Lookup(rows, pid, ts).value;
      var r :| r in rows && Started(r, pid, ts) && r.startTs == s;
      FoundByKey(rows, r);
    }
  }

  // Above a stored row, what is not lost is stored.
  lemma {:induction false} NotLostIsStored(w: World, c: ProcRow, d: ProcRow)
    requires Inv(w) && w.missed == {} && Closed(w.tree, w.store) && OneIncarnation(w.eager)
    requires c in w.store && SameLife(c, d)
    requires ParentOf(w.eager, d).Some? && !Lost(w, ParentOf(w.eager, d).value)
    ensures Stored(w.store, ParentOf(w.eager, d).value)
  {
    var y := ParentOf(w.eager, d).value;
    MemberIsFound(w.store, c);
    MemberIsFound(w.eager, y);
    assert ClosedAt(w.tree, w.store, c.pid, c.startTs);
    assert RowAt(w, y.pid, y.startTs) && MirrorAt(w, y.pid);
    assert SameLife(Find(w.store, y.pid, y.startTs).value, y);
  }

  // None of the rows from t up to the command was evicted unstored.
  ghost predicate NoneLost(w: World, t: ProcRow, k: nat) {
    forall j: nat :: j <= k && Ancestor(w.eager, t, j).Some? ==> !Lost(w, Ancestor(w.eager, t, j).value)
  }

  lemma {:induction false} LineUpOne(w: World, t: ProcRow, j: nat, k: nat)
    requires Inv(w) && w.missed == {} && Closed(w.tree, w.store) && OneIncarnation(w.eager)
    requires k == j + 1 && LineStored(w.store, w.eager, t, j)
    requires Ancestor(w.eager, t, k).Some? && !Lost(w, Ancestor(w.eager, t, k).value)
    ensures Stored(w.store, Ancestor(w.eager, t, k).value)
  {
    var d := Ancestor(w.eager, t, j).value;
    assert Stored(w.store, d);
    var c :| c in w.store && SameLife(c, d);
    NotLostIsStored(w, c, d);
  }

  lemma {:induction false} LineUp(w: World, t: ProcRow, k: nat)
    requires Inv(w) && w.missed == {} && Closed(w.tree, w.store) && OneIncarnation(w.eager)
    requires Stored(w.store, t) && NoneLost(w, t, k)
    ensures LineStored(w.store, w.eager, t, k)
  {
    if k > 0 {
      LineUp(w, t, k - 1);
      if Ancestor(w.eager, t, k).Some? {
        LineUpOne(w, t, k - 1, k);
      }
    }
  }

  lemma {:induction false} LineNotLost(w: World, t: ProcRow, k: nat)
    requires LineStored(w.store, w.eager, t, k)
    ensures NoneLost(w, t, k)
  {
    forall j: nat | j <= k && Ancestor(w.eager, t, j).Some? ensures !Lost(w, Ancestor(w.eager, t, j).value) {
      var a := Ancestor(w.eager, t, j).value;
      var r :| r in w.store && SameLife(r, a);
      assert HasKey(r, a.pid, a.startTs);
    }
  }

  lemma {:induction false} WriterIsStored(w: World, e: EventRow, t: ProcRow)
    requires Inv(w) && w.missed == {} && BoundAreStored(w)
    requires e in w.events && e.procStart.Some? && t in w.eager && WrittenBy(e, t)
    ensures Stored(w.store, t)
  {
    MemberIsFound(w.eager, t);
    assert RowAt(w, t.pid, t.startTs);
    assert SameLife(Find(w.store, t.pid, t.startTs).value, t);
  }

  ghost predicate NoLineLost(w: World, q: ProcRow) {
    forall e, t, k: nat ::
      e in w.events && t in w.eager && WrittenBy(e, t) && Ancestor(w.eager, t, k) == Some(q) ==> NoneLost(w, t, k)
  }

  lemma {:induction false} LostOrStored(w: World, e: EventRow, t: ProcRow, k: nat)
    requires Inv(w) && w.missed == {} && Closed(w.tree, w.store) && OneIncarnation(w.eager) && BoundAreStored(w)
    requires e in w.events && e.procStart.Some? && t in w.eager && WrittenBy(e, t)
    ensures LineStored(w.store, w.eager, t, k) <==> NoneLost(w, t, k)
  {
    WriterIsStored(w, e, t);
    if NoneLost(w, t, k) {
      LineUp(w, t, k);
    }
    if LineStored(w.store, w.eager, t, k) {
      LineNotLost(w, t, k);
    }
  }

  lemma {:induction false} LinesLostOrStored(w: World, q: ProcRow)
    requires Inv(w) && w.missed == {} && Closed(w.tree, w.store) && OneIncarnation(w.eager) && BoundAreStored(w)
    requires forall e :: e in w.events ==> e.procStart.Some?
    ensures AllLinesStored(w.store, w.eager, w.events, q) <==> NoLineLost(w, q)
  {
    forall e, t, k: nat | e in w.events && t in w.eager && WrittenBy(e, t)
      ensures LineStored(w.store, w.eager, t, k) <==> NoneLost(w, t, k)
    {
      LostOrStored(w, e, t, k);
    }
  }

  /** For a run whose chains were never cut off and whose events were all attributed when
   *  recorded: the lazy manifest is the eager one exactly when nothing between a writer
   *  and the command was evicted unstored.
   */
  lemma {:induction false} LazyManifestCompleteUnlessLost(run: Run, p: ProcRow, q: ProcRow)
    requires Comparable(run, p, q) && NeverCutOff(START, run)
    requires forall e :: e in LazyStore.After(START, run).events ==> e.procStart.Some?
    ensures var w := LazyStore.After(START, run);
            Manifest(w.store, w.events, p.pid, p.startTs) == Manifest(w.eager, w.events, p.pid, p.startTs)
            <==> NoLineLost(w, q)
  {
    ComparableFacts(run, p, q);
    LazyManifestIsEager(run, p, q);
    StartIsClosed();
    RunKeepsClosed(START, run);
    RunStoresBound(run);
    LinesLostOrStored(LazyStore.After(START, run), q);
  }
}
