/** Ancestry over the lazy store against ancestry over the eager one. */
module AncestryRefinement {
  import opened Wrappers
  import opened Clock
  import opened Graph
  import opened Queries
  import opened LazyStore
  import opened AncestorClosed

  /* ---- A pid has one incarnation at a time ---- */

  // No instant lies in both lifetimes.
  predicate Apart(x: ProcRow, y: ProcRow) {
    x.pid == y.pid ==>
      || (x.exitTs.Some? && x.exitTs.value < y.startTs)
      || (y.exitTs.Some? && y.exitTs.value < x.startTs)
  }

  ghost predicate NoOverlap(rows: seq<ProcRow>) {
    forall i, j :: 0 <= i < j < |rows| ==> Apart(rows[i], rows[j])
  }

  lemma {:induction false} DisjointMeansNoOverlap(rows: seq<ProcRow>)
    requires UniqueKeys(rows) && Disjoint(rows)
    ensures NoOverlap(rows)
  {
    forall i, j | 0 <= i < j < |rows| && rows[i].pid == rows[j].pid ensures Apart(rows[i], rows[j]) {
      var x, y := rows[i], rows[j];
      MemberIsFound(rows, x);
      MemberIsFound(rows, y);
      assert WindowsAt(rows, x.pid, x.startTs, y.startTs) && WindowsAt(rows, x.pid, y.startTs, x.startTs);
    }
  }

  lemma {:induction false} StoreIsDisjoint(w: World)
    requires Inv(w)
    ensures Disjoint(w.store)
  {
    forall p, s, s' ensures WindowsAt(w.store, p, s, s') {
      assert WindowsAt(w.eager, p, s, s') && RowAt(w, p, s) && RowAt(w, p, s');
    }
  }

  lemma {:induction false} OneParentAtMost(rows: seq<ProcRow>, c: ProcRow)
    requires NoOverlap(rows)
    ensures |ParentRows(rows, c)| <= 1
  {
    if rows != [] {
      OneParentAtMost(rows[1..], c);
      var rest := ParentRows(rows[1..], c);
      forall r | IsParentRow(rows[0], c) && r in rows[1..] ensures !IsParentRow(r, c) {
        var k :| 0 <= k < |rows[1..]| && rows[1..][k] == r;
        assert Apart(rows[0], rows[k + 1]);
      }
      assert rest != [] ==> rest[0] in rest;
    }
  }

  lemma {:induction false} OneRowAKey(rows: seq<ProcRow>, pid: int, start: Stamp)
    requires UniqueKeys(rows)
    ensures WithKey(rows, pid, start) == match Find(rows, pid, start) case None => [] case Some(r) => [r]
  {
    if rows != [] {
      OneRowAKey(rows[1..], pid, start);
      if HasKey(rows[0], pid, start) {
        forall r | r in rows[1..] ensures !HasKey(r, pid, start) {
          var k :| 0 <= k < |rows[1..]| && rows[1..][k] == r;
          assert !HasKey(rows[0], rows[k + 1].pid, rows[k + 1].startTs);
        }
      }
    }
  }

  lemma {:induction false} NothingAboveNothing(rows: seq<ProcRow>, hops: nat)
    ensures AncestryFrom(rows, [], hops) == []
    decreases hops
  {
    if hops > 0 {
      NothingAboveNothing(rows, hops - 1);
    }
  }

  /* ---- Edges ---- */

  datatype Edge = Edge(pid: int, startTs: Stamp, ppid: Option<int>)

  function Edges(rows: seq<ProcRow>): (r: seq<Edge>)
    ensures |r| == |rows|
    ensures forall i :: 0 <= i < |r| ==> r[i] == Edge(rows[i].pid, rows[i].startTs, rows[i].ppid)
  {
    if rows == [] then []
    else [Edge(rows[0].pid, rows[0].startTs, rows[0].ppid)] + Edges(rows[1..])
  }

  // The eager twin of a lazy row: where the fork was missed it has no parent.
  predicate Twin(r: ProcRow, e: ProcRow, missed: set<(int, Stamp)>) {
    && r.pid == e.pid && r.startTs == e.startTs && r.exitTs == e.exitTs
    && if WasMissed(r, missed) then r.ppid.Some? && e.ppid == None else r.ppid == e.ppid
  }

  predicate WasMissed(r: ProcRow, missed: set<(int, Stamp)>) {
    (r.pid, r.startTs) in missed
  }

  ghost predicate HaveTwins(lazy: seq<ProcRow>, eager: seq<ProcRow>, missed: set<(int, Stamp)>) {
    forall r :: r in lazy ==> exists e :: e in eager && Twin(r, e, missed)
  }

  ghost predicate NoneMissed(rows: seq<ProcRow>, missed: set<(int, Stamp)>) {
    forall r :: r in rows ==> !WasMissed(r, missed)
  }

  lemma {:induction false} StoreHasTwins(w: World)
    requires Inv(w)
    ensures HaveTwins(w.store, w.eager, w.missed)
  {
    forall r | r in w.store ensures exists e :: e in w.eager && Twin(r, e, w.missed) {
      MemberIsFound(w.store, r);
      assert RowAt(w, r.pid, r.startTs);
      assert Twin(r, Find(w.eager, r.pid, r.startTs).value, w.missed);
    }
  }

  // One hop up, on both sides.
  lemma {:induction false} HopUp(rows: seq<ProcRow>, c: ProcRow, p: ProcRow)
    requires NoOverlap(rows)
    requires p in rows && IsParentRow(p, c)
    ensures ParentRows(rows, c) == [p]
  {
    OneParentAtMost(rows, c);
    assert p in ParentRows(rows, c);
  }

  // The parent hop of c, if there is one.
  function Up(rows: seq<ProcRow>, c: ProcRow): Option<ProcRow> {
    var up := ParentRows(rows, c);
    if up == [] then None else Some(up[0])
  }

  // With one incarnation at a time the levels of the query are single rows.
  function Line(rows: seq<ProcRow>, c: ProcRow, hops: nat): seq<ProcRow>
    decreases hops
  {
    [c] + if hops > 0 && ParentRows(rows, c) != []
          then Line(rows, ParentRows(rows, c)[0], hops - 1) else []
  }

  lemma {:induction false} AncestryIsLine(rows: seq<ProcRow>, c: ProcRow, hops: nat)
    requires NoOverlap(rows)
    ensures AncestryFrom(rows, [c], hops) == Line(rows, c, hops)
    decreases hops
  {
    if hops > 0 {
      var up := ParentRows(rows, c);
      NextLevel(rows, c);
      if up == [] {
        NothingAboveNothing(rows, hops - 1);
      } else {
        AncestryIsLine(rows, up[0], hops - 1);
      }
    }
  }

  lemma {:induction false} NextLevel(rows: seq<ProcRow>, c: ProcRow)
    requires NoOverlap(rows)
    ensures ParentsOfLevel(rows, [c]) == ParentRows(rows, c)
    ensures ParentRows(rows, c) == match Up(rows, c) case None => [] case Some(p) => [p]
  {
    OneParentAtMost(rows, c);
    assert [c][1..] == [];
  }

  lemma {:induction false} EdgesOfLine(rows: seq<ProcRow>, c: ProcRow, hops: nat)
    ensures Edges(Line(rows, c, hops)) ==
            [Edge(c.pid, c.startTs, c.ppid)] +
            if hops > 0 && Up(rows, c).Some? then Edges(Line(rows, Up(rows, c).value, hops - 1)) else []
  {
    var line := Line(rows, c, hops);
    assert line[1..] == if hops > 0 && Up(rows, c).Some? then Line(rows, Up(rows, c).value, hops - 1) else [];
  }

  // A lazy hop from a row that was not missed is the eager hop.
  lemma {:induction false} HopsAgree(lazy: seq<ProcRow>, eager: seq<ProcRow>, missed: set<(int, Stamp)>,
                                     c: ProcRow, d: ProcRow)
    requires NoOverlap(eager) && HaveTwins(lazy, eager, missed) && Twin(c, d, missed) && !WasMissed(c, missed)
    ensures Up(lazy, c).Some? ==> Up(eager, d).Some? && Twin(Up(lazy, c).value, Up(eager, d).value, missed)
  {
    if Up(lazy, c).Some? {
      var x := Up(lazy, c).value;
      assert x in ParentRows(lazy, c);
      var y :| y in eager && Twin(x, y, missed);
      HopUp(eager, d, y);
    }
  }

  lemma {:induction false} LineSplits(rows: seq<ProcRow>, c: ProcRow, hops: nat, missed: set<(int, Stamp)>)
    ensures NoneMissed(Line(rows, c, hops), missed) <==>
            !WasMissed(c, missed) &&
            (hops > 0 && Up(rows, c).Some? ==> NoneMissed(Line(rows, Up(rows, c).value, hops - 1), missed))
  {
    var line := Line(rows, c, hops);
    assert line[0] == c;
    if hops > 0 && Up(rows, c).Some? {
      var rest := Line(rows, Up(rows, c).value, hops - 1);
      assert line == [c] + rest;
    }
  }

  lemma {:induction false} PrefixFrom(lazy: seq<ProcRow>, eager: seq<ProcRow>, missed: set<(int, Stamp)>,
                                      c: ProcRow, d: ProcRow, hops: nat)
    requires NoOverlap(eager) && HaveTwins(lazy, eager, missed)
    requires Twin(c, d, missed)
    ensures Edges(Line(lazy, c, hops)) <= Edges(Line(eager, d, hops)) <==> NoneMissed(Line(lazy, c, hops), missed)
    decreases hops
  {
    EdgesOfLine(lazy, c, hops);
    EdgesOfLine(eager, d, hops);
    LineSplits(lazy, c, hops, missed);
    if !WasMissed(c, missed) {
      HopsAgree(lazy, eager, missed, c, d);
      if hops > 0 && Up(lazy, c).Some? {
        var x, y := Up(lazy, c).value, Up(eager, d).value;
        PrefixFrom(lazy, eager, missed, x, y, hops - 1);
        SameHead(Edge(c.pid, c.startTs, c.ppid), Edges(Line(lazy, x, hops - 1)), Edges(Line(eager, y, hops - 1)));
      }
    }
  }

  lemma {:induction false} SameHead(x: Edge, a: seq<Edge>, b: seq<Edge>)
    ensures [x] + a <= [x] + b <==> a <= b
  {
    if [x] + a <= [x] + b {
      assert a == ([x] + a)[1..] && b == ([x] + b)[1..];
      assert forall i :: 0 <= i < |a| ==> a[i] == ([x] + a)[i + 1];
    }
  }

  // Never stored and no longer in memory: evicted before anything below it wrote.
  ghost predicate Lost(w: World, r: ProcRow) {
    !InTree(w.tree, r.pid, r.startTs) && LineageAt(w.store, r.pid, r.startTs).None?
  }

  // An eager hop to a row that is not lost is a lazy hop too.
  lemma {:induction false} HopIsStored(w: World, c: ProcRow, d: ProcRow)
    requires Inv(w) && Closed(w.tree, w.store) && NoOverlap(w.store)
    requires c in w.store && Twin(c, d, w.missed) && !WasMissed(c, w.missed)
    requires Up(w.eager, d).Some? && !Lost(w, Up(w.eager, d).value)
    ensures Up(w.store, c).Some? && Up(w.store, c).value in w.store
    ensures Twin(Up(w.store, c).value, Up(w.eager, d).value, w.missed)
  {
    var y := Up(w.eager, d).value;
    assert y in ParentRows(w.eager, d);
    MemberIsFound(w.store, c);
    MemberIsFound(w.eager, y);
    assert ClosedAt(w.tree, w.store, c.pid, c.startTs);
    assert RowAt(w, y.pid, y.startTs) && MirrorAt(w, y.pid);
    var x := Find(w.store, y.pid, y.startTs).value;
    HopUp(w.store, c, x);
  }

  // None of the rows above d is lost.
  ghost predicate NoneLostAbove(w: World, d: ProcRow, hops: nat)
    decreases hops
  {
    hops > 0 && Up(w.eager, d).Some? ==>
      !Lost(w, Up(w.eager, d).value) && NoneLostAbove(w, Up(w.eager, d).value, hops - 1)
  }

  lemma {:induction false} NoneLostOnLine(w: World, d: ProcRow, hops: nat)
    requires forall r :: r in Line(w.eager, d, hops) ==> !Lost(w, r)
    ensures NoneLostAbove(w, d, hops)
    decreases hops
  {
    if hops > 0 && Up(w.eager, d).Some? {
      var y := Up(w.eager, d).value;
      var rest := Line(w.eager, y, hops - 1);
      assert Line(w.eager, d, hops) == [d] + rest;
      assert y == rest[0];
      NoneLostOnLine(w, y, hops - 1);
    }
  }

  lemma {:induction false} CompleteFrom(w: World, c: ProcRow, d: ProcRow, hops: nat)
    requires Inv(w) && Closed(w.tree, w.store)
    requires NoOverlap(w.store) && NoOverlap(w.eager) && HaveTwins(w.store, w.eager, w.missed)
    requires c in w.store && Twin(c, d, w.missed)
    requires NoneLostAbove(w, d, hops) && NoneMissed(Line(w.store, c, hops), w.missed)
    ensures Edges(Line(w.store, c, hops)) == Edges(Line(w.eager, d, hops))
    decreases hops
  {
    EdgesOfLine(w.store, c, hops);
    EdgesOfLine(w.eager, d, hops);
    LineSplits(w.store, c, hops, w.missed);
    HopsAgree(w.store, w.eager, w.missed, c, d);
    if hops > 0 && Up(w.eager, d).Some? {
      HopIsStored(w, c, d);
      CompleteFrom(w, Up(w.store, c).value, Up(w.eager, d).value, hops - 1);
    }
  }

  /* ---- The theorems, for every run ---- */

  lemma {:induction false} ReachableFacts(run: Run)
    requires Legal(START, run)
    ensures var w := After(START, run);
            Inv(w) && NoOverlap(w.store) && NoOverlap(w.eager) && HaveTwins(w.store, w.eager, w.missed)
  {
    var w := After(START, run);
    StartInv();
    RunKeepsInv(START, run);
    StoreIsDisjoint(w);
    DisjointMeansNoOverlap(w.store);
    DisjointMeansNoOverlap(w.eager);
    StoreHasTwins(w);
  }

  lemma {:induction false} AncestryOf(rows: seq<ProcRow>, pid: int, start: Stamp)
    requires UniqueKeys(rows) && NoOverlap(rows)
    ensures Ancestry(rows, pid, start) ==
            match Find(rows, pid, start) case None => [] case Some(c) => Line(rows, c, ANCESTRY_DEPTH)
  {
    OneRowAKey(rows, pid, start);
    match Find(rows, pid, start) {
      case None => NothingAboveNothing(rows, ANCESTRY_DEPTH);
      case Some(c) => AncestryIsLine(rows, c, ANCESTRY_DEPTH);
    }
  }

  lemma {:induction false} FoundTwins(w: World, pid: int, start: Stamp)
    requires Inv(w) && Find(w.store, pid, start).Some?
    ensures Find(w.eager, pid, start).Some?
    ensures Twin(Find(w.store, pid, start).value, Find(w.eager, pid, start).value, w.missed)
  {
    assert RowAt(w, pid, start);
  }

  /** What the lazy store explains is only ever shorter than what the eager one does,
   *  exactly as long as it explains by no process whose fork was missed.
   */
  lemma {:induction false} LazyAncestryIsPrefix(run: Run, pid: int, start: Stamp)
    requires Legal(START, run)
    ensures var w := After(START, run);
            Edges(Ancestry(w.store, pid, start)) <= Edges(Ancestry(w.eager, pid, start))
            <==> NoneMissed(Ancestry(w.store, pid, start), w.missed)
  {
    var w := After(START, run);
    ReachableFacts(run);
    AncestryOf(w.store, pid, start);
    AncestryOf(w.eager, pid, start);
    if Find(w.store, pid, start).Some? {
      FoundTwins(w, pid, start);
      var c, d := Find(w.store, pid, start).value, Find(w.eager, pid, start).value;
      PrefixFrom(w.store, w.eager, w.missed, c, d, ANCESTRY_DEPTH);
    }
  }

  lemma {:induction false} LineInRows(rows: seq<ProcRow>, c: ProcRow, hops: nat, r: ProcRow)
    requires c in rows && r in Line(rows, c, hops)
    ensures r in rows
    decreases hops
  {
    if r != c {
      var up := ParentRows(rows, c);
      assert up[0] in up;
      LineInRows(rows, up[0], hops - 1, r);
    }
  }

  lemma {:induction false} EqualEdgesStored(w: World, c: ProcRow, d: ProcRow, r: ProcRow)
    requires c in w.store
    requires Edges(Line(w.store, c, ANCESTRY_DEPTH)) == Edges(Line(w.eager, d, ANCESTRY_DEPTH))
    requires r in Line(w.eager, d, ANCESTRY_DEPTH)
    ensures !Lost(w, r)
  {
    var lazy, eager := Line(w.store, c, ANCESTRY_DEPTH), Line(w.eager, d, ANCESTRY_DEPTH);
    var i :| 0 <= i < |eager| && eager[i] == r;
    assert |lazy| == |Edges(lazy)| == |eager|;
    assert Edges(lazy)[i] == Edges(eager)[i];
    LineInRows(w.store, c, ANCESTRY_DEPTH, lazy[i]);
    assert HasKey(lazy[i], r.pid, r.startTs);
  }

  lemma {:induction false} CompleteExactly(w: World, c: ProcRow, d: ProcRow)
    requires Inv(w) && Closed(w.tree, w.store)
    requires NoOverlap(w.store) && NoOverlap(w.eager) && HaveTwins(w.store, w.eager, w.missed)
    requires c in w.store && Twin(c, d, w.missed)
    ensures var lazy, eager := Line(w.store, c, ANCESTRY_DEPTH), Line(w.eager, d, ANCESTRY_DEPTH);
            Edges(lazy) == Edges(eager) <==> NoneMissed(lazy, w.missed) && forall r :: r in eager ==> !Lost(w, r)
  {
    var lazy, eager := Line(w.store, c, ANCESTRY_DEPTH), Line(w.eager, d, ANCESTRY_DEPTH);
    PrefixFrom(w.store, w.eager, w.missed, c, d, ANCESTRY_DEPTH);
    if Edges(lazy) == Edges(eager) {
      forall r | r in eager ensures !Lost(w, r) {
        EqualEdgesStored(w, c, d, r);
      }
    } else if NoneMissed(lazy, w.missed) && forall r :: r in eager ==> !Lost(w, r) {
      NoneLostOnLine(w, d, ANCESTRY_DEPTH);
      CompleteFrom(w, c, d, ANCESTRY_DEPTH);
    }
  }

  /** And for a stored process it is complete exactly when, besides, none of its eager
   *  ancestors was evicted unstored.
   */
  lemma {:induction false} LazyAncestryComplete(run: Run, pid: int, start: Stamp)
    requires Legal(START, run) && NeverCutOff(START, run)
    requires LineageAt(After(START, run).store, pid, start).Some?
    ensures var w := After(START, run);
            var lazy, eager := Ancestry(w.store, pid, start), Ancestry(w.eager, pid, start);
            Edges(lazy) == Edges(eager) <==> NoneMissed(lazy, w.missed) && forall r :: r in eager ==> !Lost(w, r)
  {
    var w := After(START, run);
    ReachableFacts(run);
    StartIsClosed();
    RunKeepsClosed(START, run);
    AncestryOf(w.store, pid, start);
    AncestryOf(w.eager, pid, start);
    FoundTwins(w, pid, start);
    CompleteExactly(w, Find(w.store, pid, start).value, Find(w.eager, pid, start).value);
  }
}
