/** Ancestry and descent agree, and manifests list each event once. */
module Kinship {
  import opened Wrappers
  import opened Graph
  import opened Queries

  /* ---- Tables with one incarnation a pid ---- */

  ghost predicate OneIncarnation(rows: seq<ProcRow>) {
    forall i, j :: 0 <= i < j < |rows| ==> rows[i].pid != rows[j].pid
  }

  // A row that names a stored pid was born within that process's lifetime.
  ghost predicate ParentsAlive(rows: seq<ProcRow>) {
    forall p, c :: p in rows && c in rows && c.ppid == Some(p.pid) ==> IsParentRow(p, c)
  }

  function ByPid(rows: seq<ProcRow>, pid: int): (r: Option<ProcRow>)
    ensures r.Some? ==> r.value in rows && r.value.pid == pid
    ensures r.None? ==> forall x :: x in rows ==> x.pid != pid
  {
    if rows == [] then None else if rows[0].pid == pid then Some(rows[0]) else ByPid(rows[1..], pid)
  }

  function ParentOf(rows: seq<ProcRow>, c: ProcRow): Option<ProcRow> {
    match c.ppid case None => None case Some(q) => ByPid(rows, q)
  }

  // The ancestor so many hops up: the meaning both queries are held to.
  function Ancestor(rows: seq<ProcRow>, d: ProcRow, hops: nat): Option<ProcRow> {
    if hops == 0 then Some(d)
    else match Ancestor(rows, d, hops - 1) case None => None case Some(c) => ParentOf(rows, c)
  }

  // No chain of so many hops; in particular no cycle.
  ghost predicate NoChain(rows: seq<ProcRow>, hops: nat) {
    forall r {:trigger r in rows} :: r in rows ==> Ancestor(rows, r, hops) == None
  }

  ghost predicate Family(rows: seq<ProcRow>, hops: nat) {
    OneIncarnation(rows) && ParentsAlive(rows) && NoChain(rows, hops)
  }

  lemma {:induction false} SameRow(rows: seq<ProcRow>, x: ProcRow, y: ProcRow)
    requires OneIncarnation(rows) && x in rows && y in rows
    ensures x.pid == y.pid <==> x == y
  {
    var i :| 0 <= i < |rows| && rows[i] == x;
    var j :| 0 <= j < |rows| && rows[j] == y;
  }

  lemma {:induction false} AncestorAdds(rows: seq<ProcRow>, d: ProcRow, a: nat, b: nat)
    ensures Ancestor(rows, d, a + b) ==
            match Ancestor(rows, d, a) case None => None case Some(c) => Ancestor(rows, c, b)
  {
    if b > 0 {
      AncestorAdds(rows, d, a, b - 1);
    }
  }

  lemma {:induction false} AncestorStored(rows: seq<ProcRow>, d: ProcRow, k: nat)
    requires d in rows
    ensures Ancestor(rows, d, k).Some? ==> Ancestor(rows, d, k).value in rows
  {
    if k > 0 {
      AncestorStored(rows, d, k - 1);
    }
  }

  lemma {:induction false} HopsAreFew(rows: seq<ProcRow>, limit: nat, d: ProcRow, k: nat)
    requires NoChain(rows, limit) && d in rows
    ensures Ancestor(rows, d, k).Some? ==> k < limit
  {
    if k >= limit {
      AncestorAdds(rows, d, limit, k - limit);
    }
  }

  // A process that is its own ancestor has ancestors without end.
  lemma {:induction false} CycleNeverEnds(rows: seq<ProcRow>, p: ProcRow, n: nat, k: nat)
    requires n > 0 && Ancestor(rows, p, n) == Some(p)
    ensures Ancestor(rows, p, k).Some?
    decreases k
  {
    if k < n {
      AncestorAdds(rows, p, k, n - k);
    } else {
      AncestorAdds(rows, p, n, k - n);
      CycleNeverEnds(rows, p, n, k - n);
    }
  }

  // The distance to an ancestor is determined.
  lemma {:induction false} OneDistance(rows: seq<ProcRow>, limit: nat, d: ProcRow, p: ProcRow, j: nat, k: nat)
    requires NoChain(rows, limit) && d in rows
    requires Ancestor(rows, d, j) == Some(p) && Ancestor(rows, d, k) == Some(p)
    ensures j == k
  {
    var lo, hi := if j <= k then j else k, if j <= k then k else j;
    AncestorAdds(rows, d, lo, hi - lo);
    AncestorStored(rows, d, j);
    if lo < hi {
      CycleNeverEnds(rows, p, hi - lo, limit);
    }
  }

  /* ---- Upwards ---- */

  lemma {:induction false} OneParentRow(rows: seq<ProcRow>, c: ProcRow)
    requires OneIncarnation(rows)
    requires forall p :: p in rows && c.ppid == Some(p.pid) ==> IsParentRow(p, c)
    ensures ParentRows(rows, c) == match ParentOf(rows, c) case None => [] case Some(p) => [p]
  {
    if rows != [] {
      var rest := rows[1..];
      forall x | x in rest ensures x.pid != rows[0].pid {
        var k :| 0 <= k < |rest| && rest[k] == x;
        assert rows[k + 1] == x;
      }
      OneParentRow(rest, c);
      assert IsParentRow(rows[0], c) <==> c.ppid == Some(rows[0].pid);
    }
  }

  function UpLevel(rows: seq<ProcRow>, d: ProcRow, k: nat): seq<ProcRow> {
    if k == 0 then [d] else ParentsOfLevel(rows, UpLevel(rows, d, k - 1))
  }

  lemma {:induction false} UpLevelIsAncestor(rows: seq<ProcRow>, d: ProcRow, k: nat)
    requires OneIncarnation(rows) && ParentsAlive(rows) && d in rows
    ensures UpLevel(rows, d, k) == match Ancestor(rows, d, k) case None => [] case Some(p) => [p]
  {
    if k > 0 {
      UpLevelIsAncestor(rows, d, k - 1);
      AncestorStored(rows, d, k - 1);
      if Ancestor(rows, d, k - 1).Some? {
        OnlyParent(rows, Ancestor(rows, d, k - 1).value);
      }
    }
  }

  lemma {:induction false} OnlyParent(rows: seq<ProcRow>, c: ProcRow)
    requires OneIncarnation(rows) && ParentsAlive(rows) && c in rows
    ensures ParentsOfLevel(rows, [c]) == match ParentOf(rows, c) case None => [] case Some(p) => [p]
  {
    OneParentRow(rows, c);
    assert [c][1..] == [];
    assert ParentsOfLevel(rows, [c]) == ParentRows(rows, c) + ParentsOfLevel(rows, []);
  }

  // p is an ancestor at a distance in this range.
  ghost predicate Within(rows: seq<ProcRow>, d: ProcRow, lo: nat, hops: nat, p: ProcRow) {
    exists j: nat :: lo <= j <= lo + hops && Ancestor(rows, d, j) == Some(p)
  }

  lemma {:induction false} WithinSplits(rows: seq<ProcRow>, d: ProcRow, lo: nat, hops: nat, p: ProcRow)
    requires hops > 0
    ensures Within(rows, d, lo, hops, p) <==>
            Ancestor(rows, d, lo) == Some(p) || Within(rows, d, lo + 1, hops - 1, p)
  {
    if j: nat :| lo <= j <= lo + hops && Ancestor(rows, d, j) == Some(p) {
      assert j == lo || lo + 1 <= j <= (lo + 1) + (hops - 1);
    }
  }

  lemma {:induction false} WithinNone(rows: seq<ProcRow>, d: ProcRow, lo: nat, p: ProcRow)
    ensures Within(rows, d, lo, 0, p) <==> Ancestor(rows, d, lo) == Some(p)
  {
  }

  lemma {:induction false} InUpLevel(rows: seq<ProcRow>, d: ProcRow, k: nat, p: ProcRow)
    requires OneIncarnation(rows) && ParentsAlive(rows) && d in rows
    ensures p in UpLevel(rows, d, k) <==> Ancestor(rows, d, k) == Some(p)
  {
    UpLevelIsAncestor(rows, d, k);
  }

  lemma {:induction false} InAncestryFrom(rows: seq<ProcRow>, level: seq<ProcRow>, hops: nat, p: ProcRow)
    ensures p in AncestryFrom(rows, level, hops) <==>
            p in level || (hops > 0 && p in AncestryFrom(rows, ParentsOfLevel(rows, level), hops - 1))
  {
  }

  lemma {:induction false} UpQueryLevels(rows: seq<ProcRow>, d: ProcRow, k: nat, hops: nat, p: ProcRow)
    requires OneIncarnation(rows) && ParentsAlive(rows) && d in rows
    ensures p in AncestryFrom(rows, UpLevel(rows, d, k), hops) <==> Within(rows, d, k, hops, p)
    decreases hops
  {
    InUpLevel(rows, d, k, p);
    InAncestryFrom(rows, UpLevel(rows, d, k), hops, p);
    if hops > 0 {
      UpQueryLevels(rows, d, k + 1, hops - 1, p);
      WithinSplits(rows, d, k, hops, p);
    } else {
      WithinNone(rows, d, k, p);
    }
  }

  ghost predicate Descends(rows: seq<ProcRow>, d: ProcRow, p: ProcRow) {
    exists k: nat :: Ancestor(rows, d, k) == Some(p)
  }

  /* ---- Downwards ---- */

  lemma {:induction false} InChildrenOfLevel(rows: seq<ProcRow>, level: seq<ProcRow>, d: ProcRow)
    ensures d in ChildrenOfLevel(rows, level) <==>
            d in rows && exists q :: q in level && d.ppid == Some(q.pid)
  {
    if level != [] {
      InChildrenOfLevel(rows, level[1..], d);
      assert forall q :: q in level <==> q == level[0] || q in level[1..];
    }
  }

  lemma {:induction false} ParentIsStored(rows: seq<ProcRow>, q: ProcRow, d: ProcRow)
    requires OneIncarnation(rows) && q in rows
    ensures ParentOf(rows, d) == Some(q) <==> d.ppid == Some(q.pid)
  {
    if d.ppid == Some(q.pid) {
      SameRow(rows, q, ByPid(rows, q.pid).value);
    }
  }

  lemma {:induction false} FirstHop(rows: seq<ProcRow>, d: ProcRow, k: nat)
    requires k > 0
    ensures Ancestor(rows, d, k) ==
            match ParentOf(rows, d) case None => None case Some(q) => Ancestor(rows, q, k - 1)
  {
    AncestorAdds(rows, d, 1, k - 1);
    assert Ancestor(rows, d, 0) == Some(d);
    assert Ancestor(rows, d, 1) == ParentOf(rows, d);
  }

  // The level holds exactly the rows at this distance below p.
  ghost predicate IsLevel(rows: seq<ProcRow>, p: ProcRow, k: nat, level: seq<ProcRow>) {
    forall x {:trigger x in level} :: x in level <==> x in rows && Ancestor(rows, x, k) == Some(p)
  }

  lemma {:induction false} NextLevel(rows: seq<ProcRow>, p: ProcRow, k: nat, level: seq<ProcRow>)
    requires OneIncarnation(rows) && IsLevel(rows, p, k, level)
    ensures IsLevel(rows, p, k + 1, ChildrenOfLevel(rows, level))
  {
    var next := ChildrenOfLevel(rows, level);
    forall d ensures d in next <==> d in rows && Ancestor(rows, d, k + 1) == Some(p) {
      FirstHop(rows, d, k + 1);
      InChildrenOfLevel(rows, level, d);
      forall q | q in rows ensures ParentOf(rows, d) == Some(q) <==> d.ppid == Some(q.pid) {
        ParentIsStored(rows, q, d);
      }
      if ParentOf(rows, d).Some? {
        assert ParentOf(rows, d).value in rows;
      }
    }
  }

  lemma {:induction false} DescentUnrolls(rows: seq<ProcRow>, level: seq<ProcRow>, hops: nat, d: ProcRow)
    ensures d in DescendantsFrom(rows, level, hops) <==>
            d in level || (hops > 0 && d in DescendantsFrom(rows, ChildrenOfLevel(rows, level), hops - 1))
  {
  }

  lemma {:induction false} DownQueryLevels(rows: seq<ProcRow>, p: ProcRow, k: nat, level: seq<ProcRow>, hops: nat,
                                           d: ProcRow)
    requires OneIncarnation(rows) && IsLevel(rows, p, k, level)
    ensures d in DescendantsFrom(rows, level, hops) <==> d in rows && Within(rows, d, k, hops, p)
    decreases hops
  {
    DescentUnrolls(rows, level, hops, d);
    if hops == 0 {
      assert Within(rows, d, k, 0, p) <==> Ancestor(rows, d, k) == Some(p);
    } else {
      NextLevel(rows, p, k, level);
      DownQueryLevels(rows, p, k + 1, ChildrenOfLevel(rows, level), hops - 1, d);
      WithinSplits(rows, d, k, hops, p);
    }
  }

  lemma {:induction false} FirstLevel(rows: seq<ProcRow>, p: ProcRow)
    requires p in rows
    ensures IsLevel(rows, p, 0, [p])
  {
    forall x ensures x in [p] <==> x in rows && Ancestor(rows, x, 0) == Some(p) {
    }
  }

  /* ---- The agreement ---- */

  lemma {:induction false} KeyRow(rows: seq<ProcRow>, r: ProcRow)
    requires OneIncarnation(rows) && r in rows
    ensures WithKey(rows, r.pid, r.startTs) == [r]
  {
    var rest := rows[1..];
    forall x | x in rest ensures x.pid != rows[0].pid {
      var k :| 0 <= k < |rest| && rest[k] == x;
      assert rows[k + 1] == x;
    }
    if rows[0] == r {
      NoKeyRow(rest, r);
    } else {
      KeyRow(rest, r);
    }
  }

  lemma {:induction false} NoKeyRow(rows: seq<ProcRow>, r: ProcRow)
    requires forall x :: x in rows ==> x.pid != r.pid
    ensures WithKey(rows, r.pid, r.startTs) == []
  {
    if rows != [] {
      assert rows[0] in rows;
      NoKeyRow(rows[1..], r);
    }
  }

  lemma {:induction false} AncestryIsDescent(rows: seq<ProcRow>, hops: nat, d: ProcRow, p: ProcRow)
    requires Family(rows, hops + 1) && d in rows
    ensures p in AncestryFrom(rows, WithKey(rows, d.pid, d.startTs), hops) <==> Descends(rows, d, p)
  {
    KeyRow(rows, d);
    assert UpLevel(rows, d, 0) == [d];
    UpQueryLevels(rows, d, 0, hops, p);
    if j: nat :| Ancestor(rows, d, j) == Some(p) {
      HopsAreFew(rows, hops + 1, d, j);
      assert Within(rows, d, 0, hops, p);
    }
  }

  lemma {:induction false} DescendantsDescend(rows: seq<ProcRow>, limit: nat, hops: nat, p: ProcRow, d: ProcRow)
    requires Family(rows, limit) && limit <= hops + 1 && p in rows
    ensures d in DescendantsFrom(rows, WithKey(rows, p.pid, p.startTs), hops) <==> d in rows && Descends(rows, d, p)
  {
    KeyRow(rows, p);
    FirstLevel(rows, p);
    DownQueryLevels(rows, p, 0, [p], hops, d);
    if d in rows {
      if j: nat :| Ancestor(rows, d, j) == Some(p) {
        HopsAreFew(rows, limit, d, j);
        assert Within(rows, d, 0, hops, p);
      }
    }
  }
}
