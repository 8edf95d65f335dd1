/** When the upward and the downward query agree, recycled pids included.
 *
 *  Upwards a parent must have been alive at the child's birth; downwards any row
 *  with the parent's pid will do.
 */
module Climbs {
  import opened Wrappers
  import opened Graph
  import opened Queries
  import opened Kinship

  // One hop, with the upward query's time window or without.
  predicate Hop(p: ProcRow, c: ProcRow, windowed: bool) {
    if windowed then IsParentRow(p, c) else c.ppid == Some(p.pid)
  }

  // p is so many hops above d.
  ghost predicate Climb(rows: seq<ProcRow>, d: ProcRow, p: ProcRow, k: nat, windowed: bool)
    decreases k
  {
    if k == 0 then d == p
    else exists q :: q in rows && Hop(q, d, windowed) && Climb(rows, q, p, k - 1, windowed)
  }

  lemma {:induction false} ClimbOn(rows: seq<ProcRow>, d: ProcRow, q: ProcRow, p: ProcRow, j: nat, k: nat,
                                   windowed: bool)
    requires Climb(rows, d, q, j, windowed) && Climb(rows, q, p, k, windowed)
    ensures Climb(rows, d, p, j + k, windowed)
    decreases j
  {
    if j > 0 {
      var x :| x in rows && Hop(x, d, windowed) && Climb(rows, x, q, j - 1, windowed);
      ClimbOn(rows, x, q, p, j - 1, k, windowed);
    }
  }

  lemma {:induction false} OneHop(rows: seq<ProcRow>, d: ProcRow, p: ProcRow, windowed: bool)
    requires p in rows
    ensures Climb(rows, d, p, 1, windowed) <==> Hop(p, d, windowed)
  {
    assert Climb(rows, p, p, 0, windowed);
    if Climb(rows, d, p, 1, windowed) {
      var x :| x in rows && Hop(x, d, windowed) && Climb(rows, x, p, 0, windowed);
    }
  }

  // The hop that reaches p.
  lemma {:induction false} TopHop(rows: seq<ProcRow>, d: ProcRow, p: ProcRow, k: nat, windowed: bool)
    returns (c: ProcRow)
    requires d in rows && k > 0 && Climb(rows, d, p, k, windowed)
    ensures c in rows && p in rows && Hop(p, c, windowed) && Climb(rows, d, c, k - 1, windowed)
    decreases k
  {
    var x :| x in rows && Hop(x, d, windowed) && Climb(rows, x, p, k - 1, windowed);
    if k == 1 {
      c := d;
    } else {
      c := TopHop(rows, x, p, k - 1, windowed);
    }
  }

  lemma {:induction false} WindowedClimbs(rows: seq<ProcRow>, d: ProcRow, p: ProcRow, k: nat)
    requires Climb(rows, d, p, k, true)
    ensures Climb(rows, d, p, k, false)
    decreases k
  {
    if k > 0 {
      var x :| x in rows && Hop(x, d, true) && Climb(rows, x, p, k - 1, true);
      WindowedClimbs(rows, x, p, k - 1);
      assert Hop(x, d, false);
    }
  }

  /* ---- What the queries reach ---- */

  ghost predicate WithinHops(rows: seq<ProcRow>, d: ProcRow, p: ProcRow, hops: nat, windowed: bool) {
    exists k: nat :: k <= hops && Climb(rows, d, p, k, windowed)
  }

  lemma {:induction false} HereOrAbove(rows: seq<ProcRow>, d: ProcRow, p: ProcRow, hops: nat, windowed: bool)
    ensures WithinHops(rows, d, p, hops, windowed) <==>
            d == p || (hops > 0 && exists q :: q in rows && Hop(q, d, windowed)
                                               && WithinHops(rows, q, p, hops - 1, windowed))
  {
    if d == p {
      assert Climb(rows, d, p, 0, windowed);
    }
    if k: nat :| k <= hops && Climb(rows, d, p, k, windowed) {
      if k > 0 {
        var q :| q in rows && Hop(q, d, windowed) && Climb(rows, q, p, k - 1, windowed);
        assert WithinHops(rows, q, p, hops - 1, windowed);
      }
    }
    if hops > 0 {
      forall q | q in rows && Hop(q, d, windowed) && WithinHops(rows, q, p, hops - 1, windowed)
        ensures WithinHops(rows, d, p, hops, windowed)
      {
        var k: nat :| k <= hops - 1 && Climb(rows, q, p, k, windowed);
        assert Climb(rows, d, p, k + 1, windowed);
      }
    }
  }

  lemma {:induction false} InParentsOfLevel(rows: seq<ProcRow>, level: seq<ProcRow>, q: ProcRow)
    ensures q in ParentsOfLevel(rows, level) <==> q in rows && exists d :: d in level && IsParentRow(q, d)
  {
    if level != [] {
      InParentsOfLevel(rows, level[1..], q);
      assert q in ParentsOfLevel(rows, level) <==>
             (q in rows && IsParentRow(q, level[0])) || q in ParentsOfLevel(rows, level[1..]);
      assert forall d :: d in level <==> d == level[0] || d in level[1..];
    }
  }

  lemma {:induction false} UpQueryReaches(rows: seq<ProcRow>, level: seq<ProcRow>, hops: nat, p: ProcRow)
    ensures p in AncestryFrom(rows, level, hops) <==> exists d :: d in level && WithinHops(rows, d, p, hops, true)
    decreases hops
  {
    InAncestryFrom(rows, level, hops, p);
    forall d ensures WithinHops(rows, d, p, hops, true) <==>
                     d == p ||
                      (hops > 0 && exists q :: q in rows && Hop(q, d, true) && WithinHops(rows, q, p, hops - 1, true)) {
      HereOrAbove(rows, d, p, hops, true);
    }
    if hops > 0 {
      UpQueryReaches(rows, ParentsOfLevel(rows, level), hops - 1, p);
      forall q ensures q in ParentsOfLevel(rows, level) <==> q in rows && exists d :: d in level && Hop(q, d, true) {
        InParentsOfLevel(rows, level, q);
      }
    }
  }

  // The same from the other end.
  lemma {:induction false} HereOrBelow(rows: seq<ProcRow>, d: ProcRow, p: ProcRow, hops: nat)
    requires d in rows && p in rows
    ensures WithinHops(rows, d, p, hops, false) <==>
            d == p || (hops > 0 && exists c :: c in rows && c.ppid == Some(p.pid)
                                               && WithinHops(rows, d, c, hops - 1, false))
  {
    if d == p {
      assert Climb(rows, d, p, 0, false);
    }
    if k: nat :| k <= hops && Climb(rows, d, p, k, false) {
      if k > 0 {
        var c := TopHop(rows, d, p, k, false);
        assert WithinHops(rows, d, c, hops - 1, false);
      }
    }
    if hops > 0 {
      forall c | c in rows && c.ppid == Some(p.pid) && WithinHops(rows, d, c, hops - 1, false)
        ensures WithinHops(rows, d, p, hops, false)
      {
        var k: nat :| k <= hops - 1 && Climb(rows, d, c, k, false);
        OneHop(rows, c, p, false);
        ClimbOn(rows, d, c, p, k, 1, false);
      }
    }
  }

  lemma {:induction false} DownQueryReaches(rows: seq<ProcRow>, level: seq<ProcRow>, hops: nat, d: ProcRow)
    requires d in rows && forall x :: x in level ==> x in rows
    ensures d in DescendantsFrom(rows, level, hops) <==> exists p :: p in level && WithinHops(rows, d, p, hops, false)
    decreases hops
  {
    var next := ChildrenOfLevel(rows, level);
    DescentUnrolls(rows, level, hops, d);
    forall p | p in level
      ensures WithinHops(rows, d, p, hops, false) <==>
              d == p ||
              (hops > 0 && exists c :: c in rows && c.ppid == Some(p.pid) && WithinHops(rows, d, c, hops - 1, false))
    {
      HereOrBelow(rows, d, p, hops);
    }
    if hops > 0 {
      forall c ensures c in next <==> c in rows && exists p :: p in level && c.ppid == Some(p.pid) {
        InChildrenOfLevel(rows, level, c);
      }
      DownQueryReaches(rows, next, hops - 1, d);
    }
  }

  lemma {:induction false} UniqueKeyRow(rows: seq<ProcRow>, r: ProcRow)
    requires UniqueKeys(rows) && r in rows
    ensures forall x :: x in WithKey(rows, r.pid, r.startTs) <==> x == r
  {
    forall x | x in WithKey(rows, r.pid, r.startTs) ensures x == r {
      MemberIsFound(rows, x);
      MemberIsFound(rows, r);
    }
  }

  // What the two queries return for these rows, over so many hops.
  predicate FoundAbove(rows: seq<ProcRow>, d: ProcRow, p: ProcRow, hops: nat) {
    p in AncestryFrom(rows, WithKey(rows, d.pid, d.startTs), hops)
  }

  predicate FoundBelow(rows: seq<ProcRow>, p: ProcRow, d: ProcRow, hops: nat) {
    d in DescendantsFrom(rows, WithKey(rows, p.pid, p.startTs), hops)
  }

  lemma {:induction false} AboveIsWithin(rows: seq<ProcRow>, d: ProcRow, p: ProcRow, hops: nat)
    requires UniqueKeys(rows) && d in rows
    ensures FoundAbove(rows, d, p, hops) <==> WithinHops(rows, d, p, hops, true)
  {
    UniqueKeyRow(rows, d);
    UpQueryReaches(rows, WithKey(rows, d.pid, d.startTs), hops, p);
  }

  lemma {:induction false} BelowIsWithin(rows: seq<ProcRow>, d: ProcRow, p: ProcRow, hops: nat)
    requires UniqueKeys(rows) && d in rows && p in rows
    ensures FoundBelow(rows, p, d, hops) <==> WithinHops(rows, d, p, hops, false)
  {
    UniqueKeyRow(rows, p);
    DownQueryReaches(rows, WithKey(rows, p.pid, p.startTs), hops, d);
  }

  /* ---- The agreement ---- */

  lemma {:induction false} AboveImpliesBelow(rows: seq<ProcRow>, p: ProcRow, d: ProcRow, up: nat, down: nat)
    requires UniqueKeys(rows) && p in rows && d in rows && up <= down
    ensures FoundAbove(rows, d, p, up) ==> FoundBelow(rows, p, d, down)
  {
    AboveIsWithin(rows, d, p, up);
    BelowIsWithin(rows, d, p, down);
    if k: nat :| k <= up && Climb(rows, d, p, k, true) {
      WindowedClimbs(rows, d, p, k);
    }
  }

  // No row is more than so many hops below another.
  ghost predicate Shallow(rows: seq<ProcRow>, hops: nat) {
    forall d, p, k: nat :: d in rows && Climb(rows, d, p, k, false) ==> k <= hops
  }

  // Wherever a row names a pid, each stored incarnation of it is found above the row.
  ghost predicate ParentsFound(rows: seq<ProcRow>, up: nat) {
    forall p, c :: p in rows && c in rows && c.ppid == Some(p.pid) ==> FoundAbove(rows, c, p, up)
  }

  ghost predicate QueriesAgree(rows: seq<ProcRow>, up: nat, down: nat) {
    forall p, d :: p in rows && d in rows ==> (FoundBelow(rows, p, d, down) <==> FoundAbove(rows, d, p, up))
  }

  // The same in terms of hops.
  ghost predicate HopsFound(rows: seq<ProcRow>, up: nat) {
    forall p, c {:trigger HopFound(rows, p, c, up)} :: p in rows && c in rows ==> HopFound(rows, p, c, up)
  }

  ghost predicate HopFound(rows: seq<ProcRow>, p: ProcRow, c: ProcRow, up: nat) {
    Hop(p, c, false) ==> WithinHops(rows, c, p, up, true)
  }

  lemma {:induction false} FoundMeansHops(rows: seq<ProcRow>, up: nat)
    requires UniqueKeys(rows) && ParentsFound(rows, up)
    ensures HopsFound(rows, up)
  {
    forall p, c | p in rows && c in rows ensures HopFound(rows, p, c, up) {
      if Hop(p, c, false) {
        assert FoundAbove(rows, c, p, up);
        AboveIsWithin(rows, c, p, up);
      }
    }
  }

  lemma {:induction false} FirstHopFound(rows: seq<ProcRow>, up: nat, d: ProcRow, p: ProcRow, k: nat)
    returns (x: ProcRow, i: nat)
    requires HopsFound(rows, up) && d in rows && Climb(rows, d, p, k, false) && k > 0
    ensures x in rows && Climb(rows, d, x, i, true) && Climb(rows, x, p, k - 1, false)
  {
    x :| x in rows && Hop(x, d, false) && Climb(rows, x, p, k - 1, false);
    assert HopFound(rows, x, d, up);
    i :| i <= up && Climb(rows, d, x, i, true);
  }

  // With every parent found, a climb without windows is one with them.
  lemma {:induction false} FoundClimbs(rows: seq<ProcRow>, up: nat, d: ProcRow, p: ProcRow, k: nat) returns (j: nat)
    requires HopsFound(rows, up) && d in rows && Climb(rows, d, p, k, false)
    ensures Climb(rows, d, p, j, true)
    decreases k
  {
    if k == 0 {
      j := 0;
    } else {
      var x, i := FirstHopFound(rows, up, d, p, k);
      var rest := FoundClimbs(rows, up, x, p, k - 1);
      j := JoinClimbs(rows, d, x, p, i, rest);
    }
  }

  lemma {:induction false} JoinClimbs(rows: seq<ProcRow>, d: ProcRow, x: ProcRow, p: ProcRow, i: nat, k: nat)
    returns (j: nat)
    requires Climb(rows, d, x, i, true) && Climb(rows, x, p, k, true)
    ensures Climb(rows, d, p, j, true)
  {
    ClimbOn(rows, d, x, p, i, k, true);
    j := i + k;
  }

  lemma {:induction false} BelowImpliesAbove(rows: seq<ProcRow>, p: ProcRow, d: ProcRow, up: nat, down: nat)
    requires UniqueKeys(rows) && Shallow(rows, up) && ParentsFound(rows, up) && p in rows && d in rows
    ensures FoundBelow(rows, p, d, down) ==> FoundAbove(rows, d, p, up)
  {
    FoundMeansHops(rows, up);
    AboveIsWithin(rows, d, p, up);
    BelowIsWithin(rows, d, p, down);
    if k: nat :| k <= down && Climb(rows, d, p, k, false) {
      var j := FoundClimbs(rows, up, d, p, k);
      WindowedClimbs(rows, d, p, j);
    }
  }

  lemma {:induction false} ChildIsBelow(rows: seq<ProcRow>, p: ProcRow, c: ProcRow, down: nat)
    requires UniqueKeys(rows) && p in rows && c in rows && c.ppid == Some(p.pid) && down > 0
    ensures FoundBelow(rows, p, c, down)
  {
    OneHop(rows, c, p, false);
    BelowIsWithin(rows, c, p, down);
  }

  lemma {:induction false} AgreeWhenFound(rows: seq<ProcRow>, up: nat, down: nat)
    requires UniqueKeys(rows) && Shallow(rows, up) && 0 < up <= down
    ensures QueriesAgree(rows, up, down) <==> ParentsFound(rows, up)
  {
    if ParentsFound(rows, up) {
      forall p, d | p in rows && d in rows ensures FoundBelow(rows, p, d, down) <==> FoundAbove(rows, d, p, up) {
        AboveImpliesBelow(rows, p, d, up, down);
        BelowImpliesAbove(rows, p, d, up, down);
      }
    }
    if QueriesAgree(rows, up, down) {
      forall p, c | p in rows && c in rows && c.ppid == Some(p.pid) ensures FoundAbove(rows, c, p, up) {
        ChildIsBelow(rows, p, c, down);
      }
    }
  }

  lemma {:induction false} AliveMeansFound(rows: seq<ProcRow>, up: nat)
    requires UniqueKeys(rows) && ParentsAlive(rows) && up > 0
    ensures ParentsFound(rows, up)
  {
    forall p, c | p in rows && c in rows && c.ppid == Some(p.pid) ensures FoundAbove(rows, c, p, up) {
      OneHop(rows, c, p, true);
      AboveIsWithin(rows, c, p, up);
    }
  }

  /** Whoever the upward query finds above a process has it below: always. */
  lemma {:induction false} UpImpliesDown(rows: seq<ProcRow>, p: ProcRow, d: ProcRow)
    requires UniqueKeys(rows) && p in rows && d in rows
    ensures p in Ancestry(rows, d.pid, d.startTs) ==> d in Descendants(rows, p.pid, p.startTs)
  {
    AboveImpliesBelow(rows, p, d, ANCESTRY_DEPTH, DESCENT_DEPTH);
  }

  /** Over tables no deeper than the upward query climbs, the two are each other's
   *  inverse exactly when every row that names a pid finds each stored incarnation of
   *  it above itself.
   */
  lemma {:induction false} AgreeExactlyWhenParentsFound(rows: seq<ProcRow>)
    requires UniqueKeys(rows) && Shallow(rows, ANCESTRY_DEPTH)
    ensures QueriesAgree(rows, ANCESTRY_DEPTH, DESCENT_DEPTH) <==> ParentsFound(rows, ANCESTRY_DEPTH)
  {
    AgreeWhenFound(rows, ANCESTRY_DEPTH, DESCENT_DEPTH);
  }

  /** So they agree wherever each stored parent was alive at each birth, recycled pids
   *  or not.
   */
  lemma {:induction false} UpAndDownAgree(rows: seq<ProcRow>, p: ProcRow, d: ProcRow)
    requires UniqueKeys(rows) && ParentsAlive(rows) && Shallow(rows, ANCESTRY_DEPTH)
    requires p in rows && d in rows
    ensures d in Descendants(rows, p.pid, p.startTs) <==> p in Ancestry(rows, d.pid, d.startTs)
  {
    AliveMeansFound(rows, ANCESTRY_DEPTH);
    AgreeExactlyWhenParentsFound(rows);
    assert FoundBelow(rows, p, d, DESCENT_DEPTH) <==> FoundAbove(rows, d, p, ANCESTRY_DEPTH);
  }

  // One incarnation a pid and no chain of that many hops make a table shallow.
  lemma {:induction false} FamilyIsShallow(rows: seq<ProcRow>, hops: nat)
    requires Family(rows, hops + 1)
    ensures UniqueKeys(rows) && Shallow(rows, hops)
  {
    forall d, p, k: nat | d in rows && Climb(rows, d, p, k, false) ensures k <= hops {
      ClimbIsAncestor(rows, d, p, k);
      HopsAreFew(rows, hops + 1, d, k);
    }
  }

  lemma {:induction false} ClimbIsAncestor(rows: seq<ProcRow>, d: ProcRow, p: ProcRow, k: nat)
    requires OneIncarnation(rows) && d in rows && Climb(rows, d, p, k, false)
    ensures Ancestor(rows, d, k) == Some(p)
    decreases k
  {
    if k > 0 {
      var x :| x in rows && Hop(x, d, false) && Climb(rows, x, p, k - 1, false);
      ClimbIsAncestor(rows, x, p, k - 1);
      ParentIsStored(rows, x, d);
      FirstHop(rows, d, k);
    }
  }

  /* ---- A recycled pid ---- */

  function Recycled(info: ProcTrees.ProcInfo): seq<ProcRow> {
    [ProcRow(7, 1, None, info, Some(2)), ProcRow(7, 5, None, info, None), ProcRow(9, 6, Some(7), info, None)]
  }

  lemma {:induction false} NothingAbove(rows: seq<ProcRow>, d: ProcRow, p: ProcRow, k: nat, windowed: bool)
    requires d.ppid == None
    ensures Climb(rows, d, p, k, windowed) ==> k == 0
  {
  }

  lemma {:induction false} RecycledIsShallow(info: ProcTrees.ProcInfo)
    ensures Shallow(Recycled(info), 1)
  {
    var rows := Recycled(info);
    forall d, p, k: nat | d in rows && Climb(rows, d, p, k, false) ensures k <= 1 {
      if k > 0 {
        var x :| x in rows && Hop(x, d, false) && Climb(rows, x, p, k - 1, false);
        NothingAbove(rows, x, p, k - 1, false);
      }
    }
  }

  lemma {:induction false} FirstIsNotAbove(info: ProcTrees.ProcInfo, hops: nat)
    ensures var rows := Recycled(info); !WithinHops(rows, rows[2], rows[0], hops, true)
  {
    var rows := Recycled(info);
    if k: nat :| k <= hops && Climb(rows, rows[2], rows[0], k, true) {
      var x :| x in rows && Hop(x, rows[2], true) && Climb(rows, x, rows[0], k - 1, true);
      NothingAbove(rows, x, rows[0], k - 1, true);
    }
  }

  /** A child of the second incarnation is listed below the first, which is not above it. */
  lemma {:induction false} RecycledPidDividesThem(info: ProcTrees.ProcInfo, up: nat, down: nat)
    requires down > 0
    ensures var rows := Recycled(info);
            && UniqueKeys(rows) && Shallow(rows, 1)
            && FoundBelow(rows, rows[0], rows[2], down) && !FoundAbove(rows, rows[2], rows[0], up)
  {
    var rows := Recycled(info);
    assert rows[0] in rows && rows[2] in rows;
    RecycledIsShallow(info);
    ChildIsBelow(rows, rows[0], rows[2], down);
    AboveIsWithin(rows, rows[2], rows[0], up);
    FirstIsNotAbove(info, up);
  }
}
