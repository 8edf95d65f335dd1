/** What the two recursive queries return over any tables, row by row. */
module Lineages {
  import opened Wrappers
  import opened Clock
  import opened Graph
  import opened Queries
  import opened Climbs
  import Kinship

  // A line of stored rows, each next one holding the pid the one before names as its
  // parent.
  ghost predicate ByPid(rows: seq<ProcRow>, line: seq<ProcRow>) {
    && (forall i :: 0 <= i < |line| ==> line[i] in rows)
    && (forall i :: 0 <= i < |line| - 1 ==> line[i].ppid == Some(line[i + 1].pid))
  }

  // And alive when the one before was born.
  ghost predicate AliveAtBirth(line: seq<ProcRow>) {
    forall i :: 0 <= i < |line| - 1 ==>
      && line[i + 1].startTs <= line[i].startTs
      && (line[i + 1].exitTs == None || line[i + 1].exitTs.value >= line[i].startTs)
  }

  ghost predicate Joins(rows: seq<ProcRow>, d: ProcRow, p: ProcRow, k: nat, windowed: bool, line: seq<ProcRow>) {
    |line| == k + 1 && line[0] == d && line[k] == p && ByPid(rows, line) && (windowed ==> AliveAtBirth(line))
  }

  lemma {:induction false} LongerLine(rows: seq<ProcRow>, d: ProcRow, q: ProcRow, p: ProcRow, k: nat, windowed: bool,
                                      rest: seq<ProcRow>)
    requires d in rows && Hop(q, d, windowed) && Joins(rows, q, p, k, windowed, rest)
    ensures Joins(rows, d, p, k + 1, windowed, [d] + rest)
  {
    var line := [d] + rest;
    forall i | 0 <= i < |line| ensures line[i] in rows {
      assert i > 0 ==> line[i] == rest[i - 1];
    }
    forall i | 0 <= i < |line| - 1 ensures Hop(line[i + 1], line[i], windowed) {
      assert i > 0 ==> Hop(rest[i], rest[i - 1], windowed);
    }
  }

  lemma {:induction false} ShorterLine(rows: seq<ProcRow>, d: ProcRow, p: ProcRow, k: nat, windowed: bool,
                                       line: seq<ProcRow>)
    requires k > 0 && Joins(rows, d, p, k, windowed, line)
    ensures line[1] in rows && Hop(line[1], d, windowed) && Joins(rows, line[1], p, k - 1, windowed, line[1..])
  {
  }

  lemma {:induction false} ClimbIsLine(rows: seq<ProcRow>, d: ProcRow, p: ProcRow, k: nat, windowed: bool)
    requires d in rows
    ensures Climb(rows, d, p, k, windowed) <==> exists line :: Joins(rows, d, p, k, windowed, line)
    decreases k
  {
    if k == 0 {
      assert d == p ==> Joins(rows, d, p, 0, windowed, [d]);
    } else {
      if Climb(rows, d, p, k, windowed) {
        var q :| q in rows && Hop(q, d, windowed) && Climb(rows, q, p, k - 1, windowed);
        ClimbIsLine(rows, q, p, k - 1, windowed);
        var rest :| Joins(rows, q, p, k - 1, windowed, rest);
        LongerLine(rows, d, q, p, k - 1, windowed, rest);
      }
      forall line | Joins(rows, d, p, k, windowed, line) ensures Climb(rows, d, p, k, windowed) {
        ShorterLine(rows, d, p, k, windowed, line);
        ClimbIsLine(rows, line[1], p, k - 1, windowed);
      }
    }
  }

  ghost predicate LeadsUp(rows: seq<ProcRow>, line: seq<ProcRow>, pid: int, start: Stamp, hops: nat,
                          p: ProcRow) {
    && 0 < |line| <= hops + 1 && ByPid(rows, line) && AliveAtBirth(line)
    && line[0].pid == pid && line[0].startTs == start && line[|line| - 1] == p
  }

  ghost predicate LeadsDown(rows: seq<ProcRow>, line: seq<ProcRow>, pid: int, start: Stamp, hops: nat,
                            d: ProcRow) {
    && 0 < |line| <= hops + 1 && ByPid(rows, line)
    && line[0] == d && line[|line| - 1].pid == pid && line[|line| - 1].startTs == start
  }

  lemma {:induction false} LineWithin(rows: seq<ProcRow>, d: ProcRow, p: ProcRow, hops: nat, windowed: bool)
    requires d in rows
    ensures WithinHops(rows, d, p, hops, windowed) <==>
            exists k: nat, line :: k <= hops && Joins(rows, d, p, k, windowed, line)
  {
    if k: nat :| k <= hops && Climb(rows, d, p, k, windowed) {
      ClimbIsLine(rows, d, p, k, windowed);
      var line :| Joins(rows, d, p, k, windowed, line);
      assert k <= hops && Joins(rows, d, p, k, windowed, line);
    }
    forall k: nat, line | k <= hops && Joins(rows, d, p, k, windowed, line)
      ensures WithinHops(rows, d, p, hops, windowed)
    {
      ClimbIsLine(rows, d, p, k, windowed);
    }
  }

  lemma {:induction false} AncestryHasLine(rows: seq<ProcRow>, pid: int, start: Stamp, hops: nat, p: ProcRow)
    requires p in AncestryFrom(rows, WithKey(rows, pid, start), hops)
    ensures exists line :: LeadsUp(rows, line, pid, start, hops, p)
  {
    var own := WithKey(rows, pid, start);
    UpQueryReaches(rows, own, hops, p);
    var d :| d in own && WithinHops(rows, d, p, hops, true);
    LineWithin(rows, d, p, hops, true);
    var k: nat, line :| k <= hops && Joins(rows, d, p, k, true, line);
    assert LeadsUp(rows, line, pid, start, hops, p);
  }

  lemma {:induction false} LineIsInAncestry(rows: seq<ProcRow>, pid: int, start: Stamp, hops: nat, p: ProcRow,
                                            line: seq<ProcRow>)
    requires LeadsUp(rows, line, pid, start, hops, p)
    ensures p in AncestryFrom(rows, WithKey(rows, pid, start), hops)
  {
    UpQueryReaches(rows, WithKey(rows, pid, start), hops, p);
    assert Joins(rows, line[0], p, |line| - 1, true, line);
    LineWithin(rows, line[0], p, hops, true);
  }

  lemma {:induction false} AncestryLines(rows: seq<ProcRow>, pid: int, start: Stamp, hops: nat, p: ProcRow)
    ensures p in AncestryFrom(rows, WithKey(rows, pid, start), hops) <==>
            exists line :: LeadsUp(rows, line, pid, start, hops, p)
  {
    if p in AncestryFrom(rows, WithKey(rows, pid, start), hops) {
      AncestryHasLine(rows, pid, start, hops, p);
    }
    if line :| LeadsUp(rows, line, pid, start, hops, p) {
      LineIsInAncestry(rows, pid, start, hops, p, line);
    }
  }

  /** The upward query returns just the rows at the end of a line of at most 64 hops from
   *  the row asked for, in which every next row is stored, is the one before's parent by
   *  pid, and was alive when that one was born.
   */
  lemma {:induction false} AncestryIsLines(rows: seq<ProcRow>, pid: int, start: Stamp, p: ProcRow)
    ensures p in Ancestry(rows, pid, start) <==> exists line :: LeadsUp(rows, line, pid, start, 64, p)
  {
    AncestryLines(rows, pid, start, ANCESTRY_DEPTH, p);
  }

  lemma {:induction false} ReachedBelow(rows: seq<ProcRow>, pid: int, start: Stamp, d: ProcRow, hops: nat)
    ensures d in DescendantsFrom(rows, WithKey(rows, pid, start), hops) <==>
            d in rows && exists p :: p in rows && HasKey(p, pid, start) && WithinHops(rows, d, p, hops, false)
  {
    var own := WithKey(rows, pid, start);
    if d in rows {
      DownQueryReaches(rows, own, hops, d);
    } else {
      DescendantsAreStored(rows, own, hops, d);
    }
  }

  lemma {:induction false} DescentLines(rows: seq<ProcRow>, pid: int, start: Stamp, hops: nat, d: ProcRow)
    ensures d in DescendantsFrom(rows, WithKey(rows, pid, start), hops) <==>
            exists line :: LeadsDown(rows, line, pid, start, hops, d)
  {
    ReachedBelow(rows, pid, start, d, hops);
    if p :| d in rows && p in rows && HasKey(p, pid, start) && WithinHops(rows, d, p, hops, false) {
      LineWithin(rows, d, p, hops, false);
      var k: nat, line :| k <= hops && Joins(rows, d, p, k, false, line);
      assert LeadsDown(rows, line, pid, start, hops, d);
    }
    forall line | LeadsDown(rows, line, pid, start, hops, d)
      ensures d in rows && exists p :: p in rows && HasKey(p, pid, start) && WithinHops(rows, d, p, hops, false)
    {
      var p := line[|line| - 1];
      assert Joins(rows, d, p, |line| - 1, false, line);
      LineWithin(rows, d, p, hops, false);
      assert p in rows && HasKey(p, pid, start);
    }
  }

  /** The downward query returns just the stored rows from which a line of at most 256
   *  hops leads up to the row asked for, by pids alone.
   */
  lemma {:induction false} DescendantsAreLines(rows: seq<ProcRow>, pid: int, start: Stamp, d: ProcRow)
    ensures d in Descendants(rows, pid, start) <==> exists line :: LeadsDown(rows, line, pid, start, 256, d)
  {
    DescentLines(rows, pid, start, DESCENT_DEPTH, d);
  }

  lemma {:induction false} DescendantsAreStored(rows: seq<ProcRow>, level: seq<ProcRow>, hops: nat, d: ProcRow)
    requires forall x :: x in level ==> x in rows
    ensures d in DescendantsFrom(rows, level, hops) ==> d in rows
    decreases hops
  {
    var next := ChildrenOfLevel(rows, level);
    forall c | c in next ensures c in rows {
      Kinship.InChildrenOfLevel(rows, level, c);
    }
    if hops > 0 {
      DescendantsAreStored(rows, next, hops - 1, d);
    }
  }
}
