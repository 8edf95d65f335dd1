/** Eviction bounds the dead entries of the process tree. */
module MemoryBound {
  import opened Wrappers
  import opened Clock
  import opened ProcTrees
  import opened LazyStore

  function Dead(t: Procs): set<int> {
    set p | p in t && t[p].exited.Some?
  }

  ghost predicate Monotone(run: Run) {
    forall i, j :: 0 <= i <= j < |run| ==> run[i].0 <= run[j].0
  }

  /* ---- Counting exits ---- */

  predicate IsExitIn(step: (Stamp, Action), lo: Stamp, hi: Stamp) {
    step.1.Exit? && lo <= step.0 <= hi
  }

  function ExitsIn(run: Run, lo: Stamp, hi: Stamp): nat {
    if run == [] then 0
    else
      var n := |run| - 1;
      ExitsIn(run[..n], lo, hi) + if IsExitIn(run[n], lo, hi) then 1 else 0
  }

  function PidsIn(run: Run, lo: Stamp, hi: Stamp): set<int> {
    if run == [] then {}
    else
      var n := |run| - 1;
      PidsIn(run[..n], lo, hi) + if IsExitIn(run[n], lo, hi) then {run[n].1.pid} else {}
  }

  // At most r exits in any one second.
  ghost predicate Rate(run: Run, r: nat) {
    forall s :: ExitsIn(run, s, s) <= r
  }

  lemma {:induction false} PidsAtMostExits(run: Run, lo: Stamp, hi: Stamp)
    ensures |PidsIn(run, lo, hi)| <= ExitsIn(run, lo, hi)
  {
    if run != [] {
      PidsAtMostExits(run[..|run| - 1], lo, hi);
    }
  }

  lemma {:induction false} WindowSplits(run: Run, lo: Stamp, hi: Stamp)
    requires lo <= hi
    ensures ExitsIn(run, lo, hi) == ExitsIn(run, lo, hi - 1) + ExitsIn(run, hi, hi)
  {
    if run != [] {
      WindowSplits(run[..|run| - 1], lo, hi);
    }
  }

  lemma {:induction false} EmptyWindow(run: Run, lo: Stamp, hi: Stamp)
    requires hi < lo
    ensures ExitsIn(run, lo, hi) == 0
  {
    if run != [] {
      EmptyWindow(run[..|run| - 1], lo, hi);
    }
  }

  // r a second over so many seconds.
  lemma {:induction false} WindowBound(run: Run, r: nat, lo: Stamp, seconds: nat)
    requires Rate(run, r)
    ensures ExitsIn(run, lo, lo + seconds - 1) <= r * seconds
    decreases seconds
  {
    if seconds == 0 {
      EmptyWindow(run, lo, lo - 1);
    } else {
      WindowBound(run, r, lo, seconds - 1);
      WindowSplits(run, lo, lo + seconds - 1);
    }
  }

  /* ---- Each dead entry was an exit in the window ---- */

  // Every exit recorded since `lo`, or an eviction that dropped what was older.
  ghost predicate SweptTo(run: Run, lo: Stamp) {
    || (forall i :: 0 <= i < |run| ==> lo <= run[i].0)
    || (exists i :: 0 <= i < |run| && run[i].1.Evict? && lo <= run[i].0 - EXITED_GRACE_SECS)
  }

  // Entries either were there before or exited in this step.
  lemma {:induction false} StepExits(w: World, ts: Stamp, a: Action, p: int)
    requires p in Next(w, ts, a).tree && Next(w, ts, a).tree[p].exited.Some?
    ensures (a == Exit(p) && Next(w, ts, a).tree[p].exited == Some(ts)) ||
            (p in w.tree && w.tree[p].exited == Next(w, ts, a).tree[p].exited)
  {
    if a.Write? {
      MarkAllAt(w.tree, UnpersistedChain(w.tree, a.pid), p);
    }
  }

  ghost predicate ExitRecorded(run: Run, p: int, s: Stamp) {
    exists i :: 0 <= i < |run| && run[i] == (s, Exit(p))
  }

  lemma {:induction false} DeadEntriesExited(run: Run, p: int)
    requires p in After(START, run).tree && After(START, run).tree[p].exited.Some?
    ensures ExitRecorded(run, p, After(START, run).tree[p].exited.value)
  {
    if run != [] {
      var n := |run| - 1;
      var before := After(START, run[..n]);
      StepExits(before, run[n].0, run[n].1, p);
      if !(run[n].1 == Exit(p) && After(START, run).tree[p].exited == Some(run[n].0)) {
        DeadEntriesExited(run[..n], p);
        var s := before.tree[p].exited.value;
        var i :| 0 <= i < n && run[..n][i] == (s, Exit(p));
        assert run[i] == (s, Exit(p));
      }
    }
  }

  lemma {:induction false} RecordedIsCounted(run: Run, p: int, s: Stamp, lo: Stamp, hi: Stamp)
    requires ExitRecorded(run, p, s) && lo <= s <= hi
    ensures p in PidsIn(run, lo, hi)
  {
    var n := |run| - 1;
    if run[n] != (s, Exit(p)) {
      var i :| 0 <= i < |run| && run[i] == (s, Exit(p));
      assert run[..n][i] == (s, Exit(p));
      RecordedIsCounted(run[..n], p, s, lo, hi);
    }
  }

  lemma {:induction false} SweptEntriesAreRecent(run: Run, lo: Stamp, p: int)
    requires Monotone(run) && SweptTo(run, lo)
    requires p in After(START, run).tree && After(START, run).tree[p].exited.Some?
    ensures lo <= After(START, run).tree[p].exited.value
  {
    var s := After(START, run).tree[p].exited.value;
    if run != [] {
      var n := |run| - 1;
      StepExits(After(START, run[..n]), run[n].0, run[n].1, p);
      if run[n].1 == Exit(p) && s == run[n].0 {
        StampsAfterSweep(run, lo);
      } else if !(run[n].1.Evict? && lo <= run[n].0 - EXITED_GRACE_SECS) {
        SweptBefore(run, lo);
        SweptEntriesAreRecent(run[..n], lo, p);
      }
    }
  }

  lemma {:induction false} StampsAfterSweep(run: Run, lo: Stamp)
    requires run != [] && Monotone(run) && SweptTo(run, lo)
    ensures lo <= run[|run| - 1].0
  {
  }

  lemma {:induction false} SweptBefore(run: Run, lo: Stamp)
    requires run != [] && SweptTo(run, lo)
    requires !(run[|run| - 1].1.Evict? && lo <= run[|run| - 1].0 - EXITED_GRACE_SECS)
    ensures SweptTo(run[..|run| - 1], lo)
  {
    var n := |run| - 1;
    if i :| 0 <= i < |run| && run[i].1.Evict? && lo <= run[i].0 - EXITED_GRACE_SECS {
      assert run[..n][i] == run[i];
    }
  }

  lemma {:induction false} DeadEntryInWindow(run: Run, lo: Stamp, now: Stamp, p: int)
    requires Monotone(run) && SweptTo(run, lo)
    requires forall i :: 0 <= i < |run| ==> run[i].0 <= now
    requires p in Dead(After(START, run).tree)
    ensures p in PidsIn(run, lo, now)
  {
    var s := After(START, run).tree[p].exited.value;
    DeadEntriesExited(run, p);
    SweptEntriesAreRecent(run, lo, p);
    var i :| 0 <= i < |run| && run[i] == (s, Exit(p));
    RecordedIsCounted(run, p, s, lo, now);
  }

  // Pids counted among the exits of the window are at most r a second.
  lemma {:induction false} CountedBound(run: Run, r: nat, lo: Stamp, seconds: nat, pids: set<int>)
    requires Rate(run, r) && pids <= PidsIn(run, lo, lo + seconds - 1)
    ensures |pids| <= r * seconds
  {
    SubsetSize(pids, PidsIn(run, lo, lo + seconds - 1));
    PidsAtMostExits(run, lo, lo + seconds - 1);
    WindowBound(run, r, lo, seconds);
  }

  // The dead entries are at most the exits of the window.
  lemma {:induction false} DeadBound(run: Run, r: nat, lo: Stamp, seconds: nat)
    requires Monotone(run) && Rate(run, r) && SweptTo(run, lo)
    requires forall i :: 0 <= i < |run| ==> run[i].0 <= lo + seconds - 1
    ensures |Dead(After(START, run).tree)| <= r * seconds
  {
    var pids := Dead(After(START, run).tree);
    forall p | p in pids ensures p in PidsIn(run, lo, lo + seconds - 1) {
      DeadEntryInWindow(run, lo, lo + seconds - 1, p);
    }
    CountedBound(run, r, lo, seconds, pids);
  }

  // An eviction ran at or after this time, or the daemon started no earlier.
  ghost predicate EvictedSince(run: Run, since: Stamp) {
    || (forall i :: 0 <= i < |run| ==> since <= run[i].0)
    || (exists i :: 0 <= i < |run| && run[i].1.Evict? && since <= run[i].0)
  }

  lemma {:induction false} EvictedMeansSwept(run: Run, since: Stamp)
    requires EvictedSince(run, since)
    ensures SweptTo(run, since - EXITED_GRACE_SECS)
  {
  }

  /** With at most r exits a second and an eviction at least every `every`
   *  seconds, the dead entries never exceed r * (grace + every + 1).
   */
  lemma {:induction false} DeadEntriesBounded(run: Run, r: nat, every: nat, now: Stamp)
    requires Monotone(run) && Rate(run, r)
    requires forall i :: 0 <= i < |run| ==> run[i].0 <= now
    requires EvictedSince(run, now - every)
    ensures |Dead(After(START, run).tree)| <= r * (90 + every + 1)
  {
    EvictedMeansSwept(run, now - every);
    DeadBound(run, r, now - every - EXITED_GRACE_SECS, EXITED_GRACE_SECS + every + 1);
  }

  /** Sampled after the eviction that is due in a second, as the memory test
   *  does, they never exceed r * (grace + every).
   */
  lemma {:induction false} DeadEntriesBoundedAfterEviction(run: Run, r: nat, every: nat, now: Stamp)
    requires Monotone(run) && Rate(run, r) && every > 0
    requires forall i :: 0 <= i < |run| ==> run[i].0 <= now
    requires EvictedSince(run, now - every + 1)
    ensures |Dead(After(START, run).tree)| <= r * (90 + every)
  {
    EvictedMeansSwept(run, now - every + 1);
    DeadBound(run, r, now - every + 1 - EXITED_GRACE_SECS, EXITED_GRACE_SECS + every);
  }

  /** A live entry leaves only by its own exit. */
  lemma {:induction false} LiveEntriesStay(w: World, run: Run, p: int)
    requires p in w.tree && w.tree[p].exited.None?
    requires forall i :: 0 <= i < |run| ==> run[i].1 != Exit(p)
    ensures p in After(w, run).tree && After(w, run).tree[p].exited.None?
  {
    if run != [] {
      var n := |run| - 1;
      var before, a := After(w, run[..n]), run[n].1;
      LiveEntriesStay(w, run[..n], p);
      if a.Write? {
        MarkAllAt(before.tree, UnpersistedChain(before.tree, a.pid), p);
      }
    }
  }
}
