/** Frame and idempotence of applying an undo plan. */
module Undo {
  import opened Wrappers
  import opened FileTree
  import opened Revert
  import opened PlanProperties
  import opened Apply

  /* ---- What one step does to one path ---- */

  lemma {:induction false} ParentPrefix(p: Path, q: Path)
    requires q != []
    ensures p <= Parent(q) <==> ProperPrefix(p, q)
  {
    if ProperPrefix(p, q) {
      assert |p| < |q|;
    }
  }

  function Contents(fs: Tree, path: Path, from: Path): Entry
    requires At(WithParents(fs, path), from).Some?
  {
    if from == path then File("") else WithParents(fs, path)[from]
  }

  lemma {:induction false} RestoreAt(fs: Tree, path: Path, from: Path, p: Path)
    ensures var step := Restore(path, from);
            At(Effect(fs, step), p) ==
            if OutcomeOf(fs, step) == Applied && p == path then Some(Contents(fs, path, from))
            else if ParentReady(fs, path) && ProperPrefix(p, path) then Some(Dir)
            else At(fs, p)
  {
    if path != [] {
      AtMakeDirs(fs, Parent(path), p);
      ParentPrefix(p, path);
    }
  }

  lemma {:induction false} RemoveAt(fs: Tree, path: Path, p: Path)
    ensures At(Effect(fs, Remove(path)), p) ==
            if OutcomeOf(fs, Remove(path)) == Applied && p == path then None else At(fs, p)
  {
  }

  // Parents that can be made were directories or missing.
  lemma {:induction false} ReadyMeansDirOrMissing(fs: Tree, path: Path, p: Path)
    requires ParentReady(fs, path)
    requires ProperPrefix(p, path)
    ensures At(fs, p) == None || At(fs, p) == Some(Dir)
  {
    ParentPrefix(p, path);
  }

  lemma {:induction false} RestoreWellFormed(fs: Tree, path: Path, from: Path)
    requires WellFormed(fs)
    ensures WellFormed(Effect(fs, Restore(path, from)))
  {
    var step := Restore(path, from);
    var f := Effect(fs, step);
    RestoreAt(fs, path, from, []);
    forall p | p in f ensures SitsInDir(f, p) {
      if p != [] {
        RestoreAt(fs, path, from, p);
        RestoreAt(fs, path, from, Parent(p));
        assert p in fs ==> SitsInDir(fs, p);
        if ParentReady(fs, path) && ProperPrefix(p, path) {
          assert ProperPrefix(Parent(p), path);
        } else if p == path && OutcomeOf(fs, step) == Applied {
          ParentPrefix(Parent(p), path);
        }
      }
    }
  }

  lemma {:induction false} RemoveWellFormed(fs: Tree, path: Path)
    requires WellFormed(fs)
    ensures WellFormed(Effect(fs, Remove(path)))
  {
    var f := Effect(fs, Remove(path));
    RemoveAt(fs, path, []);
    forall p | p in f ensures SitsInDir(f, p) {
      if p != [] {
        RemoveAt(fs, path, p);
        RemoveAt(fs, path, Parent(p));
        assert SitsInDir(fs, p);
        if Parent(p) == path {
          assert |p| == |path| + 1 && path <= p;
          assert HasChild(fs, path);
        }
      }
    }
  }

  lemma {:induction false} StaysWellFormed(fs: Tree, steps: seq<Step>, n: nat)
    requires n <= |steps|
    requires WellFormed(fs)
    ensures WellFormed(After(fs, steps, n))
  {
    if n > 0 {
      StaysWellFormed(fs, steps, n - 1);
      var before := After(fs, steps, n - 1);
      match steps[n - 1] {
        case Restore(path, from) => RestoreWellFormed(before, path, from);
        case Remove(path) => RemoveWellFormed(before, path);
        case Skip(_, _) =>
      }
    }
  }

  /* ---- Frame ---- */

  ghost predicate RestoredBy(fs: Tree, steps: seq<Step>, i: nat, p: Path)
    requires i < |steps|
  {
    && steps[i].Restore?
    && steps[i].path == p
    && OutcomeOf(After(fs, steps, i), steps[i]) == Applied
  }

  ghost predicate RemovedBy(fs: Tree, steps: seq<Step>, i: nat, p: Path)
    requires i < |steps|
  {
    && steps[i] == Remove(p)
    && (p in After(fs, steps, i) ==> !HasChild(After(fs, steps, i), p))
  }

  ghost predicate MadeFor(steps: seq<Step>, i: nat, p: Path)
    requires i < |steps|
  {
    steps[i].Restore? && ProperPrefix(p, steps[i].path)
  }

  /** From any tree, by any list of steps: what is gone was a Remove path with
   *  nothing left inside, a new or changed file is a Restore target, and a new
   *  directory lies above one.
   */
  lemma {:induction false} Frame(fs: Tree, steps: seq<Step>, n: nat, p: Path)
    requires n <= |steps|
    requires WellFormed(fs)
    ensures var now := At(After(fs, steps, n), p);
            now == At(fs, p) ||
            match now {
              case None => exists i :: 0 <= i < n && RemovedBy(fs, steps, i, p)
              case Some(File(_)) => exists i :: 0 <= i < n && RestoredBy(fs, steps, i, p)
              case Some(Dir) => exists i :: 0 <= i < n && MadeFor(steps, i, p)
            }
  {
    if n > 0 {
      Frame(fs, steps, n - 1, p);
      var before := After(fs, steps, n - 1);
      StaysWellFormed(fs, steps, n - 1);
      match steps[n - 1] {
        case Restore(path, from) =>
          RestoreAt(before, path, from, p);
          assert OutcomeOf(before, steps[n - 1]) == Applied && p == path ==> RestoredBy(fs, steps, n - 1, p);
          assert ProperPrefix(p, path) ==> MadeFor(steps, n - 1, p);
        case Remove(path) =>
          RemoveAt(before, path, p);
          if p == path && OutcomeOf(before, steps[n - 1]) == Applied {
            FileHasNoChild(before, p);
            assert RemovedBy(fs, steps, n - 1, p);
          }
        case Skip(_, _) =>
      }
    }
  }

  lemma {:induction false} FileHasNoChild(fs: Tree, p: Path)
    requires WellFormed(fs)
    ensures HasChild(fs, p) ==> At(fs, p) == Some(Dir)
  {
    if HasChild(fs, p) {
      var q :| q in fs && |q| == |p| + 1 && p <= q;
      assert SitsInDir(fs, q) && Parent(q) == p;
    }
  }

  // A file stays until a restore of its path goes through or a removal names it.
  lemma {:induction false} FileSurvives(fs: Tree, steps: seq<Step>, m: nat, n: nat, p: Path)
    requires m <= n <= |steps|
    requires WellFormed(fs)
    requires p in After(fs, steps, m) && After(fs, steps, m)[p].File?
    requires forall i :: m <= i < n ==> !RestoredBy(fs, steps, i, p) && steps[i] != Remove(p)
    ensures At(After(fs, steps, n), p) == At(After(fs, steps, m), p)
  {
    if m < n {
      FileSurvives(fs, steps, m, n - 1, p);
      var before := After(fs, steps, n - 1);
      match steps[n - 1] {
        case Restore(path, from) =>
          RestoreAt(before, path, from, p);
          if ParentReady(before, path) && ProperPrefix(p, path) {
            ReadyMeansDirOrMissing(before, path, p);
          }
          assert p == path ==> OutcomeOf(before, steps[n - 1]) != Applied;
        case Remove(path) => RemoveAt(before, path, p);
        case Skip(_, _) =>
      }
    }
  }

  // Every step is counted once: ok + kept + failed is the number of non-skip steps.
  lemma {:induction false} TallyIsComplete(fs: Tree, steps: seq<Step>, n: nat)
    requires n <= |steps|
    ensures Count(fs, steps, n, Applied) + Count(fs, steps, n, Kept) + Count(fs, steps, n, Failed)
            == n - |OfRank(steps[..n], 2)|
  {
    if n > 0 {
      TallyIsComplete(fs, steps, n - 1);
      assert steps[..n][..n - 1] == steps[..n - 1];
    }
  }

  ghost predicate IsFile(fs: Tree, p: Path) {
    At(fs, p).Some? && fs[p].File?
  }

  ghost predicate RemovedBetween(steps: seq<Step>, i: nat, n: nat, p: Path)
    requires n <= |steps|
  {
    exists j :: i < j < n && steps[j] == Remove(p)
  }

  lemma {:induction false} RestoreKeepsFile(was: Tree, path: Path, from: Path, p: Path)
    requires IsFile(was, p)
    ensures IsFile(Effect(was, Restore(path, from)), p)
  {
    RestoreAt(was, path, from, p);
    if ParentReady(was, path) && ProperPrefix(p, path) {
      ReadyMeansDirOrMissing(was, path, p);
    }
  }

  lemma {:induction false} RemovedOneMore(steps: seq<Step>, i: nat, k: nat, n: nat, p: Path)
    requires SafeOrder(steps) && i < k < |steps| && n == k + 1
    ensures RemovedBetween(steps, i, n, p) <==> RemovedBetween(steps, i, k, p) || steps[k] == Remove(p)
    ensures RemovedBetween(steps, i, k, p) ==> !steps[k].Restore?
  {
    if RemovedBetween(steps, i, k, p) {
      var j :| i < j < k && steps[j] == Remove(p);
      assert Rank(steps[j]) <= Rank(steps[k]);
      assert steps[j] == Remove(p) && i < j < n;
    }
  }

  // A restored path is a file until a removal names it, and then nothing.
  lemma {:induction false} FileOrGone(fs: Tree, steps: seq<Step>, i: nat, n: nat, p: Path)
    requires SafeOrder(steps) && i < n <= |steps| && RestoredBy(fs, steps, i, p)
    ensures if RemovedBetween(steps, i, n, p) then At(After(fs, steps, n), p) == None
            else IsFile(After(fs, steps, n), p)
    decreases n
  {
    var k := n - 1;
    if i == k {
      RestoreAt(After(fs, steps, k), steps[k].path, steps[k].from, p);
    } else {
      FileOrGone(fs, steps, i, k, p);
      RemovedOneMore(steps, i, k, n, p);
      FileOrGoneNext(After(fs, steps, k), steps[k], p);
    }
  }

  // A step leaves a file a file unless it removes it; a removal makes no file.
  lemma {:induction false} FileOrGoneNext(f: Tree, s: Step, p: Path)
    ensures IsFile(f, p) && s != Remove(p) ==> IsFile(Effect(f, s), p)
    ensures IsFile(f, p) && s == Remove(p) ==> At(Effect(f, s), p) == None
    ensures At(f, p) == None && !s.Restore? ==> At(Effect(f, s), p) == None
  {
    match s {
      case Restore(path, from) =>
        if IsFile(f, p) {
          RestoreKeepsFile(f, path, from, p);
        }
      case Remove(path) => RemoveAt(f, path, p);
      case Skip(_, _) =>
    }
  }

  /** In a safe order, paths repeating or not, a restored file is missing at the end
   *  exactly when the plan also removes its path.
   */
  lemma {:induction false} RestoredFileGoesExactlyWhenRemoved(fs: Tree, steps: seq<Step>, i: nat)
    requires SafeOrder(steps)
    requires i < |steps| && RestoredBy(fs, steps, i, steps[i].path)
    ensures At(Result(fs, steps), steps[i].path) == None <==> Remove(steps[i].path) in steps
  {
    var p := steps[i].path;
    FileOrGone(fs, steps, i, |steps|, p);
    if Remove(p) in steps {
      var j :| 0 <= j < |steps| && steps[j] == Remove(p);
      assert Rank(steps[i]) == 0 && Rank(steps[j]) == 1;
    }
  }

  // No restore of this path goes through after step i.
  ghost predicate LastRestored(fs: Tree, steps: seq<Step>, i: nat, p: Path)
    requires i < |steps|
  {
    RestoredBy(fs, steps, i, p) && forall j :: i < j < |steps| ==> !RestoredBy(fs, steps, j, p)
  }

  /** And otherwise it has the contents that the last restore of it gave it. */
  lemma {:induction false} RestoredFilesStay(fs: Tree, steps: seq<Step>, i: nat)
    requires WellFormed(fs)
    requires SafeOrder(steps)
    requires i < |steps| && LastRestored(fs, steps, i, steps[i].path)
    ensures At(Result(fs, steps), steps[i].path) ==
            if Remove(steps[i].path) in steps then None
            else Some(Contents(After(fs, steps, i), steps[i].path, steps[i].from))
  {
    RestoredFileGoesExactlyWhenRemoved(fs, steps, i);
    if Remove(steps[i].path) !in steps {
      RestoreAt(After(fs, steps, i), steps[i].path, steps[i].from, steps[i].path);
      FileSurvives(fs, steps, i + 1, |steps|, steps[i].path);
    }
  }

  // With one step a path a restore that goes through is the last word.
  lemma {:induction false} OneStepRestores(fs: Tree, steps: seq<Step>, i: nat)
    requires WellFormed(fs) && Shaped(steps)
    requires i < |steps| && RestoredBy(fs, steps, i, steps[i].path)
    ensures At(Result(fs, steps), steps[i].path) ==
            Some(Contents(After(fs, steps, i), steps[i].path, steps[i].from))
  {
    forall j | 0 <= j < |steps| && steps[j].path == steps[i].path ensures j == i {
    }
    RestoredFilesStay(fs, steps, i);
  }

  /* ---- Idempotence ---- */

  lemma {:induction false} NoneFailed(fs: Tree, steps: seq<Step>, n: nat, i: nat)
    requires i < n <= |steps|
    requires Count(fs, steps, n, Failed) == 0
    ensures OutcomeOf(After(fs, steps, i), steps[i]) != Failed
  {
    if i < n - 1 {
      NoneFailed(fs, steps, n - 1, i);
    }
  }

  // After the last restore nothing appears any more.
  lemma {:induction false} RemovesOnlyShrink(fs: Tree, steps: seq<Step>, m: nat, n: nat, p: Path)
    requires m <= n <= |steps|
    requires forall i :: m <= i < n ==> !steps[i].Restore?
    ensures At(After(fs, steps, n), p) == At(After(fs, steps, m), p) || At(After(fs, steps, n), p) == None
  {
    if m < n {
      RemovesOnlyShrink(fs, steps, m, n - 1, p);
      if steps[n - 1].Remove? {
        RemoveAt(After(fs, steps, n - 1), steps[n - 1].path, p);
      }
    }
  }

  lemma {:induction false} UnnamedStays(fs: Tree, steps: seq<Step>, m: nat, n: nat, p: Path)
    requires m <= n <= |steps|
    requires forall i :: m <= i < n ==> !steps[i].Restore? && steps[i] != Remove(p)
    ensures At(After(fs, steps, n), p) == At(After(fs, steps, m), p)
  {
    if m < n {
      UnnamedStays(fs, steps, m, n - 1, p);
      if steps[n - 1].Remove? {
        RemoveAt(After(fs, steps, n - 1), steps[n - 1].path, p);
      }
    }
  }

  // What a restore reads is what it last wrote.
  ghost predicate SourceHolds(f: Tree, step: Step) {
    step.Restore? ==> At(f, step.from).Some? && f[step.from].File? && At(f, step.path) == At(f, step.from)
  }

  // The directories above something present need no making.
  lemma {:induction false} ParentsThere(f: Tree, path: Path)
    requires WellFormed(f) && path in f
    ensures ParentReady(f, path) && WithParents(f, path) == f
  {
    forall p | ProperPrefix(p, path) ensures At(f, p) == Some(Dir) {
      AboveIsDir(f, p, path);
    }
    forall p | p in f && path != [] && p <= Parent(path) ensures f[p].Dir? {
      ParentPrefix(p, path);
    }
    forall p ensures At(WithParents(f, path), p) == At(f, p) {
      if path != [] {
        AtMakeDirs(f, Parent(path), p);
        ParentPrefix(p, path);
      }
    }
    SameTree(WithParents(f, path), f);
  }

  // A restore that went through goes through again and rewrites what is there.
  lemma {:induction false} RestoreAgain(fs: Tree, steps: seq<Step>, i: nat)
    requires WellFormed(fs) && Shaped(steps)
    requires Total(fs, steps, Failed) == 0
    requires i < |steps| && steps[i].Restore? && SourceHolds(Result(fs, steps), steps[i])
    ensures Effect(Result(fs, steps), steps[i]) == Result(fs, steps)
    ensures OutcomeOf(Result(fs, steps), steps[i]) == Applied
  {
    StaysWellFormed(fs, steps, |steps|);
    NoneFailed(fs, steps, |steps|, i);
    OneStepRestores(fs, steps, i);
    ParentsThere(Result(fs, steps), steps[i].path);
  }

  lemma {:induction false} SameTree(a: Tree, b: Tree)
    requires forall p :: At(a, p) == At(b, p)
    ensures a == b
  {
    forall p ensures p in a <==> p in b {
      assert At(a, p) == At(b, p);
    }
    forall p | p in a ensures a[p] == b[p] {
      assert At(a, p) == At(b, p);
    }
  }

  // A removal that went through finds nothing the second time.
  lemma {:induction false} RemoveAgainGone(fs: Tree, steps: seq<Step>, i: nat)
    requires WellFormed(fs) && SafeOrder(steps)
    requires i < |steps| && steps[i].Remove?
    requires OutcomeOf(After(fs, steps, i), steps[i]) == Applied
    ensures steps[i].path !in Result(fs, steps)
    ensures OutcomeOf(Result(fs, steps), steps[i]) == Applied
  {
    var f, was, path := Result(fs, steps), After(fs, steps, i), steps[i].path;
    StaysWellFormed(fs, steps, i);
    RemoveAt(was, path, path);
    RemovesOnlyShrink(fs, steps, i + 1, |steps|, path);
    forall q | q in f && ProperPrefix(q, path) ensures f[q].Dir? {
      RemoveAt(was, path, q);
      RemovesOnlyShrink(fs, steps, i + 1, |steps|, q);
      AboveRemovable(was, path, q);
    }
  }

  lemma {:induction false} AboveRemovable(f: Tree, path: Path, q: Path)
    requires WellFormed(f) && OutcomeOf(f, Remove(path)) == Applied && ProperPrefix(q, path)
    ensures q in f ==> f[q].Dir?
  {
    if path in f {
      AboveIsDir(f, q, path);
    }
  }

  // A directory kept once is still non-empty at the end: later removals are never deeper.
  lemma {:induction false} RemoveAgainKept(fs: Tree, steps: seq<Step>, i: nat)
    requires WellFormed(fs) && SafeOrder(steps)
    requires i < |steps| && steps[i].Remove?
    requires OutcomeOf(After(fs, steps, i), steps[i]) == Kept
    ensures OutcomeOf(Result(fs, steps), steps[i]) == Kept
  {
    var f, was, path := Result(fs, steps), After(fs, steps, i), steps[i].path;
    var q :| q in was && |q| == |path| + 1 && path <= q;
    RemoveAt(was, path, q);
    UnnamedStays(fs, steps, i + 1, |steps|, q);
    assert At(f, q) == At(was, q);
    assert HasChild(f, path);
    StaysWellFormed(fs, steps, |steps|);
    FileHasNoChild(f, path);
  }

  lemma {:induction false} StepAgain(fs: Tree, steps: seq<Step>, i: nat)
    requires WellFormed(fs) && Shaped(steps)
    requires Total(fs, steps, Failed) == 0
    requires i < |steps| && SourceHolds(Result(fs, steps), steps[i])
    ensures Effect(Result(fs, steps), steps[i]) == Result(fs, steps)
    ensures OutcomeOf(Result(fs, steps), steps[i]) == OutcomeOf(After(fs, steps, i), steps[i])
  {
    NoneFailed(fs, steps, |steps|, i);
    match steps[i] {
      case Restore(_, _) => RestoreAgain(fs, steps, i);
      case Remove(_) =>
        if OutcomeOf(After(fs, steps, i), steps[i]) == Applied {
          RemoveAgainGone(fs, steps, i);
        } else {
          RemoveAgainKept(fs, steps, i);
        }
      case Skip(_, _) =>
    }
  }

  // Step i leaves f alone and ends on f as it did in the run from fs.
  ghost predicate SettledAt(fs: Tree, f: Tree, steps: seq<Step>, i: nat)
    requires i < |steps|
  {
    Effect(f, steps[i]) == f && OutcomeOf(f, steps[i]) == OutcomeOf(After(fs, steps, i), steps[i])
  }

  ghost predicate Settled(fs: Tree, f: Tree, steps: seq<Step>) {
    forall i {:trigger SettledAt(fs, f, steps, i)} :: 0 <= i < |steps| ==> SettledAt(fs, f, steps, i)
  }

  lemma {:induction false} SettledTree(fs: Tree, f: Tree, steps: seq<Step>, n: nat)
    requires Settled(fs, f, steps)
    requires n <= |steps|
    ensures After(f, steps, n) == f
  {
    if n > 0 {
      SettledTree(fs, f, steps, n - 1);
      assert SettledAt(fs, f, steps, n - 1);
    }
  }

  lemma {:induction false} SettledOutcome(fs: Tree, f: Tree, steps: seq<Step>, i: nat)
    requires Settled(fs, f, steps)
    requires i < |steps|
    ensures OutcomeOf(After(f, steps, i), steps[i]) == OutcomeOf(After(fs, steps, i), steps[i])
  {
    SettledTree(fs, f, steps, i);
    assert SettledAt(fs, f, steps, i);
  }

  lemma {:induction false} SettledCount(fs: Tree, f: Tree, steps: seq<Step>, n: nat, o: Outcome)
    requires Settled(fs, f, steps)
    requires n <= |steps|
    ensures Count(f, steps, n, o) == Count(fs, steps, n, o)
  {
    if n > 0 {
      var i := n - 1;
      SettledCount(fs, f, steps, i, o);
      SettledOutcome(fs, f, steps, i);
      CountNext(fs, f, steps, i, n, o);
    }
  }

  // One more step that ends alike keeps two counts equal.
  lemma {:induction false} CountNext(fs: Tree, f: Tree, steps: seq<Step>, i: nat, next: nat, o: Outcome)
    requires i < |steps| && next == i + 1
    requires OutcomeOf(After(f, steps, i), steps[i]) == OutcomeOf(After(fs, steps, i), steps[i])
    requires Count(f, steps, i, o) == Count(fs, steps, i, o)
    ensures Count(f, steps, next, o) == Count(fs, steps, next, o)
  {
  }

  lemma {:induction false} SourcesHoldTwice(fs: Tree, steps: seq<Step>)
    requires WellFormed(fs) && Shaped(steps)
    requires Total(fs, steps, Failed) == 0
    requires forall i :: 0 <= i < |steps| ==> SourceHolds(Result(fs, steps), steps[i])
    ensures Result(Result(fs, steps), steps) == Result(fs, steps)
    ensures forall o :: Total(Result(fs, steps), steps, o) == Total(fs, steps, o)
  {
    var f := Result(fs, steps);
    forall i | 0 <= i < |steps| ensures SettledAt(fs, f, steps, i) {
      StepAgain(fs, steps, i);
    }
    SettledTree(fs, f, steps, |steps|);
    forall o ensures Total(f, steps, o) == Total(fs, steps, o) {
      SettledCount(fs, f, steps, |steps|, o);
    }
  }

  // A restore that leaves its own result in place read what it wrote.
  lemma {:induction false} RestoreIdle(f: Tree, path: Path, from: Path)
    requires WellFormed(f) && OutcomeOf(f, Restore(path, from)) == Applied
    requires At(f, path) == Some(Contents(f, path, from))
    ensures SourceHolds(f, Restore(path, from)) && Effect(f, Restore(path, from)) == f
  {
    ParentsThere(f, path);
  }

  ghost predicate SecondRunIdle(f: Tree, steps: seq<Step>) {
    WellFormed(f) && Shaped(steps) && Result(f, steps) == f && Total(f, steps, Failed) == 0
  }

  lemma {:induction false} StepIdle(f: Tree, steps: seq<Step>, i: nat)
    requires SecondRunIdle(f, steps)
    requires i < |steps| && steps[i].Restore? && After(f, steps, i) == f
    ensures SourceHolds(f, steps[i]) && Effect(f, steps[i]) == f
  {
    NoneFailed(f, steps, |steps|, i);
    OneStepRestores(f, steps, i);
    RestoreIdle(f, steps[i].path, steps[i].from);
  }

  lemma {:induction false} NextIdle(f: Tree, steps: seq<Step>, i: nat, next: nat)
    requires SecondRunIdle(f, steps)
    requires i < |steps| && next == i + 1 && steps[i].Restore? && After(f, steps, i) == f
    ensures After(f, steps, next) == f
  {
    StepIdle(f, steps, i);
  }

  // If the second run changes nothing, no restore of it does.
  lemma {:induction false} RestoresIdle(f: Tree, steps: seq<Step>, i: nat)
    requires SecondRunIdle(f, steps)
    requires i < |steps| && steps[i].Restore?
    ensures After(f, steps, i) == f
    decreases i
  {
    if i > 0 {
      var j := i - 1;
      assert Rank(steps[j]) <= Rank(steps[i]);
      RestoresIdle(f, steps, j);
      NextIdle(f, steps, j, i);
    }
  }

  /** Re-applying, with its exact condition: after a first run without failures
   *  the second leaves the tree alone, again without failures, if and only if
   *  every restore's source still holds what the restored path holds.
   */
  lemma {:induction false} ReappliesExactly(fs: Tree, steps: seq<Step>)
    requires WellFormed(fs) && Shaped(steps)
    requires Total(fs, steps, Failed) == 0
    ensures var f := Result(fs, steps);
            Result(f, steps) == f && Total(f, steps, Failed) == 0
            <==> forall i :: 0 <= i < |steps| ==> SourceHolds(f, steps[i])
  {
    var f := Result(fs, steps);
    if Result(f, steps) == f && Total(f, steps, Failed) == 0 {
      StaysWellFormed(fs, steps, |steps|);
      forall i | 0 <= i < |steps| ensures SourceHolds(f, steps[i]) {
        if steps[i].Restore? {
          RestoresIdle(f, steps, i);
          StepIdle(f, steps, i);
        }
      }
    } else if forall i :: 0 <= i < |steps| ==> SourceHolds(f, steps[i]) {
      SourcesHoldTwice(fs, steps);
    }
  }
}
