/** Applying a plan twice, for any plan in a safe order: paths may repeat.
 *
 *  The second run is held between the first run and the first run's result: at
 *  every step it has all that the result has, and nothing the first run had not.
 */
module Reapply {
  import opened Wrappers
  import opened FileTree
  import opened Revert
  import opened PlanProperties
  import opened Apply
  import opened Undo

  // No step writes or removes what a restore copies from.
  ghost predicate SourcesApart(steps: seq<Step>) {
    forall i, j :: 0 <= i < |steps| && 0 <= j < |steps| && !steps[i].Skip? && steps[j].Restore? ==>
      steps[i].path != steps[j].from
  }

  // A first run without failures, with the restores ending at k.
  ghost predicate FirstRun(fs: Tree, steps: seq<Step>, k: nat) {
    && WellFormed(fs) && SafeOrder(steps) && Total(fs, steps, Failed) == 0
    && k <= |steps|
    && forall i :: 0 <= i < |steps| ==> (steps[i].Restore? <==> i < k)
  }

  // Where the restores of a plan end.
  function RestoresEnd(steps: seq<Step>): (k: nat)
    ensures k <= |steps|
    ensures forall i :: 0 <= i < k ==> steps[i].Restore?
    ensures k < |steps| ==> !steps[k].Restore?
  {
    if steps == [] || !steps[0].Restore? then 0 else 1 + RestoresEnd(steps[1..])
  }

  lemma {:induction false} RestoresEndThere(steps: seq<Step>)
    requires RestoresFirst(steps)
    ensures forall i :: 0 <= i < |steps| ==> (steps[i].Restore? <==> i < RestoresEnd(steps))
  {
    var k := RestoresEnd(steps);
    forall i | k <= i < |steps| ensures !steps[i].Restore? {
      assert Rank(steps[k]) <= Rank(steps[i]);
    }
  }

  /* ---- The restores of the first run ---- */

  // No restore from i on writes this path.
  ghost predicate LastWritten(steps: seq<Step>, k: nat, i: nat, p: Path)
    requires k <= |steps|
  {
    forall j :: i <= j < k ==> steps[j].path != p
  }

  // A source is a file throughout, with the same contents.
  lemma {:induction false} SourceStays(fs: Tree, steps: seq<Step>, k: nat, i: nat)
    requires FirstRun(fs, steps, k) && SourcesApart(steps) && i < k
    ensures var from := steps[i].from;
            && At(After(fs, steps, i), from).Some? && After(fs, steps, i)[from].File?
            && At(After(fs, steps, k), from) == At(After(fs, steps, i), from)
            && At(Result(fs, steps), from) == At(After(fs, steps, i), from)
            && Contents(After(fs, steps, i), steps[i].path, from) == After(fs, steps, i)[from]
  {
    var was, path, from := After(fs, steps, i), steps[i].path, steps[i].from;
    NoneFailed(fs, steps, |steps|, i);
    if path != [] {
      AtMakeDirs(was, Parent(path), from);
    }
    FileSurvives(fs, steps, i, k, from);
    FileSurvives(fs, steps, i, |steps|, from);
  }

  lemma {:induction false} JustRestored(fs: Tree, steps: seq<Step>, k: nat, i: nat)
    requires FirstRun(fs, steps, k) && SourcesApart(steps) && i < k
    ensures At(After(fs, steps, i + 1), steps[i].path) == At(After(fs, steps, k), steps[i].from)
    ensures At(After(fs, steps, k), steps[i].from).Some? && After(fs, steps, k)[steps[i].from].File?
  {
    NoneFailed(fs, steps, |steps|, i);
    SourceStays(fs, steps, k, i);
    RestoreAt(After(fs, steps, i), steps[i].path, steps[i].from, steps[i].path);
  }

  // The last restore of a path has the say.
  lemma {:induction false} LastRestoreStays(fs: Tree, steps: seq<Step>, k: nat, i: nat)
    requires FirstRun(fs, steps, k) && SourcesApart(steps) && i < k
    requires LastWritten(steps, k, i + 1, steps[i].path)
    ensures At(After(fs, steps, k), steps[i].path) == At(After(fs, steps, k), steps[i].from)
  {
    JustRestored(fs, steps, k, i);
    NotRewritten(fs, steps, k, i + 1, steps[i].path);
  }

  lemma {:induction false} NotRewritten(fs: Tree, steps: seq<Step>, k: nat, m: nat, p: Path)
    requires FirstRun(fs, steps, k) && m <= k && LastWritten(steps, k, m, p)
    requires IsFile(After(fs, steps, m), p)
    ensures At(After(fs, steps, k), p) == At(After(fs, steps, m), p)
  {
    FileSurvives(fs, steps, m, k, p);
  }

  lemma {:induction false} FileKept(fs: Tree, steps: seq<Step>, k: nat, n: nat, next: nat, p: Path)
    requires FirstRun(fs, steps, k) && n < k && next == n + 1
    requires p == steps[n].path || IsFile(After(fs, steps, n), p)
    ensures IsFile(After(fs, steps, next), p)
  {
    NoneFailed(fs, steps, |steps|, n);
    RestoreLeavesFile(After(fs, steps, n), steps[n], p);
  }

  lemma {:induction false} RestoreLeavesFile(f: Tree, s: Step, p: Path)
    requires s.Restore? && OutcomeOf(f, s) == Applied && (p == s.path || IsFile(f, p))
    ensures IsFile(Effect(f, s), p)
  {
    RestoreAt(f, s.path, s.from, p);
    if p != s.path {
      RestoreKeepsFile(f, s.path, s.from, p);
    }
  }

  // Once written, a path holds some file until the removals.
  lemma {:induction false} TargetIsFile(fs: Tree, steps: seq<Step>, k: nat, i: nat, n: nat)
    requires FirstRun(fs, steps, k) && i < n <= k
    ensures IsFile(After(fs, steps, n), steps[i].path)
    decreases n
  {
    if i < n - 1 {
      TargetIsFile(fs, steps, k, i, n - 1);
    }
    FileKept(fs, steps, k, n - 1, n, steps[i].path);
  }

  /* ---- The restores of the second run ---- */

  // After j restores of the second run: nothing the result had is gone, whatever
  // there is has the kind it had after the first run's restores, and the contents
  // too unless it is still to be restored.
  ghost predicate Regrown(m: Tree, f: Tree, g: Tree, steps: seq<Step>, k: nat, j: nat)
    requires k <= |steps|
  {
    && (forall p :: p in f ==> p in g)
    && (forall p :: p in g ==> p in m && (m[p].Dir? <==> g[p].Dir?))
    && (forall p :: p in g && LastWritten(steps, k, j, p) ==> At(g, p) == At(m, p))
  }

  lemma {:induction false} ResultWithin(fs: Tree, steps: seq<Step>, k: nat)
    requires FirstRun(fs, steps, k)
    ensures Regrown(After(fs, steps, k), Result(fs, steps), Result(fs, steps), steps, k, 0)
  {
    forall p | p in Result(fs, steps) ensures At(Result(fs, steps), p) == At(After(fs, steps, k), p) {
      RemovesOnlyShrink(fs, steps, k, |steps|, p);
    }
  }

  lemma {:induction false} RestoreSucceeds(m: Tree, g: Tree, path: Path, from: Path)
    requires WellFormed(m) && At(m, path).Some? && m[path].File?
    requires forall p :: p in g ==> p in m && (m[p].Dir? <==> g[p].Dir?)
    requires At(g, from).Some? && g[from].File? && from != path
    ensures OutcomeOf(g, Restore(path, from)) == Applied
    ensures Contents(g, path, from) == g[from]
  {
    forall p | ProperPrefix(p, path) ensures At(m, p) == Some(Dir) {
      AboveIsDir(m, p, path);
    }
    if path != [] {
      forall p | p in g && p <= Parent(path) ensures g[p].Dir? {
        ParentPrefix(p, path);
      }
      ParentPrefix(from, path);
      ParentPrefix(path, path);
      AtMakeDirs(g, Parent(path), from);
      AtMakeDirs(g, Parent(path), path);
    }
  }

  // One restore on values: its target is a file of m, its directories are m's.
  lemma {:induction false} RegrowsStep(m: Tree, f: Tree, g: Tree, steps: seq<Step>, k: nat, j: nat)
    requires WellFormed(m) && j < k <= |steps| && steps[j].Restore?
    requires Regrown(m, f, g, steps, k, j) && OutcomeOf(g, steps[j]) == Applied
    requires At(m, steps[j].path).Some? && m[steps[j].path].File?
    requires Contents(g, steps[j].path, steps[j].from).File?
    requires LastWritten(steps, k, j + 1, steps[j].path) ==>
               At(m, steps[j].path) == Some(Contents(g, steps[j].path, steps[j].from))
    ensures Regrown(m, f, Effect(g, steps[j]), steps, k, j + 1)
  {
    var path, from := steps[j].path, steps[j].from;
    var h := Effect(g, steps[j]);
    forall p | ProperPrefix(p, path) ensures At(m, p) == Some(Dir) {
      AboveIsDir(m, p, path);
    }
    forall p ensures At(h, p) == if p == path then Some(Contents(g, path, from))
                                 else if ProperPrefix(p, path) then Some(Dir) else At(g, p) {
      RestoreAt(g, path, from, p);
    }
    forall p | p in f ensures p in h {
      assert At(h, p).Some?;
    }
    forall p | p in h ensures p in m && (m[p].Dir? <==> h[p].Dir?) {
      assert At(h, p).Some?;
    }
    forall p | p in h && LastWritten(steps, k, j + 1, p) ensures At(h, p) == At(m, p) {
      assert p != path ==> LastWritten(steps, k, j, p);
    }
  }

  lemma {:induction false} SourceInResult(fs: Tree, steps: seq<Step>, k: nat, j: nat, g: Tree)
    requires FirstRun(fs, steps, k) && SourcesApart(steps) && j < k
    requires Regrown(After(fs, steps, k), Result(fs, steps), g, steps, k, j)
    ensures At(g, steps[j].from) == At(After(fs, steps, k), steps[j].from)
    ensures At(g, steps[j].from).Some? && g[steps[j].from].File?
  {
    SourceStays(fs, steps, k, j);
    assert LastWritten(steps, k, j, steps[j].from);
  }

  lemma {:induction false} RegrowsOne(fs: Tree, steps: seq<Step>, k: nat, j: nat, g: Tree)
    requires FirstRun(fs, steps, k) && SourcesApart(steps) && j < k
    requires Regrown(After(fs, steps, k), Result(fs, steps), g, steps, k, j)
    ensures OutcomeOf(g, steps[j]) == Applied
    ensures Regrown(After(fs, steps, k), Result(fs, steps), Effect(g, steps[j]), steps, k, j + 1)
  {
    var m := After(fs, steps, k);
    SourceInResult(fs, steps, k, j, g);
    TargetIsFile(fs, steps, k, j, k);
    StaysWellFormed(fs, steps, k);
    RestoreSucceeds(m, g, steps[j].path, steps[j].from);
    if LastWritten(steps, k, j + 1, steps[j].path) {
      LastRestoreStays(fs, steps, k, j);
    }
    RegrowsStep(m, Result(fs, steps), g, steps, k, j);
  }

  // After j steps of the second run.
  ghost predicate RegrownAt(fs: Tree, steps: seq<Step>, k: nat, j: nat)
    requires k <= |steps| && j <= |steps|
  {
    Regrown(After(fs, steps, k), Result(fs, steps), After(Result(fs, steps), steps, j), steps, k, j)
  }

  lemma {:induction false} RegrownNext(fs: Tree, steps: seq<Step>, k: nat, j: nat, next: nat)
    requires FirstRun(fs, steps, k) && SourcesApart(steps) && j < k && RegrownAt(fs, steps, k, j) && next == j + 1
    ensures RegrownAt(fs, steps, k, next)
  {
    RegrowsOne(fs, steps, k, j, After(Result(fs, steps), steps, j));
  }

  lemma {:induction false} RegrownStart(fs: Tree, steps: seq<Step>, k: nat)
    requires FirstRun(fs, steps, k)
    ensures RegrownAt(fs, steps, k, 0)
  {
    ResultWithin(fs, steps, k);
  }

  lemma {:induction false} Regrows(fs: Tree, steps: seq<Step>, k: nat, j: nat)
    requires FirstRun(fs, steps, k) && SourcesApart(steps) && j <= k
    ensures RegrownAt(fs, steps, k, j)
    decreases j
  {
    if j == 0 {
      RegrownStart(fs, steps, k);
    } else {
      var i := j - 1;
      Regrows(fs, steps, k, i);
      RegrownNext(fs, steps, k, i, j);
    }
  }

  /* ---- The removals of the second run ---- */

  ghost predicate Within(a: Tree, b: Tree) {
    forall p :: p in a ==> At(a, p) == At(b, p)
  }

  lemma {:induction false} RemoveAlike(f: Tree, a: Tree, b: Tree, p: Path)
    requires WellFormed(a) && Within(f, b) && Within(b, a)
    requires OutcomeOf(a, Remove(p)) == Kept ==> OutcomeOf(f, Remove(p)) == Kept
    requires OutcomeOf(a, Remove(p)) == Applied ==> p !in f
    requires OutcomeOf(a, Remove(p)) != Failed
    ensures OutcomeOf(b, Remove(p)) == OutcomeOf(a, Remove(p))
    ensures Within(f, Effect(b, Remove(p))) && Within(Effect(b, Remove(p)), Effect(a, Remove(p)))
  {
    if OutcomeOf(a, Remove(p)) == Kept {
      var q :| q in f && |q| == |p| + 1 && p <= q;
      assert At(f, q) == At(b, q) && At(f, p) == At(b, p);
    } else {
      forall q | q in b && ProperPrefix(q, p) ensures b[q].Dir? {
        assert At(b, q) == At(a, q);
        if p in a {
          AboveIsDir(a, q, p);
        }
      }
      if p in b {
        assert At(b, p) == At(a, p);
        if HasChild(b, p) {
          var q :| q in b && |q| == |p| + 1 && p <= q;
          assert At(b, q) == At(a, q);
          FileHasNoChild(a, p);
        }
      }
    }
    forall q
      ensures At(Effect(b, Remove(p)), q) ==
              if OutcomeOf(b, Remove(p)) == Applied && q == p then None else At(b, q)
    {
      RemoveAt(b, p, q);
    }
    forall q
      ensures At(Effect(a, Remove(p)), q) ==
              if OutcomeOf(a, Remove(p)) == Applied && q == p then None else At(a, q)
    {
      RemoveAt(a, p, q);
    }
  }

  // Step i of the second run ends as it did in the first.
  ghost predicate EndsAlike(fs: Tree, steps: seq<Step>, i: nat)
    requires i < |steps|
  {
    OutcomeOf(After(Result(fs, steps), steps, i), steps[i]) == OutcomeOf(After(fs, steps, i), steps[i])
  }

  ghost predicate AllEnd(fs: Tree, steps: seq<Step>, n: nat)
    requires n <= |steps|
  {
    forall i {:trigger EndsAlike(fs, steps, i)} :: 0 <= i < n ==> EndsAlike(fs, steps, i)
  }

  // After n steps the second run has all of the result and nothing the first run lacks.
  ghost predicate WithinAt(fs: Tree, steps: seq<Step>, n: nat)
    requires n <= |steps|
  {
    && Within(Result(fs, steps), After(Result(fs, steps), steps, n))
    && Within(After(Result(fs, steps), steps, n), After(fs, steps, n))
  }

  lemma {:induction false} ShrinksOne(fs: Tree, steps: seq<Step>, k: nat, n: nat, next: nat)
    requires FirstRun(fs, steps, k) && k <= n < |steps|
    requires next == n + 1 && WithinAt(fs, steps, n)
    ensures WithinAt(fs, steps, next) && EndsAlike(fs, steps, n)
  {
    var f, a, b := Result(fs, steps), After(fs, steps, n), After(Result(fs, steps), steps, n);
    NoneFailed(fs, steps, |steps|, n);
    StaysWellFormed(fs, steps, n);
    if steps[n].Remove? {
      if OutcomeOf(a, steps[n]) == Applied {
        RemoveAgainGone(fs, steps, n);
      } else {
        RemoveAgainKept(fs, steps, n);
      }
      RemoveAlike(f, a, b, steps[n].path);
    }
  }

  // Where the restores end, the second run has what the first had.
  lemma {:induction false} ShrinksFrom(fs: Tree, steps: seq<Step>, k: nat)
    requires FirstRun(fs, steps, k) && SourcesApart(steps)
    ensures WithinAt(fs, steps, k)
  {
    var f := Result(fs, steps);
    Regrows(fs, steps, k, k);
    forall p | p in f ensures At(f, p) == At(After(f, steps, k), p) {
      RemovesOnlyShrink(fs, steps, k, |steps|, p);
      assert LastWritten(steps, k, k, p);
    }
    forall p | p in After(f, steps, k) ensures At(After(f, steps, k), p) == At(After(fs, steps, k), p) {
      assert LastWritten(steps, k, k, p);
    }
  }

  lemma {:induction false} Shrinks(fs: Tree, steps: seq<Step>, k: nat, n: nat)
    requires FirstRun(fs, steps, k) && SourcesApart(steps) && k <= n <= |steps|
    ensures WithinAt(fs, steps, n)
    decreases n
  {
    if n == k {
      ShrinksFrom(fs, steps, k);
    } else {
      var i := n - 1;
      Shrinks(fs, steps, k, i);
      ShrinksOne(fs, steps, k, i, n);
    }
  }

  lemma {:induction false} AllEndAlike(fs: Tree, steps: seq<Step>, k: nat, i: nat)
    requires FirstRun(fs, steps, k) && SourcesApart(steps) && i < |steps|
    ensures EndsAlike(fs, steps, i)
  {
    if i < k {
      NoneFailed(fs, steps, |steps|, i);
      Regrows(fs, steps, k, i);
      RegrowsOne(fs, steps, k, i, After(Result(fs, steps), steps, i));
    } else {
      Shrinks(fs, steps, k, i);
      ShrinksOne(fs, steps, k, i, i + 1);
    }
  }

  lemma {:induction false} SameCount(fs: Tree, steps: seq<Step>, n: nat, o: Outcome)
    requires n <= |steps|
    requires AllEnd(fs, steps, n)
    ensures Count(Result(fs, steps), steps, n, o) == Count(fs, steps, n, o)
  {
    if n > 0 {
      var i := n - 1;
      SameCount(fs, steps, i, o);
      assert EndsAlike(fs, steps, i);
      CountNext(fs, Result(fs, steps), steps, i, n, o);
    }
  }

  /** Re-applying is safe when no step names a source: the second run ends on the
   *  same tree and reports the same three numbers, even when paths repeat.
   */
  lemma {:induction false} ApplyTwice(fs: Tree, steps: seq<Step>)
    requires WellFormed(fs) && SafeOrder(steps) && SourcesApart(steps)
    requires Total(fs, steps, Failed) == 0
    ensures Result(Result(fs, steps), steps) == Result(fs, steps)
    ensures forall o :: Total(Result(fs, steps), steps, o) == Total(fs, steps, o)
  {
    var k := RestoresEnd(steps);
    RestoresEndThere(steps);
    var f := Result(fs, steps);
    Shrinks(fs, steps, k, |steps|);
    forall p ensures At(Result(f, steps), p) == At(f, p) {
      assert p in f ==> At(f, p) == At(Result(f, steps), p);
      assert p in Result(f, steps) ==> At(Result(f, steps), p) == At(f, p);
    }
    SameTree(Result(f, steps), f);
    forall i | 0 <= i < |steps| ensures EndsAlike(fs, steps, i) {
      AllEndAlike(fs, steps, k, i);
    }
    forall o ensures Total(f, steps, o) == Total(fs, steps, o) {
      SameCount(fs, steps, |steps|, o);
    }
  }

  /* ---- From the plan alone ---- */

  // No restore writes what a restore copies from.
  ghost predicate NoSourceRestored(steps: seq<Step>) {
    forall i, j :: 0 <= i < |steps| && 0 <= j < |steps| && steps[i].Restore? && steps[j].Restore? ==>
      steps[i].path != steps[j].from
  }

  ghost predicate NoSourceRemoved(steps: seq<Step>) {
    forall i, j :: 0 <= i < |steps| && 0 <= j < |steps| && steps[i].Remove? && steps[j].Restore? ==>
      steps[i].path != steps[j].from
  }

  // A source that a step removes is gone after the first run.
  lemma {:induction false} RemovedSourceIsGone(fs: Tree, steps: seq<Step>, k: nat, i: nat, j: nat)
    requires FirstRun(fs, steps, k) && NoSourceRestored(steps)
    requires j < k <= i < |steps| && steps[i] == Remove(steps[j].from)
    ensures steps[j].from !in Result(fs, steps)
  {
    var x, was := steps[j].from, After(fs, steps, j);
    NoneFailed(fs, steps, |steps|, j);
    if steps[j].path != [] {
      AtMakeDirs(was, Parent(steps[j].path), x);
    }
    FileSurvives(fs, steps, j, k, x);
    RemovesOnlyShrink(fs, steps, k, i, x);
    NoneFailed(fs, steps, |steps|, i);
    RemoveAgainGone(fs, steps, i);
  }

  // And then the restore that needs it fails.
  lemma {:induction false} MissingSourceFails(f: Tree, steps: seq<Step>, k: nat, j: nat)
    requires WellFormed(f) && NoSourceRestored(steps)
    requires j < k <= |steps| && forall i :: 0 <= i < k ==> steps[i].Restore?
    requires steps[j].from !in f
    ensures Total(f, steps, Failed) > 0
  {
    var x, was := steps[j].from, After(f, steps, j);
    Frame(f, steps, j, x);
    if steps[j].path != [] {
      AtMakeDirs(was, Parent(steps[j].path), x);
    }
    assert OutcomeOf(was, steps[j]) == Failed;
    if Total(f, steps, Failed) == 0 {
      NoneFailed(f, steps, |steps|, j);
    }
  }

  /** Where no restore writes a source, the plan alone decides: after a first run
   *  without failures the second is idle and without failures if and only if no
   *  removal names a source.
   */
  lemma {:induction false} PlanDecidesReapply(fs: Tree, steps: seq<Step>)
    requires WellFormed(fs) && SafeOrder(steps) && NoSourceRestored(steps)
    requires Total(fs, steps, Failed) == 0
    ensures var f := Result(fs, steps);
            Result(f, steps) == f && Total(f, steps, Failed) == 0 <==> NoSourceRemoved(steps)
  {
    if NoSourceRemoved(steps) {
      ApplyTwice(fs, steps);
    } else {
      var k := RestoresEnd(steps);
      RestoresEndThere(steps);
      var i, j :| 0 <= i < |steps| && 0 <= j < |steps| && steps[i].Remove? && steps[j].Restore?
                  && steps[i].path == steps[j].from;
      RemovedSourceIsGone(fs, steps, k, i, j);
      StaysWellFormed(fs, steps, |steps|);
      MissingSourceFails(Result(fs, steps), steps, k, j);
    }
  }
}
