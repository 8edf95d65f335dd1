/** How each step of an undo ends and what it does, in terms of the tree alone. */
module Outcomes {
  import opened Wrappers
  import opened FileTree
  import opened Revert
  import opened PlanProperties
  import opened Apply
  import opened Undo

  // Nothing above the path is a file.
  ghost predicate WayIsClear(fs: Tree, path: Path) {
    forall p :: p in fs && p <= path && p != path ==> fs[p] == Dir
  }

  ghost predicate HoldsSomething(fs: Tree, path: Path) {
    exists q :: q in fs && |q| == |path| + 1 && q[..|path|] == path
  }

  lemma {:induction false} ReadyIsClear(fs: Tree, path: Path)
    ensures ParentReady(fs, path) <==> WayIsClear(fs, path)
  {
    if path != [] {
      forall p ensures p <= Parent(path) <==> ProperPrefix(p, path) {
        ParentPrefix(p, path);
      }
    }
  }

  /** A restore succeeds exactly when the way is clear, the source is a file and the target
   *  is no directory; then the target holds the source's bytes, or none if they are one
   *  path, and everything above it is a directory. When it fails, directories may have
   *  been made, and nothing else.
   */
  lemma {:induction false} RestoreDoes(fs: Tree, path: Path, from: Path)
    ensures var f := Effect(fs, Restore(path, from));
            var goes := WayIsClear(fs, path) && from in fs && fs[from] != Dir && (path in fs ==> fs[path] != Dir);
            && OutcomeOf(fs, Restore(path, from)) == (if goes then Applied else Failed)
            && forall p :: At(f, p) ==
                 if goes && p == path then Some(if from == path then File("") else fs[from])
                 else if WayIsClear(fs, path) && p <= path && p != path then Some(Dir)
                 else if p in fs then Some(fs[p]) else None
  {
    ReadyIsClear(fs, path);
    forall p ensures At(Effect(fs, Restore(path, from)), p) ==
                     if OutcomeOf(fs, Restore(path, from)) == Applied && p == path then Some(Contents(fs, path, from))
                     else if ParentReady(fs, path) && ProperPrefix(p, path) then Some(Dir)
                     else At(fs, p)
    {
      RestoreAt(fs, path, from, p);
    }
    if path != [] {
      AtMakeDirs(fs, Parent(path), from);
      AtMakeDirs(fs, Parent(path), path);
      ParentPrefix(from, path);
      ParentPrefix(path, path);
    }
  }

  /** A removal takes a file, an empty directory other than the root, or what is already
   *  gone; it keeps a directory that still holds something, and fails only at the root or
   *  below a file. Nothing but its own path changes.
   */
  lemma {:induction false} RemoveDoes(fs: Tree, path: Path)
    ensures var f, o := Effect(fs, Remove(path)), OutcomeOf(fs, Remove(path));
            && o == (if path !in fs then (if WayIsClear(fs, path) then Applied else Failed)
                     else if fs[path] != Dir then Applied
                     else if HoldsSomething(fs, path) then Kept
                     else if path == [] then Failed else Applied)
            && f == if o == Applied then map p | p in fs && p != path :: fs[p] else fs
  {
    assert BelowFile(fs, path) <==> !WayIsClear(fs, path) by {
      if q :| q in fs && q <= path && q != path && fs[q] != Dir {
        assert q in fs && ProperPrefix(q, path) && fs[q].File?;
      }
    }
    assert HasChild(fs, path) <==> HoldsSomething(fs, path) by {
      if q :| q in fs && |q| == |path| + 1 && q[..|path|] == path {
        assert path <= q;
      }
      if q :| q in fs && |q| == |path| + 1 && path <= q {
        assert q[..|path|] == path;
      }
    }
  }

  predicate EndsSo(fs: Tree, steps: seq<Step>, i: nat, o: Outcome)
    requires i < |steps|
  {
    OutcomeOf(After(fs, steps, i), steps[i]) == o
  }

  // The steps that ended this way.
  ghost function Ended(fs: Tree, steps: seq<Step>, n: nat, o: Outcome): set<nat>
    requires n <= |steps|
  {
    set i: nat | i < n && EndsSo(fs, steps, i, o)
  }

  lemma {:induction false} EndedNext(fs: Tree, steps: seq<Step>, k: nat, n: nat, o: Outcome)
    requires k < |steps| && n == k + 1
    ensures Ended(fs, steps, n, o) == Ended(fs, steps, k, o) + if EndsSo(fs, steps, k, o) then {k} else {}
    ensures k !in Ended(fs, steps, k, o)
    ensures Count(fs, steps, n, o) == Count(fs, steps, k, o) + if EndsSo(fs, steps, k, o) then 1 else 0
  {
  }

  /** Each number the loop reports is how many steps ended that way, each in the tree the
   *  steps before it left.
   */
  lemma {:induction false} CountsAreSizes(fs: Tree, steps: seq<Step>, n: nat, o: Outcome)
    requires n <= |steps|
    ensures Count(fs, steps, n, o) == |Ended(fs, steps, n, o)|
  {
    if n == 0 {
      assert Ended(fs, steps, n, o) == {};
    } else {
      var k := n - 1;
      var before, after := Ended(fs, steps, k, o), Ended(fs, steps, n, o);
      CountsAreSizes(fs, steps, k, o);
      EndedNext(fs, steps, k, n, o);
      assert |after| == |before| + if EndsSo(fs, steps, k, o) then 1 else 0;
    }
  }

  /* ---- The order of a plan ---- */

  /** The safe order in plain words: no restore after anything else, no skip before
   *  anything else, and of two removals never the deeper one second.
   */
  lemma {:induction false} SafeOrderMeans(steps: seq<Step>)
    ensures SafeOrder(steps) <==>
            forall i, j :: 0 <= i < j < |steps| ==>
              && (steps[j].Restore? ==> steps[i].Restore?)
              && (steps[i].Skip? ==> steps[j].Skip?)
              && (steps[i].Remove? && steps[j].Remove? ==> |steps[i].path| >= |steps[j].path|)
  {
    forall s: Step, t: Step
      ensures Rank(s) <= Rank(t) <==> (t.Restore? ==> s.Restore?) && (s.Skip? ==> t.Skip?)
    {
    }
  }
}
