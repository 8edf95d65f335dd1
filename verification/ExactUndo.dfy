/** When undoing brings the live tree back to the snapshot exactly. */
module ExactUndo {
  import opened Wrappers
  import opened FileTree
  import opened Revert
  import opened PlanProperties
  import opened Apply
  import opened Undo

  function Live(fs: Tree, c: Setting, r: Path): Option<Entry> {
    At(fs, c.liveRoot + r)
  }

  function Snap(fs: Tree, c: Setting, snap: string, r: Path): Option<Entry> {
    At(fs, c.snapRoot + [snap] + r)
  }

  // The part of the live tree that is not the snapshot store itself.
  ghost predicate InScope(c: Setting, r: Path) {
    !(c.snapRoot <= c.liveRoot + r)
  }

  ghost predicate ClearOfStore(c: Setting, p: Path) {
    !(c.snapRoot <= p) && !(p <= c.snapRoot)
  }

  // The step follows this snapshot, writes nothing in the snapshot store and removes
  // nothing above it.
  ghost predicate Follows(fs: Tree, c: Setting, snap: string, step: Step) {
    && c.liveRoot <= step.path
    && !(c.snapRoot <= step.path)
    && (step.Remove? ==> ClearOfStore(c, step.path))
    && match step
       case Restore(path, from) => from == PreImage(c, snap, path) && from in fs
       case Remove(path) => PreImage(c, snap, path) !in fs
       case Skip(_, _) => false
  }

  ghost predicate Planned(c: Setting, steps: seq<Step>, r: Path) {
    exists i :: 0 <= i < |steps| && steps[i].path == c.liveRoot + r
  }

  ghost predicate SameKind(a: Option<Entry>, b: Option<Entry>) {
    a.Some? && b.Some? ==> (a.value.Dir? <==> b.value.Dir?)
  }

  // One snapshot is the pre-image of every touch, none is skipped, the live tree
  // differs from it at touched paths only, and no file became a directory or back.
  ghost predicate Undoable(fs: Tree, c: Setting, snap: string, steps: seq<Step>) {
    && WellFormed(fs)
    && SafeOrder(steps)
    && At(fs, c.liveRoot) == Some(Dir)
    && At(fs, c.snapRoot + [snap]) == Some(Dir)
    && (forall i :: 0 <= i < |steps| ==> Follows(fs, c, snap, steps[i]))
    && (forall r :: InScope(c, r) ==> Live(fs, c, r) == Snap(fs, c, snap, r) || Planned(c, steps, r))
    && (forall r :: InScope(c, r) ==> SameKind(Live(fs, c, r), Snap(fs, c, snap, r)))
  }

  // What every intermediate tree keeps.
  ghost predicate Midway(fs: Tree, f: Tree, c: Setting, snap: string) {
    && WellFormed(f)
    && (forall p :: c.snapRoot <= p ==> At(f, p) == At(fs, p))
    && (forall r :: InScope(c, r) ==> Live(f, c, r) == Live(fs, c, r) || Live(f, c, r) == Snap(fs, c, snap, r))
  }

  lemma {:induction false} SnapParentIsDir(fs: Tree, c: Setting, snap: string, r: Path, q: Path)
    requires WellFormed(fs)
    requires Snap(fs, c, snap, q).Some?
    requires ProperPrefix(r, q)
    ensures Snap(fs, c, snap, r) == Some(Dir)
  {
    var base := c.snapRoot + [snap];
    assert base + r <= base + q;
    AboveIsDir(fs, base + r, base + q);
  }

  lemma {:induction false} PreImageIsSnap(fs: Tree, c: Setting, snap: string, path: Path, r: Path)
    requires path == c.liveRoot + r
    ensures PreImage(c, snap, path) == c.snapRoot + [snap] + r
    ensures Snap(fs, c, snap, r) == At(fs, PreImage(c, snap, path))
  {
    assert path[|c.liveRoot|..] == r;
  }

  // Where a proper prefix of a step's path can lie: in the live tree or above it.
  lemma {:induction false} AboveTarget(fs: Tree, f: Tree, c: Setting, snap: string, steps: seq<Step>, i: nat, p: Path)
    requires Undoable(fs, c, snap, steps) && Midway(fs, f, c, snap)
    requires i < |steps| && steps[i].Restore?
    requires ProperPrefix(p, steps[i].path)
    ensures !(c.snapRoot <= p)
    ensures c.liveRoot <= p ==> InScope(c, p[|c.liveRoot|..]) && Snap(fs, c, snap, p[|c.liveRoot|..]) == Some(Dir)
    ensures !(c.liveRoot <= p) ==> At(f, p) == Some(Dir)
    ensures At(f, p) == None || At(f, p) == Some(Dir)
  {
    var path := steps[i].path;
    assert Follows(fs, c, snap, steps[i]);
    var q := path[|c.liveRoot|..];
    assert path == c.liveRoot + q;
    PreImageIsSnap(fs, c, snap, path, q);
    if c.liveRoot <= p {
      var r := p[|c.liveRoot|..];
      assert p == c.liveRoot + r;
      assert ProperPrefix(r, q);
      SnapParentIsDir(fs, c, snap, r, q);
      assert SameKind(Live(fs, c, r), Snap(fs, c, snap, r));
    } else {
      RootStays(fs, f, c, snap);
      AboveIsDir(f, p, c.liveRoot);
    }
  }

  lemma {:induction false} RootStays(fs: Tree, f: Tree, c: Setting, snap: string)
    requires WellFormed(fs) && Midway(fs, f, c, snap)
    requires At(fs, c.liveRoot) == Some(Dir) && At(fs, c.snapRoot + [snap]) == Some(Dir)
    ensures At(f, c.liveRoot) == Some(Dir)
  {
    assert c.liveRoot + [] == c.liveRoot;
    assert c.snapRoot + [snap] + [] == c.snapRoot + [snap];
    if InScope(c, []) {
      assert Live(f, c, []) == Live(fs, c, []) || Live(f, c, []) == Snap(fs, c, snap, []);
    }
  }

  // A restore step: parents ready, and a snapshot file always gets through.
  lemma {:induction false} RestoreWorks(fs: Tree, f: Tree, c: Setting, snap: string, steps: seq<Step>, i: nat, q: Path)
    requires Undoable(fs, c, snap, steps) && Midway(fs, f, c, snap)
    requires i < |steps| && steps[i].Restore? && steps[i].path == c.liveRoot + q
    ensures InScope(c, q) && Snap(fs, c, snap, q).Some?
    ensures ParentReady(f, steps[i].path)
    ensures OutcomeOf(f, steps[i]) == Applied <==> Snap(fs, c, snap, q).value.File?
    ensures OutcomeOf(f, steps[i]) == Applied ==>
              Some(Contents(f, steps[i].path, steps[i].from)) == Snap(fs, c, snap, q)
  {
    var path, from := steps[i].path, steps[i].from;
    assert Follows(fs, c, snap, steps[i]);
    PreImageIsSnap(fs, c, snap, path, q);
    forall p | ProperPrefix(p, path) ensures At(f, p) == None || At(f, p) == Some(Dir) {
      AboveTarget(fs, f, c, snap, steps, i, p);
    }
    if path != [] {
      forall p | p in f && p <= Parent(path) ensures f[p].Dir? {
        ParentPrefix(p, path);
      }
      AtMakeDirs(f, Parent(path), from);
      ParentPrefix(from, path);
      AtMakeDirs(f, Parent(path), path);
      assert !ProperPrefix(path, path);
      ParentPrefix(path, path);
    }
    assert c.snapRoot <= from;
    assert At(WithParents(f, path), from) == At(fs, from);
    assert SameKind(Live(fs, c, q), Snap(fs, c, snap, q));
  }

  lemma {:induction false} RestoreMidway(fs: Tree, f: Tree, c: Setting, snap: string, steps: seq<Step>, i: nat)
    requires Undoable(fs, c, snap, steps) && Midway(fs, f, c, snap)
    requires i < |steps| && steps[i].Restore?
    ensures Midway(fs, Effect(f, steps[i]), c, snap)
    ensures forall r :: InScope(c, r) && Live(f, c, r) == Snap(fs, c, snap, r) ==>
              Live(Effect(f, steps[i]), c, r) == Snap(fs, c, snap, r)
    ensures forall r :: ProperPrefix(c.liveRoot + r, steps[i].path) ==> Live(Effect(f, steps[i]), c, r) == Some(Dir)
  {
    var path, from := steps[i].path, steps[i].from;
    var g := Effect(f, steps[i]);
    assert Follows(fs, c, snap, steps[i]);
    var q := path[|c.liveRoot|..];
    assert path == c.liveRoot + q;
    RestoreWorks(fs, f, c, snap, steps, i, q);
    RestoreWellFormed(f, path, from);
    forall p | c.snapRoot <= p ensures At(g, p) == At(fs, p) {
      RestoreAt(f, path, from, p);
      if ProperPrefix(p, path) {
        AboveTarget(fs, f, c, snap, steps, i, p);
      }
    }
    forall r | InScope(c, r)
      ensures Live(g, c, r) == Live(f, c, r) || Live(g, c, r) == Snap(fs, c, snap, r)
    {
      RestoreAt(f, path, from, c.liveRoot + r);
      if ProperPrefix(c.liveRoot + r, path) {
        AboveTarget(fs, f, c, snap, steps, i, c.liveRoot + r);
        assert (c.liveRoot + r)[|c.liveRoot|..] == r;
      } else if c.liveRoot + r == path {
        assert r == q;
      }
    }
    forall r | ProperPrefix(c.liveRoot + r, path) ensures Live(g, c, r) == Some(Dir) {
      RestoreAt(f, path, from, c.liveRoot + r);
    }
  }

  lemma {:induction false} RemoveMidway(fs: Tree, f: Tree, c: Setting, snap: string, steps: seq<Step>, i: nat)
    requires Undoable(fs, c, snap, steps) && Midway(fs, f, c, snap)
    requires i < |steps| && steps[i].Remove?
    ensures Midway(fs, Effect(f, steps[i]), c, snap)
    ensures forall r :: InScope(c, r) && Live(f, c, r) == Snap(fs, c, snap, r) ==>
              Live(Effect(f, steps[i]), c, r) == Snap(fs, c, snap, r)
  {
    var path := steps[i].path;
    var g := Effect(f, steps[i]);
    assert Follows(fs, c, snap, steps[i]);
    RemoveWellFormed(f, path);
    forall p ensures At(g, p) == At(f, p) || (p == path && At(g, p) == None) {
      RemoveAt(f, path, p);
    }
    forall r | c.liveRoot + r == path ensures Snap(fs, c, snap, r) == None {
      PreImageIsSnap(fs, c, snap, path, r);
    }
  }

  lemma {:induction false} AlwaysMidway(fs: Tree, c: Setting, snap: string, steps: seq<Step>, n: nat)
    requires Undoable(fs, c, snap, steps)
    requires n <= |steps|
    ensures Midway(fs, After(fs, steps, n), c, snap)
  {
    if n > 0 {
      AlwaysMidway(fs, c, snap, steps, n - 1);
      NextMidway(fs, c, snap, steps, n - 1, n);
    }
  }

  lemma {:induction false} NextMidway(fs: Tree, c: Setting, snap: string, steps: seq<Step>, i: nat, next: nat)
    requires Undoable(fs, c, snap, steps)
    requires i < |steps| && next == i + 1 && Midway(fs, After(fs, steps, i), c, snap)
    ensures Midway(fs, After(fs, steps, next), c, snap)
  {
    StepMidway(fs, After(fs, steps, i), c, snap, steps, i);
  }

  lemma {:induction false} StepMidway(fs: Tree, f: Tree, c: Setting, snap: string, steps: seq<Step>, i: nat)
    requires Undoable(fs, c, snap, steps) && Midway(fs, f, c, snap)
    requires i < |steps|
    ensures Midway(fs, Effect(f, steps[i]), c, snap)
    ensures forall r :: InScope(c, r) && Live(f, c, r) == Snap(fs, c, snap, r) ==>
              Live(Effect(f, steps[i]), c, r) == Snap(fs, c, snap, r)
  {
    assert Follows(fs, c, snap, steps[i]);
    if steps[i].Restore? {
      RestoreMidway(fs, f, c, snap, steps, i);
    } else {
      RemoveMidway(fs, f, c, snap, steps, i);
    }
  }

  lemma {:induction false} StepAgrees(fs: Tree, c: Setting, snap: string, steps: seq<Step>,
                                      i: nat, next: nat, r: Path)
    requires Undoable(fs, c, snap, steps)
    requires i < |steps| && next == i + 1 && InScope(c, r)
    ensures Live(After(fs, steps, i), c, r) == Snap(fs, c, snap, r) ==>
              Live(After(fs, steps, next), c, r) == Snap(fs, c, snap, r)
  {
    AlwaysMidway(fs, c, snap, steps, i);
    StepMidway(fs, After(fs, steps, i), c, snap, steps, i);
  }

  // A path that agrees with the snapshot goes on agreeing.
  lemma {:induction false} AgreementStays(fs: Tree, c: Setting, snap: string, steps: seq<Step>, m: nat, n: nat, r: Path)
    requires Undoable(fs, c, snap, steps)
    requires m <= n <= |steps|
    requires InScope(c, r)
    requires Live(After(fs, steps, m), c, r) == Snap(fs, c, snap, r)
    ensures Live(After(fs, steps, n), c, r) == Snap(fs, c, snap, r)
  {
    if m < n {
      var i := n - 1;
      AgreementStays(fs, c, snap, steps, m, i, r);
      StepAgrees(fs, c, snap, steps, i, n, r);
    }
  }

  /* ---- Removals ---- */

  // Whatever still sits in a directory about to go was removed before: it is deeper.
  lemma {:induction false} RemovalSucceeds(fs: Tree, c: Setting, snap: string, steps: seq<Step>,
                                           i: nat, next: nat, r: Path)
    requires Undoable(fs, c, snap, steps)
    requires i < |steps| && next == i + 1 && steps[i] == Remove(c.liveRoot + r)
    ensures InScope(c, r)
    ensures Live(After(fs, steps, next), c, r) == None
    decreases i, 1
  {
    var path := c.liveRoot + r;
    assert Follows(fs, c, snap, steps[i]);
    PreImageIsSnap(fs, c, snap, path, r);
    assert path != [] by {
      assert path == [] ==> c.liveRoot == [] && r == [] && path <= c.snapRoot;
    }
    forall q | |q| == |path| + 1 && path <= q ensures q !in After(fs, steps, i) {
      var rel := q[|c.liveRoot|..];
      assert q == c.liveRoot + rel && r <= rel;
      ChildWasRemoved(fs, c, snap, steps, i, r, rel);
    }
    EmptyGoes(fs, steps, i, next, path);
  }

  lemma {:induction false} EmptyGoes(fs: Tree, steps: seq<Step>, i: nat, next: nat, path: Path)
    requires i < |steps| && next == i + 1 && steps[i] == Remove(path) && path != []
    requires forall q :: |q| == |path| + 1 && path <= q ==> q !in After(fs, steps, i)
    ensures At(After(fs, steps, next), path) == None
  {
    RemoveAt(After(fs, steps, i), path, path);
  }

  lemma {:induction false} ChildWasRemoved(fs: Tree, c: Setting, snap: string, steps: seq<Step>, i: nat, r: Path,
                                           q: Path)
    requires Undoable(fs, c, snap, steps)
    requires i < |steps| && steps[i] == Remove(c.liveRoot + r)
    requires |q| == |r| + 1 && r <= q
    ensures Live(After(fs, steps, i), c, q) == None
    decreases i, 0
  {
    NothingInSnap(fs, c, snap, steps, i, r, q);
    if Live(fs, c, q).Some? {
      var j := RemovedEarlier(fs, c, snap, steps, i, r, q);
      var next := j + 1;
      RemovalSucceeds(fs, c, snap, steps, j, next, q);
      AgreementStays(fs, c, snap, steps, next, i, q);
    } else {
      AlwaysMidway(fs, c, snap, steps, i);
    }
  }

  // A directory that goes has nothing inside in the snapshot.
  lemma {:induction false} NothingInSnap(fs: Tree, c: Setting, snap: string, steps: seq<Step>, i: nat, r: Path, q: Path)
    requires Undoable(fs, c, snap, steps)
    requires i < |steps| && steps[i] == Remove(c.liveRoot + r)
    requires |q| == |r| + 1 && r <= q
    ensures InScope(c, q) && Snap(fs, c, snap, q) == None
  {
    assert Follows(fs, c, snap, steps[i]);
    PreImageIsSnap(fs, c, snap, c.liveRoot + r, r);
    if Snap(fs, c, snap, q).Some? {
      SnapParentIsDir(fs, c, snap, r, q);
    }
  }

  // The removal of what sits in a directory comes before the directory's own.
  lemma {:induction false} RemovedEarlier(fs: Tree, c: Setting, snap: string, steps: seq<Step>, i: nat, r: Path,
                                          q: Path)
    returns (j: nat)
    requires Undoable(fs, c, snap, steps)
    requires i < |steps| && steps[i] == Remove(c.liveRoot + r)
    requires |q| == |r| + 1 && InScope(c, q) && Live(fs, c, q).Some? && Snap(fs, c, snap, q) == None
    ensures j < i && steps[j] == Remove(c.liveRoot + q)
  {
    j :| 0 <= j < |steps| && steps[j].path == c.liveRoot + q;
    assert Follows(fs, c, snap, steps[j]);
    PreImageIsSnap(fs, c, snap, c.liveRoot + q, q);
  }

  /* ---- The theorem ---- */

  // A directory the live tree lost and that the snapshot holds empty.
  ghost predicate LostEmptyDir(fs: Tree, c: Setting, snap: string, r: Path) {
    && InScope(c, r)
    && Live(fs, c, r) == None
    && Snap(fs, c, snap, r) == Some(Dir)
    && forall q :: |q| == |r| + 1 && r <= q ==> Snap(fs, c, snap, q) == None
  }

  ghost predicate Restored(fs: Tree, f: Tree, c: Setting, snap: string) {
    forall r :: InScope(c, r) ==> Live(f, c, r) == Snap(fs, c, snap, r)
  }

  lemma {:induction false} RestoreLands(fs: Tree, c: Setting, snap: string, steps: seq<Step>, r: Path, i: nat)
    requires Undoable(fs, c, snap, steps)
    requires InScope(c, r) && Snap(fs, c, snap, r).Some? && Snap(fs, c, snap, r).value.File?
    requires i < |steps| && steps[i].path == c.liveRoot + r
    ensures Live(After(fs, steps, i + 1), c, r) == Snap(fs, c, snap, r)
  {
    assert Follows(fs, c, snap, steps[i]);
    PreImageIsSnap(fs, c, snap, c.liveRoot + r, r);
    AlwaysMidway(fs, c, snap, steps, i);
    RestoreWorks(fs, After(fs, steps, i), c, snap, steps, i, r);
    RestoreAt(After(fs, steps, i), steps[i].path, steps[i].from, steps[i].path);
  }

  lemma {:induction false} RestoredFile(fs: Tree, c: Setting, snap: string, steps: seq<Step>, r: Path)
    requires Undoable(fs, c, snap, steps)
    requires InScope(c, r) && Snap(fs, c, snap, r).Some? && Snap(fs, c, snap, r).value.File?
    ensures Live(Result(fs, steps), c, r) == Snap(fs, c, snap, r)
  {
    if Live(fs, c, r) == Snap(fs, c, snap, r) {
      AgreementStays(fs, c, snap, steps, 0, |steps|, r);
    } else {
      var i :| 0 <= i < |steps| && steps[i].path == c.liveRoot + r;
      RestoreLands(fs, c, snap, steps, r, i);
      AgreementStays(fs, c, snap, steps, i + 1, |steps|, r);
    }
  }

  lemma {:induction false} RestoreMakesParent(fs: Tree, c: Setting, snap: string, steps: seq<Step>,
                                             r: Path, q: Path, i: nat)
    requires Undoable(fs, c, snap, steps)
    requires InScope(c, r) && Live(fs, c, r) == None && Snap(fs, c, snap, r) == Some(Dir)
    requires |q| == |r| + 1 && r <= q && Snap(fs, c, snap, q).Some?
    requires i < |steps| && steps[i].path == c.liveRoot + q
    ensures Live(After(fs, steps, i + 1), c, r) == Snap(fs, c, snap, r)
  {
    assert Follows(fs, c, snap, steps[i]);
    PreImageIsSnap(fs, c, snap, c.liveRoot + q, q);
    AlwaysMidway(fs, c, snap, steps, i);
    assert ProperPrefix(c.liveRoot + r, steps[i].path);
    RestoreMidway(fs, After(fs, steps, i), c, snap, steps, i);
  }

  lemma {:induction false} RestoredDir(fs: Tree, c: Setting, snap: string, steps: seq<Step>, r: Path)
    requires Undoable(fs, c, snap, steps)
    requires InScope(c, r) && Snap(fs, c, snap, r) == Some(Dir)
    requires !LostEmptyDir(fs, c, snap, r)
    ensures Live(Result(fs, steps), c, r) == Snap(fs, c, snap, r)
  {
    if Live(fs, c, r).Some? {
      assert SameKind(Live(fs, c, r), Snap(fs, c, snap, r));
      AgreementStays(fs, c, snap, steps, 0, |steps|, r);
    } else {
      var q :| |q| == |r| + 1 && r <= q && Snap(fs, c, snap, q).Some?;
      LostChildIsTouched(fs, c, snap, steps, r, q);
      var i :| 0 <= i < |steps| && steps[i].path == c.liveRoot + q;
      RestoreMakesParent(fs, c, snap, steps, r, q, i);
      AgreementStays(fs, c, snap, steps, i + 1, |steps|, r);
    }
  }

  lemma {:induction false} LostChildIsTouched(fs: Tree, c: Setting, snap: string, steps: seq<Step>, r: Path, q: Path)
    requires Undoable(fs, c, snap, steps)
    requires InScope(c, r) && Live(fs, c, r) == None
    requires |q| == |r| + 1 && r <= q && Snap(fs, c, snap, q).Some?
    ensures Planned(c, steps, q)
  {
    var up, p := c.liveRoot + r, c.liveRoot + q;
    assert up <= p;
    if p in fs {
      AboveIsDir(fs, up, p);
    }
    assert c.snapRoot <= p ==> c.snapRoot == p;
    assert ProperPrefix(c.snapRoot, c.snapRoot + [snap]);
    AboveIsDir(fs, c.snapRoot, c.snapRoot + [snap]);
  }

  lemma {:induction false} RemovedExtra(fs: Tree, c: Setting, snap: string, steps: seq<Step>, r: Path)
    requires Undoable(fs, c, snap, steps)
    requires InScope(c, r) && Snap(fs, c, snap, r) == None
    ensures Live(Result(fs, steps), c, r) == None
  {
    if Live(fs, c, r) == None {
      AgreementStays(fs, c, snap, steps, 0, |steps|, r);
    } else {
      var i :| 0 <= i < |steps| && steps[i].path == c.liveRoot + r;
      assert Follows(fs, c, snap, steps[i]);
      PreImageIsSnap(fs, c, snap, c.liveRoot + r, r);
      RemovalSucceeds(fs, c, snap, steps, i, i + 1, r);
      AgreementStays(fs, c, snap, steps, i + 1, |steps|, r);
    }
  }

  // A directory created for a restore has a child in the snapshot.
  lemma {:induction false} MadeForMeansChild(fs: Tree, c: Setting, snap: string, steps: seq<Step>, r: Path, i: nat)
    returns (child: Path)
    requires Undoable(fs, c, snap, steps)
    requires i < |steps| && MadeFor(steps, i, c.liveRoot + r)
    ensures |child| == |r| + 1 && r <= child && Snap(fs, c, snap, child).Some?
  {
    var path := steps[i].path;
    assert Follows(fs, c, snap, steps[i]);
    var q := path[|c.liveRoot|..];
    assert path == c.liveRoot + q;
    PreImageIsSnap(fs, c, snap, path, q);
    child := q[..|r| + 1];
    assert r <= child <= q;
    if child != q {
      SnapParentIsDir(fs, c, snap, child, q);
    }
  }

  lemma {:induction false} EmptyDirStaysLost(fs: Tree, c: Setting, snap: string, steps: seq<Step>, r: Path)
    requires Undoable(fs, c, snap, steps)
    requires LostEmptyDir(fs, c, snap, r)
    ensures Live(Result(fs, steps), c, r) == None
  {
    Frame(fs, steps, |steps|, c.liveRoot + r);
    AlwaysMidway(fs, c, snap, steps, |steps|);
    assert Live(Result(fs, steps), c, r) == None || Live(Result(fs, steps), c, r) == Some(Dir);
    forall i | 0 <= i < |steps| ensures !MadeFor(steps, i, c.liveRoot + r) {
      if MadeFor(steps, i, c.liveRoot + r) {
        var _ := MadeForMeansChild(fs, c, snap, steps, r, i);
      }
    }
  }

  /** What an undo leaves at every path: the snapshot's entry, except that a lost
   *  empty directory stays lost.  (A copy cannot recreate it, and no file below it
   *  makes the undo create it on the way.)
   */
  lemma {:induction false} UndoLeaves(fs: Tree, c: Setting, snap: string, steps: seq<Step>, r: Path)
    requires Undoable(fs, c, snap, steps) && InScope(c, r)
    ensures Live(Result(fs, steps), c, r) == if LostEmptyDir(fs, c, snap, r) then None else Snap(fs, c, snap, r)
  {
    if LostEmptyDir(fs, c, snap, r) {
      EmptyDirStaysLost(fs, c, snap, steps, r);
    } else {
      match Snap(fs, c, snap, r) {
        case None => RemovedExtra(fs, c, snap, steps, r);
        case Some(File(_)) => RestoredFile(fs, c, snap, steps, r);
        case Some(Dir) => RestoredDir(fs, c, snap, steps, r);
      }
    }
  }

  /** Undo is exact, with its exact condition: the live tree ends equal to the
   *  snapshot if and only if it had lost no directory that the snapshot holds
   *  empty.
   */
  lemma {:induction false} UndoIsExact(fs: Tree, c: Setting, snap: string, steps: seq<Step>)
    requires Undoable(fs, c, snap, steps)
    ensures Restored(fs, Result(fs, steps), c, snap) <==> forall r :: !LostEmptyDir(fs, c, snap, r)
    ensures forall p :: c.snapRoot <= p ==> At(Result(fs, steps), p) == At(fs, p)
  {
    AlwaysMidway(fs, c, snap, steps, |steps|);
    forall r | InScope(c, r)
      ensures Live(Result(fs, steps), c, r) == if LostEmptyDir(fs, c, snap, r) then None else Snap(fs, c, snap, r)
    {
      UndoLeaves(fs, c, snap, steps, r);
    }
    if r :| LostEmptyDir(fs, c, snap, r) {
      assert Live(Result(fs, steps), c, r) != Snap(fs, c, snap, r);
    }
  }
}
