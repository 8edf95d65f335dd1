/** The whole `chronicle revert`: plan from a manifest, then apply. */
module RevertCommand {
  import opened Wrappers
  import opened FileTree
  import opened Revert
  import opened PlanProperties
  import opened Apply
  import opened Undo
  import opened Reapply
  import opened ExactUndo
  import Lex

  // The plan is shown in any case and carried out only on request.
  method CmdRevert(disk: Disk, events: seq<FileEvent>, c: Setting, apply: bool)
    returns (shown: seq<Step>, ok: nat, kept: nat, failed: nat)
    modifies disk
    ensures shown == if events == [] || c.snapshots == [] then [] else PlanOf(events, c, old(disk.tree))
    ensures !apply || events == [] || c.snapshots == [] ==>
              disk.tree == old(disk.tree) && ok == kept == failed == 0
    ensures apply && events != [] && c.snapshots != [] ==>
              && disk.tree == Result(old(disk.tree), PlanOf(events, c, old(disk.tree)))
              && ok == Total(old(disk.tree), PlanOf(events, c, old(disk.tree)), Applied)
              && kept == Total(old(disk.tree), PlanOf(events, c, old(disk.tree)), Kept)
              && failed == Total(old(disk.tree), PlanOf(events, c, old(disk.tree)), Failed)
  {
    shown, ok, kept, failed := [], 0, 0, 0;
    if events == [] || c.snapshots == [] {
      return;
    }
    shown := Plan(events, c, disk.tree);
    if !apply {
      return;
    }
    ok, kept, failed := disk.ApplySteps(shown);
  }

  /* ---- Exactness from the manifest alone ---- */

  lemma {:induction false} OnePreImage(c: Setting, events: seq<FileEvent>, path: string, a: string, b: string)
    requires IsPreImage(c, events, path, a) && IsPreImage(c, events, path, b)
    ensures a == b
  {
    Lex.Antisymmetric(a, b);
  }

  // Every touched path is under the live tree, allowed, and not in the snapshot store,
  // and has this snapshot as its pre-image.  The snapshot holds any that are above the
  // store, as it does unless the command made the directory the store is in.
  ghost predicate OneSnapshot(fs: Tree, events: seq<FileEvent>, c: Setting, snap: string) {
    forall path :: Touched(events, path) ==>
      && Refused(path).None?
      && c.liveRoot <= Components(path)
      && !(c.snapRoot <= Components(path))
      && (Components(path) <= c.snapRoot ==> PreImage(c, snap, Components(path)) in fs)
      && IsPreImage(c, events, path, snap)
  }

  ghost predicate DiffersOnlyWhereTouched(fs: Tree, events: seq<FileEvent>, c: Setting, snap: string) {
    forall r :: InScope(c, r) && Live(fs, c, r) != Snap(fs, c, snap, r) ==>
      exists path :: Touched(events, path) && Components(path) == c.liveRoot + r
  }

  ghost predicate NoSwap(fs: Tree, c: Setting, snap: string) {
    forall r :: InScope(c, r) ==> SameKind(Live(fs, c, r), Snap(fs, c, snap, r))
  }

  lemma {:induction false} JustifiedFollows(events: seq<FileEvent>, c: Setting, fs: Tree, snap: string, path: string,
                                            step: Step)
    requires Touched(events, path) && OneSnapshot(fs, events, c, snap)
    requires Justified(fs, c, events, path, step)
    ensures Follows(fs, c, snap, step)
  {
    if s :| IsPreImage(c, events, path, s) && PreImage(c, s, step.path) != PreImage(c, snap, step.path) {
      OnePreImage(c, events, path, s, snap);
    }
  }

  lemma {:induction false} PlanFollows(events: seq<FileEvent>, c: Setting, fs: Tree, snap: string, i: nat)
    requires EventsInOrder(events)
    requires OneSnapshot(fs, events, c, snap)
    requires i < |PlanOf(events, c, fs)|
    ensures Follows(fs, c, snap, PlanOf(events, c, fs)[i])
  {
    var step := PlanOf(events, c, fs)[i];
    EachStepJustified(events, c, fs, step);
    var path :| Touched(events, path) && Justified(fs, c, events, path, step);
    JustifiedFollows(events, c, fs, snap, path, step);
  }

  lemma {:induction false} TouchedIsPlanned(events: seq<FileEvent>, c: Setting, fs: Tree, path: string, r: Path)
    requires Touched(events, path) && Components(path) == c.liveRoot + r
    ensures Planned(c, PlanOf(events, c, fs), r)
  {
    EachPathPlanned(events, c, fs, path);
    var plan := PlanOf(events, c, fs);
    var s :| s in plan && s.path == Components(path);
    var i :| 0 <= i < |plan| && plan[i] == s;
  }

  lemma {:induction false} PlanIsUndoable(events: seq<FileEvent>, c: Setting, fs: Tree, snap: string)
    requires EventsInOrder(events)
    requires WellFormed(fs)
    requires At(fs, c.liveRoot) == Some(Dir) && At(fs, c.snapRoot + [snap]) == Some(Dir)
    requires OneSnapshot(fs, events, c, snap)
    requires DiffersOnlyWhereTouched(fs, events, c, snap)
    requires NoSwap(fs, c, snap)
    ensures Undoable(fs, c, snap, PlanOf(events, c, fs))
  {
    var plan := PlanOf(events, c, fs);
    PlanIsShaped(events, c, fs);
    forall i | 0 <= i < |plan| ensures Follows(fs, c, snap, plan[i]) {
      PlanFollows(events, c, fs, snap, i);
    }
    forall r | InScope(c, r)
      ensures Live(fs, c, r) == Snap(fs, c, snap, r) || Planned(c, plan, r)
    {
      if Live(fs, c, r) != Snap(fs, c, snap, r) {
        var path :| Touched(events, path) && Components(path) == c.liveRoot + r;
        TouchedIsPlanned(events, c, fs, path, r);
      }
    }
  }

  /** Reverting a command restores the snapshot exactly, unless the live tree
   *  lost a directory that the snapshot holds empty.
   */
  lemma {:induction false} RevertIsExact(events: seq<FileEvent>, c: Setting, fs: Tree, snap: string)
    requires EventsInOrder(events)
    requires WellFormed(fs)
    requires At(fs, c.liveRoot) == Some(Dir) && At(fs, c.snapRoot + [snap]) == Some(Dir)
    requires OneSnapshot(fs, events, c, snap)
    requires DiffersOnlyWhereTouched(fs, events, c, snap)
    requires NoSwap(fs, c, snap)
    ensures Restored(fs, Result(fs, PlanOf(events, c, fs)), c, snap) <==> forall r :: !LostEmptyDir(fs, c, snap, r)
  {
    PlanIsUndoable(events, c, fs, snap);
    UndoIsExact(fs, c, snap, PlanOf(events, c, fs));
  }

  /** A file the undo puts back is missing at the end exactly when another first touch of
   *  its path chose a snapshot that does not hold it.
   */
  lemma {:induction false} RestoredFileIsDroppedWhen(events: seq<FileEvent>, c: Setting, fs: Tree, i: nat)
    requires i < |PlanOf(events, c, fs)| && RestoredBy(fs, PlanOf(events, c, fs), i, PlanOf(events, c, fs)[i].path)
    ensures var plan := PlanOf(events, c, fs);
            At(Result(fs, plan), plan[i].path) == None <==> SomeChoiceHolds(events, c, fs, plan[i].path, false)
  {
    var plan := PlanOf(events, c, fs);
    PlanIsShaped(events, c, fs);
    RestoredFileGoesExactlyWhenRemoved(fs, plan, i);
    PlanRemovesWhen(events, c, fs, plan[i].path);
  }

  /** Re-applying the plan of any manifest that touches nothing in the snapshot
   *  store is safe, whatever its spellings.
   */
  lemma {:induction false} RevertTwice(events: seq<FileEvent>, c: Setting, fs: Tree)
    requires WellFormed(fs)
    requires forall path :: Touched(events, path) ==> !(c.snapRoot <= Components(path))
    requires Total(fs, PlanOf(events, c, fs), Failed) == 0
    ensures Result(Result(fs, PlanOf(events, c, fs)), PlanOf(events, c, fs)) == Result(fs, PlanOf(events, c, fs))
    ensures forall o :: Total(Result(fs, PlanOf(events, c, fs)), PlanOf(events, c, fs), o)
                        == Total(fs, PlanOf(events, c, fs), o)
  {
    var plan := PlanOf(events, c, fs);
    PlanIsShaped(events, c, fs);
    forall i, j | 0 <= i < |plan| && 0 <= j < |plan| && plan[j].Restore? ensures plan[i].path != plan[j].from {
      StepPaths(events, c, fs, plan[i]);
      StepPaths(events, c, fs, plan[j]);
    }
    ApplyTwice(fs, plan);
  }

  // A step is at a touched path, and copies from the snapshot store.
  lemma {:induction false} StepPaths(events: seq<FileEvent>, c: Setting, fs: Tree, s: Step)
    requires s in PlanOf(events, c, fs)
    ensures exists path :: Touched(events, path) && s.path == Components(path)
    ensures s.Restore? ==> c.snapRoot <= s.from
  {
    PlanMembers(events, c, fs, s);
    var f :| f in FirstTouches(Touches(events)) && s == StepFor(fs, c, f);
    FirstIsTouched(events, f);
    StepPath(fs, c, f);
  }

  lemma {:induction false} FirstIsTouched(events: seq<FileEvent>, f: Touch)
    requires f in FirstTouches(Touches(events))
    ensures Touched(events, f.path)
  {
    FirstIsMember(Touches(events), f);
  }

  /** For a manifest of single spellings, re-applying is safe exactly when the
   *  snapshots still hold what the first run restored.
   */
  lemma {:induction false} RevertTwiceExactly(events: seq<FileEvent>, c: Setting, fs: Tree)
    requires OneSpelling(events) && WellFormed(fs)
    ensures var plan := PlanOf(events, c, fs);
            var f := Result(fs, plan);
            Total(fs, plan, Failed) == 0 ==>
              (Result(f, plan) == f && Total(f, plan, Failed) == 0 <==> forall s :: s in plan ==> SourceHolds(f, s))
  {
    var plan := PlanOf(events, c, fs);
    PlanIsShaped(events, c, fs);
    if Total(fs, plan, Failed) == 0 {
      ReappliesExactly(fs, plan);
    }
  }

  /** For any manifest whose restores write no restore's source, the plan tells
   *  before the first run: the second is safe exactly when no removal names a source.
   */
  lemma {:induction false} RevertTwiceByPlan(events: seq<FileEvent>, c: Setting, fs: Tree)
    requires WellFormed(fs) && NoSourceRestored(PlanOf(events, c, fs))
    requires Total(fs, PlanOf(events, c, fs), Failed) == 0
    ensures var plan := PlanOf(events, c, fs);
            var f := Result(fs, plan);
            Result(f, plan) == f && Total(f, plan, Failed) == 0 <==> NoSourceRemoved(plan)
  {
    PlanIsShaped(events, c, fs);
    PlanDecidesReapply(fs, PlanOf(events, c, fs));
  }
}
