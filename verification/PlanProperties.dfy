/** What every undo plan guarantees: one step a touched path, the true pre-image,
 *  nothing refused or outside the tree, and an order that can be applied.
 */
module PlanProperties {
  import opened Wrappers
  import opened FileTree
  import opened Revert
  import Lex

  /* ---- First touches ---- */

  // f is the earliest entry of its path.
  ghost predicate IsFirst(touches: seq<Touch>, f: Touch) {
    exists i :: 0 <= i < |touches| && touches[i] == f && forall j :: 0 <= j < i ==> touches[j].path != f.path
  }

  ghost predicate DistinctPaths(touches: seq<Touch>) {
    forall i, j :: 0 <= i < j < |touches| ==> touches[i].path != touches[j].path
  }

  lemma {:induction false} FirstTouchesAreFirst(touches: seq<Touch>)
    ensures DistinctPaths(FirstTouches(touches))
    ensures forall t :: t in touches ==> Seen(FirstTouches(touches), t.path)
    ensures forall f :: f in FirstTouches(touches) ==> IsFirst(touches, f)
  {
    if touches != [] {
      var n := |touches| - 1;
      var init, last := touches[..n], touches[n];
      FirstTouchesAreFirst(init);
      var firsts := FirstTouches(init);
      forall t | t in touches ensures Seen(FirstTouches(touches), t.path) {
        if t in init {
          var f :| f in firsts && f.path == t.path;
          assert f in FirstTouches(touches);
        } else if !Seen(firsts, t.path) {
          assert last in FirstTouches(touches);
        }
      }
      forall f | f in FirstTouches(touches) ensures IsFirst(touches, f) {
        if f in firsts {
          var i :| 0 <= i < |init| && init[i] == f && forall j :: 0 <= j < i ==> init[j].path != f.path;
          assert touches[i] == f;
          assert forall j :: 0 <= j < i ==> touches[j] == init[j];
        } else {
          assert touches[n] == f;
          forall j | 0 <= j < n ensures touches[j].path != f.path {
            assert init[j] in init;
          }
        }
      }
    }
  }

  ghost predicate InOrder(touches: seq<Touch>) {
    forall i, j :: 0 <= i <= j < |touches| ==> Lex.Le(touches[i].ts, touches[j].ts)
  }

  ghost predicate EventsInOrder(events: seq<FileEvent>) {
    forall i, j :: 0 <= i <= j < |events| ==> Lex.Le(events[i].ts, events[j].ts)
  }

  lemma {:induction false} TouchSource(events: seq<FileEvent>, t: Touch)
    ensures t in Touches(events) <==> exists e :: e in events && t in EventTouches(e)
  {
    if events != [] {
      var n := |events| - 1;
      TouchSource(events[..n], t);
      assert forall e :: e in events <==> e in events[..n] || e == events[n];
    }
  }

  /** An event touches its path and, if it has one, its other path, both at its time. */
  lemma {:induction false} TouchesAre(events: seq<FileEvent>, t: Touch)
    ensures t in Touches(events) <==>
            exists e :: e in events && e.ts == t.ts && (e.path == t.path || e.otherPath == Some(t.path))
  {
    TouchSource(events, t);
    forall e: FileEvent
      ensures t in EventTouches(e) <==> e.ts == t.ts && (e.path == t.path || e.otherPath == Some(t.path))
    {
    }
  }

  lemma {:induction false} TouchesInOrder(events: seq<FileEvent>)
    requires EventsInOrder(events)
    ensures InOrder(Touches(events))
  {
    if events != [] {
      var n := |events| - 1;
      TouchesInOrder(events[..n]);
      var init, last := Touches(events[..n]), EventTouches(events[n]);
      Lex.Refl(events[n].ts);
      forall t | t in init ensures Lex.Le(t.ts, events[n].ts) {
        TouchSource(events[..n], t);
        var e :| e in events[..n] && t in EventTouches(e);
        var k :| 0 <= k < n && events[k] == e;
      }
      AppendInOrder(init, last, events[n].ts);
    }
  }

  lemma {:induction false} AppendInOrder(init: seq<Touch>, last: seq<Touch>, ts: string)
    requires InOrder(init)
    requires forall t :: t in init ==> Lex.Le(t.ts, ts)
    requires forall t :: t in last ==> t.ts == ts
    ensures InOrder(init + last)
  {
    Lex.Refl(ts);
    var all := init + last;
    forall i, j | 0 <= i <= j < |all| ensures Lex.Le(all[i].ts, all[j].ts) {
      if i < |init| {
        assert all[i] in init;
      } else {
        assert all[i] in last;
      }
      if j >= |init| {
        assert all[j] in last;
      }
    }
  }

  // A touch of this path.
  ghost predicate Touched(events: seq<FileEvent>, path: string) {
    exists t :: t in Touches(events) && t.path == path
  }

  ghost predicate NoLaterThanAll(events: seq<FileEvent>, path: string, snap: string) {
    forall t :: t in Touches(events) && t.path == path ==> Lex.Le(snap, t.ts)
  }

  // snap is the newest snapshot that no touch of the path precedes.
  ghost predicate IsPreImage(c: Setting, events: seq<FileEvent>, path: string, snap: string) {
    && snap in c.snapshots
    && NoLaterThanAll(events, path, snap)
    && forall s :: s in c.snapshots && NoLaterThanAll(events, path, s) ==> Lex.Le(s, snap)
  }

  /* ---- One step ---- */

  ghost predicate Justified(fs: Tree, c: Setting, events: seq<FileEvent>, path: string, step: Step) {
    && step.path == Components(path)
    && match step
       case Restore(p, from) =>
         && Refused(path).None?
         && c.liveRoot <= p
         && from in fs
         && exists snap :: IsPreImage(c, events, path, snap) && from == PreImage(c, snap, p)
       case Remove(p) =>
         && Refused(path).None?
         && c.liveRoot <= p
         && exists snap :: IsPreImage(c, events, path, snap) && PreImage(c, snap, p) !in fs
       case Skip(p, why) =>
         || Refused(path) == Some(why)
         || (why == Outside && !(c.liveRoot <= p))
         || (why == NoSnapshot && forall s :: s in c.snapshots ==> !NoLaterThanAll(events, path, s))
  }

  // A time is at or before the first touch exactly when it is at or before all of them.
  lemma {:induction false} FirstIsEarliest(events: seq<FileEvent>, f: Touch, s: string)
    requires EventsInOrder(events)
    requires f in FirstTouches(Touches(events))
    ensures Lex.Le(s, f.ts) <==> NoLaterThanAll(events, f.path, s)
  {
    var touches := Touches(events);
    TouchesInOrder(events);
    FirstTouchesAreFirst(touches);
    assert IsFirst(touches, f);
    var i :| 0 <= i < |touches| && touches[i] == f && forall j :: 0 <= j < i ==> touches[j].path != f.path;
    forall t | Lex.Le(s, f.ts) && t in touches && t.path == f.path ensures Lex.Le(s, t.ts) {
      var j :| 0 <= j < |touches| && touches[j] == t;
      Lex.Transitive(s, touches[i].ts, touches[j].ts);
    }
  }

  lemma {:induction false} StepIsJustified(fs: Tree, c: Setting, events: seq<FileEvent>, f: Touch)
    requires EventsInOrder(events)
    requires f in FirstTouches(Touches(events))
    ensures Justified(fs, c, events, f.path, StepFor(fs, c, f))
  {
    forall s ensures Lex.Le(s, f.ts) <==> NoLaterThanAll(events, f.path, s) {
      FirstIsEarliest(events, f, s);
    }
    var best := SnapshotBefore(c.snapshots, f.ts);
    if best.Some? {
      assert IsPreImage(c, events, f.path, best.value);
    }
  }

  /* ---- Order of the whole plan ---- */

  ghost predicate RestoresFirst(steps: seq<Step>) {
    forall i, j :: 0 <= i < j < |steps| ==> Rank(steps[i]) <= Rank(steps[j])
  }

  ghost predicate DeepestFirst(steps: seq<Step>) {
    forall i, j :: 0 <= i < j < |steps| && steps[i].Remove? && steps[j].Remove? ==> |steps[i].path| >= |steps[j].path|
  }

  ghost predicate OneStepAPath(steps: seq<Step>) {
    forall i, j :: 0 <= i < j < |steps| ==> steps[i].path != steps[j].path
  }

  // Copies come first, and nothing is removed before what lies deeper.
  ghost predicate SafeOrder(steps: seq<Step>) {
    RestoresFirst(steps) && DeepestFirst(steps)
  }

  ghost predicate Shaped(steps: seq<Step>) {
    SafeOrder(steps) && OneStepAPath(steps)
  }

  ghost predicate ByDepth(steps: seq<Step>) {
    forall i, j :: 0 <= i < j < |steps| ==> |steps[i].path| >= |steps[j].path|
  }

  lemma {:induction false} InsertPermutes(sorted: seq<Step>, s: Step)
    ensures multiset(InsertByDepth(sorted, s)) == multiset(sorted) + multiset{s}
  {
    if sorted != [] {
      var n := |sorted| - 1;
      assert sorted == sorted[..n] + [sorted[n]];
      if Depth(sorted[n].path) < Depth(s.path) {
        InsertPermutes(sorted[..n], s);
      }
    }
  }

  lemma {:induction false} SameElements(a: seq<Step>, b: seq<Step>, x: Step)
    requires multiset(a) == multiset(b)
    ensures x in a <==> x in b
  {
    assert x in a <==> x in multiset(a);
  }

  lemma {:induction false} InsertedMember(sorted: seq<Step>, s: Step, x: Step)
    requires x in InsertByDepth(sorted, s)
    ensures x in sorted || x == s
  {
    InsertPermutes(sorted, s);
    SameElements(InsertByDepth(sorted, s), sorted + [s], x);
  }

  lemma {:induction false} InsertKeepsDepthOrder(sorted: seq<Step>, s: Step)
    requires ByDepth(sorted)
    ensures ByDepth(InsertByDepth(sorted, s))
  {
    if sorted != [] {
      var n := |sorted| - 1;
      if Depth(sorted[n].path) < Depth(s.path) {
        InsertKeepsDepthOrder(sorted[..n], s);
        forall x | x in InsertByDepth(sorted[..n], s) ensures |x.path| >= |sorted[n].path| {
          InsertedMember(sorted[..n], s, x);
        }
      }
    }
  }

  lemma {:induction false} SortDeepestSorts(steps: seq<Step>)
    ensures ByDepth(SortDeepest(steps))
    ensures multiset(SortDeepest(steps)) == multiset(steps)
  {
    if steps != [] {
      var n := |steps| - 1;
      assert steps == steps[..n] + [steps[n]];
      SortDeepestSorts(steps[..n]);
      InsertPermutes(SortDeepest(steps[..n]), steps[n]);
      InsertKeepsDepthOrder(SortDeepest(steps[..n]), steps[n]);
    }
  }

  lemma {:induction false} RanksPartition(steps: seq<Step>)
    ensures multiset(OfRank(steps, 0)) + multiset(OfRank(steps, 1)) + multiset(OfRank(steps, 2)) == multiset(steps)
    ensures forall k: nat, s :: s in OfRank(steps, k) ==> Rank(s) == k
  {
    if steps != [] {
      var n := |steps| - 1;
      assert steps == steps[..n] + [steps[n]];
      RanksPartition(steps[..n]);
    }
  }

  lemma {:induction false} OrderedPermutes(steps: seq<Step>)
    ensures multiset(Ordered(steps)) == multiset(steps)
  {
    RanksPartition(steps);
    SortDeepestSorts(OfRank(steps, 1));
  }

  lemma {:induction false} OrderedIsOrdered(steps: seq<Step>)
    ensures SafeOrder(Ordered(steps))
  {
    RanksPartition(steps);
    var a, b, z := OfRank(steps, 0), SortDeepest(OfRank(steps, 1)), OfRank(steps, 2);
    SortDeepestSorts(OfRank(steps, 1));
    forall s | s in b ensures Rank(s) == 1 {
      SameElements(b, OfRank(steps, 1), s);
    }
    RanksInTurn(a, b, z);
  }

  lemma {:induction false} RanksInTurn(a: seq<Step>, b: seq<Step>, z: seq<Step>)
    requires forall i :: 0 <= i < |a| ==> Rank(a[i]) == 0
    requires forall i :: 0 <= i < |b| ==> Rank(b[i]) == 1
    requires forall i :: 0 <= i < |z| ==> Rank(z[i]) == 2
    requires ByDepth(b)
    ensures SafeOrder(a + b + z)
  {
  }

  // Distinctness of paths does not depend on the order of the steps.
  lemma {:induction false} PermutationKeepsDistinct(a: seq<Step>, b: seq<Step>)
    requires multiset(a) == multiset(b)
    requires OneStepAPath(a)
    ensures OneStepAPath(b)
  {
    forall i, j | 0 <= i < j < |b| ensures b[i].path != b[j].path {
      assert b[i] in multiset(b) && b[j] in multiset(b);
      var k :| 0 <= k < |a| && a[k] == b[i];
      var l :| 0 <= l < |a| && a[l] == b[j];
      if k == l {
        TwiceCountsTwo(b, i, j);
        OnceCountsOne(a, k);
        assert false;
      }
    }
  }

  lemma {:induction false} TwiceCountsTwo(b: seq<Step>, i: nat, j: nat)
    requires i < j < |b| && b[i] == b[j]
    ensures multiset(b)[b[i]] >= 2
  {
    assert b == b[..j] + b[j..];
    assert b[i] in b[..j] && b[j] in b[j..];
  }

  lemma {:induction false} OnceCountsOne(a: seq<Step>, k: nat)
    requires k < |a|
    requires OneStepAPath(a)
    ensures multiset(a)[a[k]] == 1
  {
    assert a == a[..k] + [a[k]] + a[k + 1..];
    assert a[k] !in a[..k] && a[k] !in a[k + 1..];
  }

  // No path is touched under two spellings.
  ghost predicate OneSpelling(events: seq<FileEvent>) {
    forall a, b :: Touched(events, a) && Touched(events, b) && Components(a) == Components(b) ==> a == b
  }

  lemma {:induction false} StepPath(fs: Tree, c: Setting, t: Touch)
    ensures StepFor(fs, c, t).path == Components(t.path)
  {
  }

  lemma {:induction false} FirstIsMember(touches: seq<Touch>, f: Touch)
    ensures f in FirstTouches(touches) ==> f in touches
  {
    FirstTouchesAreFirst(touches);
    if f in FirstTouches(touches) {
      assert IsFirst(touches, f);
    }
  }

  lemma {:induction false} StepsHaveDistinctPaths(events: seq<FileEvent>, c: Setting, fs: Tree)
    requires OneSpelling(events)
    ensures OneStepAPath(StepsFor(fs, c, FirstTouches(Touches(events))))
  {
    var firsts := FirstTouches(Touches(events));
    var steps := StepsFor(fs, c, firsts);
    FirstTouchesAreFirst(Touches(events));
    forall i, j | 0 <= i < j < |steps| ensures steps[i].path != steps[j].path {
      StepPathAt(fs, c, firsts, i);
      StepPathAt(fs, c, firsts, j);
      FirstIsMember(Touches(events), firsts[i]);
      FirstIsMember(Touches(events), firsts[j]);
    }
  }

  lemma {:induction false} StepPathAt(fs: Tree, c: Setting, touches: seq<Touch>, i: nat)
    requires i < |touches|
    ensures StepsFor(fs, c, touches)[i].path == Components(touches[i].path)
  {
    StepPath(fs, c, touches[i]);
  }

  lemma {:induction false} TwoSpellingsTwoSteps(events: seq<FileEvent>, c: Setting, fs: Tree, a: string, b: string)
    requires Touched(events, a) && Touched(events, b) && Components(a) == Components(b) && a != b
    ensures !OneStepAPath(StepsFor(fs, c, FirstTouches(Touches(events))))
  {
    var firsts := FirstTouches(Touches(events));
    FirstTouchesAreFirst(Touches(events));
    assert Seen(firsts, a) && Seen(firsts, b);
    var i :| 0 <= i < |firsts| && firsts[i].path == a;
    var j :| 0 <= j < |firsts| && firsts[j].path == b;
    StepPathAt(fs, c, firsts, i);
    StepPathAt(fs, c, firsts, j);
    var lo, hi := if i < j then i else j, if i < j then j else i;
    assert StepsFor(fs, c, firsts)[lo].path == StepsFor(fs, c, firsts)[hi].path;
  }

  /** Every plan is in a safe order, and it has one step a path exactly when no
   *  path was touched under two spellings.
   */
  lemma {:induction false} PlanIsShaped(events: seq<FileEvent>, c: Setting, fs: Tree)
    ensures SafeOrder(PlanOf(events, c, fs))
    ensures OneStepAPath(PlanOf(events, c, fs)) <==> OneSpelling(events)
  {
    var steps := StepsFor(fs, c, FirstTouches(Touches(events)));
    OrderedPermutes(steps);
    OrderedIsOrdered(steps);
    if OneSpelling(events) {
      StepsHaveDistinctPaths(events, c, fs);
      PermutationKeepsDistinct(steps, PlanOf(events, c, fs));
    } else {
      var a, b :| Touched(events, a) && Touched(events, b) && Components(a) == Components(b) && a != b;
      TwoSpellingsTwoSteps(events, c, fs, a, b);
      if OneStepAPath(PlanOf(events, c, fs)) {
        PermutationKeepsDistinct(PlanOf(events, c, fs), steps);
      }
    }
  }

  lemma {:induction false} StepMembers(fs: Tree, c: Setting, firsts: seq<Touch>, s: Step)
    ensures s in StepsFor(fs, c, firsts) <==> exists f :: f in firsts && s == StepFor(fs, c, f)
  {
    var steps := StepsFor(fs, c, firsts);
    if s in steps {
      var i :| 0 <= i < |steps| && steps[i] == s;
      assert firsts[i] in firsts;
    }
    if f :| f in firsts && s == StepFor(fs, c, f) {
      var i :| 0 <= i < |firsts| && firsts[i] == f;
      assert steps[i] == s;
    }
  }

  // The steps of a plan are the steps of the first touches.
  lemma {:induction false} PlanMembers(events: seq<FileEvent>, c: Setting, fs: Tree, s: Step)
    ensures s in PlanOf(events, c, fs) <==>
            exists f :: f in FirstTouches(Touches(events)) && s == StepFor(fs, c, f)
  {
    var firsts := FirstTouches(Touches(events));
    var steps := StepsFor(fs, c, firsts);
    OrderedPermutes(steps);
    SameElements(PlanOf(events, c, fs), steps, s);
    StepMembers(fs, c, firsts, s);
  }

  function TouchedPaths(events: seq<FileEvent>): set<string> {
    set t | t in Touches(events) :: t.path
  }

  lemma {:induction false} DistinctPathsCount(touches: seq<Touch>)
    requires DistinctPaths(touches)
    ensures |set t | t in touches :: t.path| == |touches|
  {
    if touches != [] {
      var n := |touches| - 1;
      var init, last := touches[..n], touches[n];
      DistinctPathsCount(init);
      var paths := set t | t in init :: t.path;
      assert touches == init + [last];
      assert (set t | t in touches :: t.path) == paths + {last.path};
      NewPath(touches, n);
    }
  }

  lemma {:induction false} NewPath(touches: seq<Touch>, n: nat)
    requires DistinctPaths(touches) && n < |touches|
    ensures forall t :: t in touches[..n] ==> t.path != touches[n].path
  {
    forall t | t in touches[..n] ensures t.path != touches[n].path {
      var i :| 0 <= i < n && touches[..n][i] == t;
    }
  }

  lemma {:induction false} PlanCountsPaths(events: seq<FileEvent>, c: Setting, fs: Tree)
    ensures |PlanOf(events, c, fs)| == |TouchedPaths(events)|
  {
    var firsts := FirstTouches(Touches(events));
    FirstTouchesAreFirst(Touches(events));
    DistinctPathsCount(firsts);
    forall p ensures p in TouchedPaths(events) <==> p in (set t | t in firsts :: t.path) {
      if p in TouchedPaths(events) {
        assert Seen(firsts, p);
      }
      if t :| t in firsts && t.path == p {
        FirstIsMember(Touches(events), t);
      }
    }
    assert TouchedPaths(events) == set t | t in firsts :: t.path;
    OrderedPermutes(StepsFor(fs, c, firsts));
    assert |multiset(PlanOf(events, c, fs))| == |multiset(StepsFor(fs, c, firsts))|;
  }

  // Each step follows from the touches of one spelling.
  ghost predicate AllJustified(events: seq<FileEvent>, c: Setting, fs: Tree) {
    forall s :: s in PlanOf(events, c, fs) ==>
      exists path :: Touched(events, path) && Justified(fs, c, events, path, s)
  }

  // Each touched spelling has its step.
  ghost predicate AllPlanned(events: seq<FileEvent>, c: Setting, fs: Tree) {
    forall path :: Touched(events, path) ==> exists s :: s in PlanOf(events, c, fs) && s.path == Components(path)
  }

  /** Every plan has one step for each touched spelling, carrying the pre-image of
   *  that spelling's touches, in a safe order; paths repeat only with spellings.
   */
  lemma {:induction false} PlanSelectsPreImages(events: seq<FileEvent>, c: Setting, fs: Tree)
    requires EventsInOrder(events)
    ensures SafeOrder(PlanOf(events, c, fs))
    ensures OneStepAPath(PlanOf(events, c, fs)) <==> OneSpelling(events)
    ensures |PlanOf(events, c, fs)| == |TouchedPaths(events)|
    ensures AllJustified(events, c, fs) && AllPlanned(events, c, fs)
  {
    PlanIsShaped(events, c, fs);
    PlanCountsPaths(events, c, fs);
    StepsAreJustified(events, c, fs);
    PathsArePlanned(events, c, fs);
  }

  lemma {:induction false} StepsAreJustified(events: seq<FileEvent>, c: Setting, fs: Tree)
    requires EventsInOrder(events)
    ensures AllJustified(events, c, fs)
  {
    forall s | s in PlanOf(events, c, fs)
      ensures exists path :: Touched(events, path) && Justified(fs, c, events, path, s)
    {
      EachStepJustified(events, c, fs, s);
    }
  }

  lemma {:induction false} PathsArePlanned(events: seq<FileEvent>, c: Setting, fs: Tree)
    ensures AllPlanned(events, c, fs)
  {
    forall path | Touched(events, path)
      ensures exists s :: s in PlanOf(events, c, fs) && s.path == Components(path)
    {
      EachPathPlanned(events, c, fs, path);
    }
  }

  lemma {:induction false} EachStepJustified(events: seq<FileEvent>, c: Setting, fs: Tree, s: Step)
    requires EventsInOrder(events)
    requires s in PlanOf(events, c, fs)
    ensures exists path :: Touched(events, path) && Justified(fs, c, events, path, s)
  {
    PlanMembers(events, c, fs, s);
    var f :| f in FirstTouches(Touches(events)) && s == StepFor(fs, c, f);
    StepIsJustified(fs, c, events, f);
    FirstIsMember(Touches(events), f);
  }

  lemma {:induction false} EachPathPlanned(events: seq<FileEvent>, c: Setting, fs: Tree, path: string)
    requires Touched(events, path)
    ensures exists s :: s in PlanOf(events, c, fs) && s.path == Components(path)
  {
    FirstTouchesAreFirst(Touches(events));
    assert Seen(FirstTouches(Touches(events)), path);
    var f :| f in FirstTouches(Touches(events)) && f.path == path;
    var s := StepFor(fs, c, f);
    PlanMembers(events, c, fs, s);
    StepPath(fs, c, f);
  }

  /* ---- Two spellings of one path ---- */

  // At or before every touch of this path, under whatever spelling.
  ghost predicate BeforeEveryTouch(events: seq<FileEvent>, p: Path, snap: string) {
    forall t :: t in Touches(events) && Components(t.path) == p ==> Lex.Le(snap, t.ts)
  }

  ghost predicate TruePreImage(c: Setting, events: seq<FileEvent>, p: Path, snap: string) {
    && snap in c.snapshots
    && BeforeEveryTouch(events, p, snap)
    && forall s :: s in c.snapshots && BeforeEveryTouch(events, p, s) ==> Lex.Le(s, snap)
  }

  /** The snapshot chosen for a touch is its path's true pre-image exactly when no
   *  snapshot it could have chosen came after another touch of the path, under
   *  whatever spelling.
   */
  lemma {:induction false} ChoiceIsTrue(events: seq<FileEvent>, c: Setting, f: Touch, snap: string)
    requires f in Touches(events) && SnapshotBefore(c.snapshots, f.ts) == Some(snap)
    ensures TruePreImage(c, events, Components(f.path), snap) <==>
            forall s :: s in c.snapshots && Lex.Le(s, f.ts) ==> BeforeEveryTouch(events, Components(f.path), s)
  {
    var p := Components(f.path);
    if BeforeEveryTouch(events, p, snap) {
      forall s | s in c.snapshots && Lex.Le(s, f.ts) ensures BeforeEveryTouch(events, p, s) {
        forall t | t in Touches(events) && Components(t.path) == p ensures Lex.Le(s, t.ts) {
          Lex.Transitive(s, snap, t.ts);
        }
      }
    }
  }

  /** Two restores of one path agree exactly when no snapshot lies between the first
   *  touches they come from.
   */
  lemma {:induction false} RestoresAgree(fs: Tree, c: Setting, f: Touch, g: Touch)
    requires Components(f.path) == Components(g.path)
    requires StepFor(fs, c, f).Restore? && StepFor(fs, c, g).Restore?
    ensures StepFor(fs, c, f) == StepFor(fs, c, g) <==>
            forall s :: s in c.snapshots ==> (Lex.Le(s, f.ts) <==> Lex.Le(s, g.ts))
  {
    var p := Components(f.path);
    var a, b := SnapshotBefore(c.snapshots, f.ts).value, SnapshotBefore(c.snapshots, g.ts).value;
    assert PreImage(c, a, p)[|c.snapRoot|] == a && PreImage(c, b, p)[|c.snapRoot|] == b;
    if a == b {
      forall s | s in c.snapshots ensures Lex.Le(s, f.ts) <==> Lex.Le(s, g.ts) {
        if Lex.Le(s, f.ts) {
          Lex.Transitive(s, a, g.ts);
        }
        if Lex.Le(s, g.ts) {
          Lex.Transitive(s, b, f.ts);
        }
      }
    } else if forall s :: s in c.snapshots ==> (Lex.Le(s, f.ts) <==> Lex.Le(s, g.ts)) {
      Lex.Antisymmetric(a, b);
    }
  }

  ghost predicate RestoredFrom(events: seq<FileEvent>, c: Setting, fs: Tree, p: Path, f: Touch) {
    f in FirstTouches(Touches(events)) && Components(f.path) == p && StepFor(fs, c, f).Restore?
  }

  ghost predicate ChooseAlike(c: Setting, f: Touch, g: Touch) {
    forall s :: s in c.snapshots ==> (Lex.Le(s, f.ts) <==> Lex.Le(s, g.ts))
  }

  predicate Restores(plan: seq<Step>, p: Path, s: Step) {
    s in plan && s.Restore? && s.path == p
  }

  lemma {:induction false} RestoresComeFrom(events: seq<FileEvent>, c: Setting, fs: Tree, p: Path, s: Step)
    ensures Restores(PlanOf(events, c, fs), p, s) <==>
            exists f :: RestoredFrom(events, c, fs, p, f) && s == StepFor(fs, c, f)
  {
    PlanMembers(events, c, fs, s);
    forall f ensures StepFor(fs, c, f).path == Components(f.path) {
      StepPath(fs, c, f);
    }
    if Restores(PlanOf(events, c, fs), p, s) {
      var f :| f in FirstTouches(Touches(events)) && s == StepFor(fs, c, f);
      assert RestoredFrom(events, c, fs, p, f);
    }
  }

  ghost predicate OneRestore(plan: seq<Step>, p: Path) {
    forall s, t :: Restores(plan, p, s) && Restores(plan, p, t) ==> s == t
  }

  ghost predicate OneChoice(events: seq<FileEvent>, c: Setting, fs: Tree, p: Path) {
    forall f, g :: RestoredFrom(events, c, fs, p, f) && RestoredFrom(events, c, fs, p, g) ==> ChooseAlike(c, f, g)
  }

  lemma {:induction false} OneRestoreOneChoice(events: seq<FileEvent>, c: Setting, fs: Tree, p: Path, f: Touch,
                                               g: Touch)
    ensures OneRestore(PlanOf(events, c, fs), p)
            && RestoredFrom(events, c, fs, p, f) && RestoredFrom(events, c, fs, p, g)
            ==> ChooseAlike(c, f, g)
  {
    RestoresComeFrom(events, c, fs, p, StepFor(fs, c, f));
    RestoresComeFrom(events, c, fs, p, StepFor(fs, c, g));
    if RestoredFrom(events, c, fs, p, f) && RestoredFrom(events, c, fs, p, g) {
      RestoresAgree(fs, c, f, g);
    }
  }

  lemma {:induction false} OneChoiceOneRestore(events: seq<FileEvent>, c: Setting, fs: Tree, p: Path, s: Step, t: Step)
    ensures OneChoice(events, c, fs, p)
            && Restores(PlanOf(events, c, fs), p, s) && Restores(PlanOf(events, c, fs), p, t)
            ==> s == t
  {
    RestoresComeFrom(events, c, fs, p, s);
    RestoresComeFrom(events, c, fs, p, t);
    if OneChoice(events, c, fs, p) && Restores(PlanOf(events, c, fs), p, s) && Restores(PlanOf(events, c, fs), p, t) {
      var f :| RestoredFrom(events, c, fs, p, f) && s == StepFor(fs, c, f);
      var g :| RestoredFrom(events, c, fs, p, g) && t == StepFor(fs, c, g);
      assert ChooseAlike(c, f, g);
      RestoresAgree(fs, c, f, g);
    }
  }

  /** All restores of a path in a plan agree exactly when no snapshot lies between the
   *  first touches of two of its restored spellings.
   */
  lemma {:induction false} PlanRestoresAgree(events: seq<FileEvent>, c: Setting, fs: Tree, p: Path)
    ensures OneRestore(PlanOf(events, c, fs), p) <==> OneChoice(events, c, fs, p)
  {
    if OneRestore(PlanOf(events, c, fs), p) {
      forall f, g | RestoredFrom(events, c, fs, p, f) && RestoredFrom(events, c, fs, p, g)
        ensures ChooseAlike(c, f, g)
      {
        OneRestoreOneChoice(events, c, fs, p, f, g);
      }
    } else if OneChoice(events, c, fs, p) {
      forall s, t | Restores(PlanOf(events, c, fs), p, s) && Restores(PlanOf(events, c, fs), p, t) ensures s == t {
        OneChoiceOneRestore(events, c, fs, p, s, t);
      }
    }
  }

  // This touch's own choice: the newest snapshot it may use holds the path or not.
  ghost predicate ChosenHolds(c: Setting, fs: Tree, p: Path, f: Touch, holds: bool) {
    && Components(f.path) == p && Refused(f.path).None? && c.liveRoot <= p
    && SnapshotBefore(c.snapshots, f.ts).Some?
    && (PreImage(c, SnapshotBefore(c.snapshots, f.ts).value, p) in fs <==> holds)
  }

  ghost predicate SomeChoiceHolds(events: seq<FileEvent>, c: Setting, fs: Tree, p: Path, holds: bool) {
    exists f :: f in FirstTouches(Touches(events)) && ChosenHolds(c, fs, p, f, holds)
  }

  lemma {:induction false} StepByChoice(c: Setting, fs: Tree, p: Path, f: Touch)
    ensures StepFor(fs, c, f) == Remove(p) <==> ChosenHolds(c, fs, p, f, false)
    ensures StepFor(fs, c, f).Restore? && StepFor(fs, c, f).path == p <==> ChosenHolds(c, fs, p, f, true)
  {
  }

  lemma {:induction false} PlanRemovesWhen(events: seq<FileEvent>, c: Setting, fs: Tree, p: Path)
    ensures Remove(p) in PlanOf(events, c, fs) <==> SomeChoiceHolds(events, c, fs, p, false)
  {
    PlanMembers(events, c, fs, Remove(p));
    forall f ensures StepFor(fs, c, f) == Remove(p) <==> ChosenHolds(c, fs, p, f, false) {
      StepByChoice(c, fs, p, f);
    }
  }

  lemma {:induction false} PlanRestoresWhen(events: seq<FileEvent>, c: Setting, fs: Tree, p: Path)
    ensures (exists s :: Restores(PlanOf(events, c, fs), p, s)) <==> SomeChoiceHolds(events, c, fs, p, true)
  {
    forall s ensures s in PlanOf(events, c, fs) <==>
                     exists f :: f in FirstTouches(Touches(events)) && s == StepFor(fs, c, f) {
      PlanMembers(events, c, fs, s);
    }
    forall f ensures StepFor(fs, c, f).Restore? && StepFor(fs, c, f).path == p <==> ChosenHolds(c, fs, p, f, true) {
      StepByChoice(c, fs, p, f);
    }
    if f :| f in FirstTouches(Touches(events)) && ChosenHolds(c, fs, p, f, true) {
      assert Restores(PlanOf(events, c, fs), p, StepFor(fs, c, f));
    }
  }

  /** A plan both restores and removes a path exactly when two first touches of it may
   *  use snapshots, and the one's newest holds the path where the other's does not.
   */
  lemma {:induction false} PlanRestoresAndRemoves(events: seq<FileEvent>, c: Setting, fs: Tree, p: Path)
    ensures (exists s :: Restores(PlanOf(events, c, fs), p, s)) && Remove(p) in PlanOf(events, c, fs)
            <==> SomeChoiceHolds(events, c, fs, p, true) && SomeChoiceHolds(events, c, fs, p, false)
  {
    PlanRestoresWhen(events, c, fs, p);
    PlanRemovesWhen(events, c, fs, p);
  }
}
