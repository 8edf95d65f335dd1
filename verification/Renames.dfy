/** An atomic rename and the moved_from/moved_to pair it replaces undo alike. */
module Renames {
  import opened Wrappers
  import opened FileTree
  import opened Revert
  import opened PlanProperties
  import opened Apply
  import opened ExactUndo

  function Halves(e: FileEvent): seq<FileEvent> {
    match e.otherPath
    case Some(source) =>
      if e.op == "renamed" then
        [FileEvent(e.ts, source, "moved_from", None), FileEvent(e.ts, e.path, "moved_to", None)]
      else [e]
    case None => [e]
  }

  // Any choice of the renames replaced by their two halves.
  function Expand(events: seq<FileEvent>, pick: nat -> bool): seq<FileEvent> {
    if events == [] then []
    else
      var n := |events| - 1;
      Expand(events[..n], pick) + if pick(n) then Halves(events[n]) else [events[n]]
  }

  /** With every rename picked none is left, and both halves of each are there. */
  lemma {:induction false} AllExpanded(events: seq<FileEvent>)
    ensures forall e :: e in Expand(events, _ => true) ==> !(e.op == "renamed" && e.otherPath.Some?)
    ensures forall e :: e in events && e.op == "renamed" && e.otherPath.Some? ==>
              && FileEvent(e.ts, e.otherPath.value, "moved_from", None) in Expand(events, _ => true)
              && FileEvent(e.ts, e.path, "moved_to", None) in Expand(events, _ => true)
  {
    if events != [] {
      var n := |events| - 1;
      AllExpanded(events[..n]);
      assert Expand(events, _ => true) == Expand(events[..n], _ => true) + Halves(events[n]);
      HalvesAre(events[n]);
      assert forall e :: e in events <==> e in events[..n] || e == events[n];
    }
  }

  lemma {:induction false} HalvesAre(e: FileEvent)
    ensures if e.op == "renamed" && e.otherPath.Some?
            then Halves(e) == [FileEvent(e.ts, e.otherPath.value, "moved_from", None),
                               FileEvent(e.ts, e.path, "moved_to", None)]
            else Halves(e) == [e]
  {
  }

  // The time of the first touch of a path.
  function FirstTs(touches: seq<Touch>, path: string): Option<string> {
    if touches == [] then None
    else
      var n := |touches| - 1;
      var before := FirstTs(touches[..n], path);
      if before.Some? then before else if touches[n].path == path then Some(touches[n].ts) else None
  }

  lemma {:induction false} FirstTsConcat(a: seq<Touch>, b: seq<Touch>, path: string)
    ensures FirstTs(a + b, path) == if FirstTs(a, path).Some? then FirstTs(a, path) else FirstTs(b, path)
  {
    if b == [] {
      assert a + b == a;
    } else {
      var n := |b| - 1;
      assert (a + b)[..|a| + n] == a + b[..n];
      FirstTsConcat(a, b[..n], path);
    }
  }

  lemma {:induction false} FirstTouchesAreFirstTs(touches: seq<Touch>, f: Touch)
    ensures f in FirstTouches(touches) <==> FirstTs(touches, f.path) == Some(f.ts)
    ensures Seen(FirstTouches(touches), f.path) <==> FirstTs(touches, f.path).Some?
  {
    if touches != [] {
      var n := |touches| - 1;
      FirstTouchesAreFirstTs(touches[..n], f);
      FirstTouchesAreFirstTs(touches[..n], touches[n]);
      var before := FirstTouches(touches[..n]);
      if Seen(before, f.path) {
        var t :| t in before && t.path == f.path;
        assert t in FirstTouches(touches);
      }
      if !Seen(before, touches[n].path) {
        assert touches[n] in FirstTouches(touches);
      }
    }
  }

  lemma {:induction false} HalvesTouchAlike(e: FileEvent, path: string)
    ensures FirstTs(Touches(Halves(e)), path) == FirstTs(Touches([e]), path)
  {
    var h := Halves(e);
    assert Touches([e]) == EventTouches(e) by {
      assert [e][..0] == [];
    }
    if |h| == 2 {
      assert h[..1] == [h[0]] && [h[0]][..0] == [];
      var two := [Touch(h[0].path, e.ts), Touch(h[1].path, e.ts)];
      assert Touches(h) == two;
      assert two[..1] == [two[0]] && [two[0]][..0] == [];
      var other := EventTouches(e);
      assert other == [Touch(h[1].path, e.ts), Touch(h[0].path, e.ts)];
      assert other[..1] == [other[0]] && [other[0]][..0] == [];
    }
  }

  // The same time, found event by event.
  function FirstAt(events: seq<FileEvent>, path: string): Option<string> {
    if events == [] then None
    else
      var n := |events| - 1;
      var before := FirstAt(events[..n], path);
      if before.Some? then before else FirstTs(EventTouches(events[n]), path)
  }

  lemma {:induction false} FirstAtIsFirstTs(events: seq<FileEvent>, path: string)
    ensures FirstAt(events, path) == FirstTs(Touches(events), path)
  {
    if events != [] {
      var n := |events| - 1;
      FirstAtIsFirstTs(events[..n], path);
      FirstTsConcat(Touches(events[..n]), EventTouches(events[n]), path);
    }
  }

  lemma {:induction false} FirstAtConcat(a: seq<FileEvent>, b: seq<FileEvent>, path: string)
    ensures FirstAt(a + b, path) == if FirstAt(a, path).Some? then FirstAt(a, path) else FirstAt(b, path)
  {
    if b == [] {
      assert a + b == a;
    } else {
      var n := |b| - 1;
      assert (a + b)[..|a| + n] == a + b[..n];
      FirstAtConcat(a, b[..n], path);
    }
  }

  lemma {:induction false} HalvesFirstAlike(e: FileEvent, path: string)
    ensures FirstAt(Halves(e), path) == FirstAt([e], path)
  {
    HalvesTouchAlike(e, path);
    FirstAtIsFirstTs(Halves(e), path);
    FirstAtIsFirstTs([e], path);
  }

  lemma {:induction false} SameLastAlike(a: seq<FileEvent>, b: seq<FileEvent>, x: seq<FileEvent>, y: seq<FileEvent>,
                                         path: string)
    requires FirstAt(a, path) == FirstAt(b, path) && FirstAt(x, path) == FirstAt(y, path)
    ensures FirstAt(a + x, path) == FirstAt(b + y, path)
  {
    FirstAtConcat(a, x, path);
    FirstAtConcat(b, y, path);
  }

  lemma {:induction false} ExpandFirstAlike(events: seq<FileEvent>, pick: nat -> bool, path: string)
    ensures FirstAt(Expand(events, pick), path) == FirstAt(events, path)
  {
    if events != [] {
      var n := |events| - 1;
      var init, whole := events[..n], [events[n]];
      var last := if pick(n) then Halves(events[n]) else whole;
      ExpandFirstAlike(init, pick, path);
      HalvesFirstAlike(events[n], path);
      SameLastAlike(Expand(init, pick), init, last, whole, path);
      assert events == init + whole;
    }
  }

  lemma {:induction false} ExpandTouchesAlike(events: seq<FileEvent>, pick: nat -> bool, path: string)
    ensures FirstTs(Touches(Expand(events, pick)), path) == FirstTs(Touches(events), path)
  {
    ExpandFirstAlike(events, pick, path);
    FirstAtIsFirstTs(Expand(events, pick), path);
    FirstAtIsFirstTs(events, path);
  }

  /* ---- Equal up to order ---- */

  lemma {:induction false} DistinctTouchOnce(a: seq<Touch>, t: Touch)
    requires DistinctPaths(a)
    ensures multiset(a)[t] == if t in a then 1 else 0
  {
    if t in a {
      var k :| 0 <= k < |a| && a[k] == t;
      assert a == a[..k] + [a[k]] + a[k + 1..];
      assert a[k] !in a[..k] && a[k] !in a[k + 1..];
    }
  }

  function Without<T>(s: seq<T>, j: nat): seq<T>
    requires j < |s|
  {
    s[..j] + s[j + 1..]
  }

  lemma {:induction false} WithoutOne<T>(s: seq<T>, j: nat)
    requires j < |s|
    ensures multiset(s) == multiset(Without(s, j)) + multiset{s[j]}
  {
    assert s == s[..j] + [s[j]] + s[j + 1..];
  }

  lemma {:induction false} Cancel<T>(a: multiset<T>, b: multiset<T>, x: T)
    requires a + multiset{x} == b + multiset{x}
    ensures a == b
  {
    assert a == (a + multiset{x}) - multiset{x};
    assert b == (b + multiset{x}) - multiset{x};
  }

  ghost predicate Maps<S, T>(f: S -> T, a: seq<S>, x: seq<T>) {
    |x| == |a| && forall i :: 0 <= i < |a| ==> x[i] == f(a[i])
  }

  lemma {:induction false} PermutedMaps<S, T>(f: S -> T, a: seq<S>, b: seq<S>, x: seq<T>, y: seq<T>)
    requires multiset(a) == multiset(b) && Maps(f, a, x) && Maps(f, b, y)
    ensures multiset(x) == multiset(y)
    decreases |a|
  {
    if a == [] {
      assert b == [] by { assert |multiset(b)| == 0; }
    } else {
      assert a[0] in multiset(b);
      var j :| 0 <= j < |b| && b[j] == a[0];
      WithoutOne(a, 0);
      WithoutOne(b, j);
      Cancel(multiset(Without(a, 0)), multiset(Without(b, j)), a[0]);
      PermutedMaps(f, Without(a, 0), Without(b, j), Without(x, 0), Without(y, j));
      WithoutOne(x, 0);
      WithoutOne(y, j);
    }
  }

  /** Replacing any renames by their halves changes neither the steps of the
   *  plan nor how many there are of each; only ties in the order can move.
   */
  lemma {:induction false} RenamesPlanAlike(events: seq<FileEvent>, pick: nat -> bool, c: Setting, fs: Tree)
    ensures multiset(PlanOf(Expand(events, pick), c, fs)) == multiset(PlanOf(events, c, fs))
  {
    var a, b := FirstTouches(Touches(Expand(events, pick))), FirstTouches(Touches(events));
    FirstTouchesAreFirst(Touches(Expand(events, pick)));
    FirstTouchesAreFirst(Touches(events));
    forall f ensures multiset(a)[f] == multiset(b)[f] {
      FirstTouchesAreFirstTs(Touches(Expand(events, pick)), f);
      FirstTouchesAreFirstTs(Touches(events), f);
      ExpandTouchesAlike(events, pick, f.path);
      DistinctTouchOnce(a, f);
      DistinctTouchOnce(b, f);
    }
    PermutedMaps(f => StepFor(fs, c, f), a, b, StepsFor(fs, c, a), StepsFor(fs, c, b));
    OrderedPermutes(StepsFor(fs, c, a));
    OrderedPermutes(StepsFor(fs, c, b));
  }

  lemma {:induction false} PermutedIsUndoable(a: seq<Step>, b: seq<Step>, c: Setting, fs: Tree, snap: string)
    requires Undoable(fs, c, snap, a)
    requires SafeOrder(b) && multiset(a) == multiset(b)
    ensures Undoable(fs, c, snap, b)
  {
    forall s ensures s in a <==> s in b {
      SameElements(a, b, s);
    }
    forall i | 0 <= i < |b| ensures Follows(fs, c, snap, b[i]) {
      assert b[i] in a;
      var j :| 0 <= j < |a| && a[j] == b[i];
      assert Follows(fs, c, snap, a[j]);
    }
    forall r | InScope(c, r) && Planned(c, a, r) ensures Planned(c, b, r) {
      var j :| 0 <= j < |a| && a[j].path == c.liveRoot + r;
      assert a[j] in b;
      var i :| 0 <= i < |b| && b[i] == a[j];
    }
  }

  /** Where the undo theorem applies, both forms of the manifest undo to the same
   *  live tree, lost empty directories included.
   */
  lemma {:induction false} RenamesUndoAlike(events: seq<FileEvent>, pick: nat -> bool, c: Setting, fs: Tree,
                                            snap: string)
    requires Undoable(fs, c, snap, PlanOf(events, c, fs))
    ensures forall r :: InScope(c, r) ==>
              Live(Result(fs, PlanOf(Expand(events, pick), c, fs)), c, r)
              == Live(Result(fs, PlanOf(events, c, fs)), c, r)
  {
    var a, b := PlanOf(events, c, fs), PlanOf(Expand(events, pick), c, fs);
    RenamesPlanAlike(events, pick, c, fs);
    PlanIsShaped(Expand(events, pick), c, fs);
    PermutedIsUndoable(a, b, c, fs, snap);
    forall r | InScope(c, r) ensures Live(Result(fs, b), c, r) == Live(Result(fs, a), c, r) {
      UndoLeaves(fs, c, snap, a, r);
      UndoLeaves(fs, c, snap, b, r);
    }
  }
}
