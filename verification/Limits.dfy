/** Manifests on which an undo does less than one might expect, each with the plan
 *  it leads to.  The conditions that rule them out are proved elsewhere.
 */
module Limits {
  import opened Wrappers
  import opened FileTree
  import opened Revert
  import opened Apply
  import opened Undo
  import opened ExactUndo
  import Lex
  import Refusals

  /* ---- Working out a plan ---- */

  // A slash, then at least two letters, then more.
  predicate LongTop(p: string) {
    |p| >= 4 && p[0] == '/' && p[1] != '/' && p[2] != '/'
  }

  lemma {:induction false} PrefixesAreLongTopped()
    ensures forall p :: p in REFUSED_PREFIXES ==> LongTop(p)
  {
  }

  lemma {:induction false} ShortTopIsAllowed(path: string)
    requires |path| < 4 || path[2] == '/'
    ensures Refused(path).None?
  {
    PrefixesAreLongTopped();
  }

  lemma {:induction false} OneDigit(a: char, b: char)
    ensures Lex.Le([a], [b]) <==> a <= b
  {
    assert [a][1..] == [] && [b][1..] == [];
  }

  lemma {:induction false} TouchesOfTwo(a: FileEvent, b: FileEvent)
    requires a.otherPath.None? && b.otherPath.None? && a.path != b.path
    ensures FirstTouches(Touches([a, b])) == [Touch(a.path, a.ts), Touch(b.path, b.ts)]
  {
    var s, t := Touch(a.path, a.ts), Touch(b.path, b.ts);
    assert [a, b][..1] == [a] && [a][..0] == [];
    assert Touches([a]) == [s];
    assert Touches([a, b]) == [s, t];
    assert [s, t][..1] == [s] && [s][..0] == [];
    assert FirstTouches([s]) == [s];
  }

  lemma {:induction false} RankOfOne(a: Step, k: nat)
    ensures OfRank([a], k) == if Rank(a) == k then [a] else []
  {
    assert [a][..0] == [];
  }

  lemma {:induction false} RankOfTwo(a: Step, b: Step, k: nat)
    ensures OfRank([a, b], k) == (if Rank(a) == k then [a] else []) + (if Rank(b) == k then [b] else [])
  {
    assert [a, b][..1] == [a];
    RankOfOne(a, k);
  }

  lemma {:induction false} OrderOfTwo(a: Step, b: Step)
    requires a.Restore? && !b.Skip?
    ensures Ordered([a, b]) == [a, b]
  {
    RankOfTwo(a, b, 0);
    RankOfTwo(a, b, 1);
    RankOfTwo(a, b, 2);
    assert [b][..0] == [] && SortDeepest([b]) == [b];
  }

  lemma {:induction false} PlanOfTwo(a: FileEvent, b: FileEvent, c: Setting, fs: Tree)
    requires a.otherPath.None? && b.otherPath.None? && a.path != b.path
    requires StepFor(fs, c, Touch(a.path, a.ts)).Restore? && !StepFor(fs, c, Touch(b.path, b.ts)).Skip?
    ensures PlanOf([a, b], c, fs) == [StepFor(fs, c, Touch(a.path, a.ts)), StepFor(fs, c, Touch(b.path, b.ts))]
  {
    var s, t := Touch(a.path, a.ts), Touch(b.path, b.ts);
    TouchesOfTwo(a, b);
    assert StepsFor(fs, c, [s, t]) == [StepFor(fs, c, s), StepFor(fs, c, t)];
    OrderOfTwo(StepFor(fs, c, s), StepFor(fs, c, t));
  }

  lemma {:induction false} OrderOfOne(step: Step)
    requires step.Restore?
    ensures Ordered([step]) == [step]
  {
    RankOfOne(step, 0);
    RankOfOne(step, 1);
    RankOfOne(step, 2);
  }

  lemma {:induction false} TouchesOfOne(a: FileEvent)
    requires a.otherPath.None?
    ensures FirstTouches(Touches([a])) == [Touch(a.path, a.ts)]
  {
    var s := Touch(a.path, a.ts);
    assert [a][..0] == [] && Touches([a]) == [s];
    assert [s][..0] == [];
  }

  lemma {:induction false} PlanOfOne(a: FileEvent, c: Setting, fs: Tree)
    requires a.otherPath.None? && StepFor(fs, c, Touch(a.path, a.ts)).Restore?
    ensures PlanOf([a], c, fs) == [StepFor(fs, c, Touch(a.path, a.ts))]
  {
    var s := Touch(a.path, a.ts);
    var step := StepFor(fs, c, s);
    TouchesOfOne(a);
    assert StepsFor(fs, c, [s]) == [step];
    OrderOfOne(step);
  }

  lemma {:induction false} StepRestores(fs: Tree, c: Setting, t: Touch, p: Path, snap: string, from: Path)
    requires Components(t.path) == p && Refused(t.path).None? && c.liveRoot <= p
    requires SnapshotBefore(c.snapshots, t.ts) == Some(snap)
    requires from == PreImage(c, snap, p)
    ensures StepFor(fs, c, t) == if from in fs then Restore(p, from) else Remove(p)
  {
  }

  // A plain path read from its canonical spelling.
  lemma {:induction false} Spelt(path: string, p: Path)
    requires PlainComponents(p) && path == Render(p)
    ensures Components(path) == p
  {
    ComponentsOfRender(p);
  }

  lemma {:induction false} NewestOfOne(ts: string)
    requires Lex.Le("1", ts)
    ensures SnapshotBefore(["1"], ts) == Some("1")
  {
    assert "1" in ["1"];
  }

  /* ---- Refusals are textual ---- */

  lemma {:induction false} ProcessesIsRefused()
    ensures Refused("/processes") == Some(NotPersistent("/proc"))
  {
    assert REFUSED_PREFIXES[6] == "/proc" && "/proc" <= "/processes";
    assert "/proc" in REFUSED_PREFIXES;
    forall q | q in REFUSED_PREFIXES && q <= "/processes" ensures q == "/proc" {
      assert q[1] == 'p' && q[2] == 'r';
    }
    Refusals.NoManagerNamed("/proc");
  }

  lemma {:induction false} DoubleSlashIsAllowed(path: string)
    requires |path| >= 2 && path[1] == '/'
    ensures Refused(path).None?
  {
    PrefixesAreLongTopped();
  }

  lemma {:induction false} RefusedStartsWithSlash(path: string)
    requires Refused(path).Some?
    ensures path != "" && path[0] == '/'
  {
    PrefixesAreLongTopped();
  }

  // Another spelling of a refused path is not refused.
  lemma {:induction false} SpellingEscapesRefusal(path: string)
    requires Refused(path).Some?
    ensures Refused("/" + path).None? && Components("/" + path) == Components(path)
  {
    RefusedStartsWithSlash(path);
    DoubleSlashIsAllowed("/" + path);
    LeadingSlash(path);
  }

  /* ---- One path, two spellings ---- */

  const TWO_SNAPSHOTS: Tree := map[
    [] := Dir, ["a"] := File("now"), ["s"] := Dir, ["s", "1"] := Dir, ["s", "3"] := Dir,
    ["s", "1", "a"] := File("one"), ["s", "3", "a"] := File("three")
  ]

  function Written(path: string): FileEvent {
    FileEvent("2", path, "close_write", None)
  }

  function Deleted(path: string, ts: string): FileEvent {
    FileEvent(ts, path, "delete", None)
  }

  lemma {:induction false} NewestOfTwo()
    ensures SnapshotBefore(["1", "3"], "2") == Some("1") && SnapshotBefore(["1", "3"], "4") == Some("3")
  {
    OneDigit('1', '2');
    OneDigit('3', '2');
    OneDigit('1', '4');
    OneDigit('3', '4');
    OneDigit('3', '1');
    assert "1" in ["1", "3"] && "3" in ["1", "3"];
  }

  const BOTH := Setting(["1", "3"], ["s"], [])

  // As the two watchers spell a file of the root.
  lemma {:induction false} TwoSpellingsRead()
    ensures Components("/a") == ["a"] && Components("//a") == ["a"]
    ensures Refused("/a").None? && Refused("//a").None?
  {
    assert Joined(["a"]) == "/a" by {
      assert ["a"][1..] == [];
    }
    Spelt("/a", ["a"]);
    LeadingSlash("/a");
    assert "/" + "/a" == "//a";
    ShortTopIsAllowed("/a");
    ShortTopIsAllowed("//a");
  }

  ghost predicate Spells(path: string, p: Path) {
    Components(path) == p && Refused(path).None?
  }

  lemma {:induction false} TwoSpellingsSteps(a: string, b: string)
    requires Spells(a, ["a"]) && Spells(b, ["a"])
    ensures StepFor(TWO_SNAPSHOTS, BOTH, Touch(a, "2")) == Restore(["a"], ["s", "1", "a"])
    ensures StepFor(TWO_SNAPSHOTS, BOTH, Touch(b, "4")) == Restore(["a"], ["s", "3", "a"])
  {
    NewestOfTwo();
    assert PreImage(BOTH, "1", ["a"]) == ["s", "1", "a"] && PreImage(BOTH, "3", ["a"]) == ["s", "3", "a"];
    StepRestores(TWO_SNAPSHOTS, BOTH, Touch(a, "2"), ["a"], "1", ["s", "1", "a"]);
    StepRestores(TWO_SNAPSHOTS, BOTH, Touch(b, "4"), ["a"], "3", ["s", "3", "a"]);
  }

  lemma {:induction false} TwoSpellingsPlan(a: string, b: string)
    requires a != b && Spells(a, ["a"]) && Spells(b, ["a"])
    ensures PlanOf([Written(a), Deleted(b, "4")], BOTH, TWO_SNAPSHOTS)
         == [Restore(["a"], ["s", "1", "a"]), Restore(["a"], ["s", "3", "a"])]
  {
    TwoSpellingsSteps(a, b);
    PlanOfTwo(Written(a), Deleted(b, "4"), BOTH, TWO_SNAPSHOTS);
  }

  // A copy to the top level needs no new directory.
  lemma {:induction false} TopLevelCopy(fs: Tree, from: Path)
    requires WellFormed(fs) && ["a"] in fs && fs[["a"]].File? && from != [] && from != ["a"]
    ensures OutcomeOf(fs, Restore(["a"], from)) == Applied <==> At(fs, from).Some? && fs[from].File?
    ensures At(fs, from).Some? && fs[from].File? ==> Effect(fs, Restore(["a"], from)) == fs[["a"] := fs[from]]
  {
    ParentsThere(fs, ["a"]);
  }

  lemma {:induction false} TwoSnapshotsWellFormed()
    ensures WellFormed(TWO_SNAPSHOTS)
  {
    assert Parent(["s", "1", "a"]) == ["s", "1"] && Parent(["s", "3", "a"]) == ["s", "3"];
    assert Parent(["s", "1"]) == ["s"] && Parent(["s", "3"]) == ["s"];
    assert Parent(["s"]) == [] && Parent(["a"]) == [];
    forall p | p in TWO_SNAPSHOTS ensures SitsInDir(TWO_SNAPSHOTS, p) {
    }
  }

  /** A file under the root that both watchers report is planned twice, and the later
   *  snapshot wins although the command had touched the file before it.
   */
  lemma {:induction false} TwoSpellingsTakeTheLater(a: string, b: string)
    requires a != b && Spells(a, ["a"]) && Spells(b, ["a"])
    ensures var plan := PlanOf([Written(a), Deleted(b, "4")], BOTH, TWO_SNAPSHOTS);
            At(Result(TWO_SNAPSHOTS, plan), ["a"]) == Some(File("three"))
  {
    TwoSpellingsPlan(a, b);
    TwoSnapshotsWellFormed();
    var plan := [Restore(["a"], ["s", "1", "a"]), Restore(["a"], ["s", "3", "a"])];
    TopLevelCopy(TWO_SNAPSHOTS, ["s", "1", "a"]);
    var one := After(TWO_SNAPSHOTS, plan, 1);
    assert one == Effect(After(TWO_SNAPSHOTS, plan, 0), plan[0]);
    StaysWellFormed(TWO_SNAPSHOTS, plan, 1);
    TopLevelCopy(one, ["s", "3", "a"]);
    assert After(TWO_SNAPSHOTS, plan, 2) == Effect(one, plan[1]);
  }

  lemma {:induction false} RootFileTakesTheLater()
    ensures var plan := PlanOf([Written("/a"), Deleted("//a", "4")], BOTH, TWO_SNAPSHOTS);
            At(Result(TWO_SNAPSHOTS, plan), ["a"]) == Some(File("three"))
  {
    TwoSpellingsRead();
    TwoSpellingsTakeTheLater("/a", "//a");
  }

  // The same, with the file gone from the later snapshot.
  const GONE_LATER: Tree := map[
    [] := Dir, ["a"] := File("now"), ["s"] := Dir, ["s", "1"] := Dir, ["s", "3"] := Dir,
    ["s", "1", "a"] := File("one")
  ]

  lemma {:induction false} GoneLaterSteps(a: string, b: string)
    requires Spells(a, ["a"]) && Spells(b, ["a"])
    ensures StepFor(GONE_LATER, BOTH, Touch(a, "2")) == Restore(["a"], ["s", "1", "a"])
    ensures StepFor(GONE_LATER, BOTH, Touch(b, "4")) == Remove(["a"])
  {
    NewestOfTwo();
    assert PreImage(BOTH, "1", ["a"]) == ["s", "1", "a"] && PreImage(BOTH, "3", ["a"]) == ["s", "3", "a"];
    assert ["s", "3", "a"] !in GONE_LATER;
    StepRestores(GONE_LATER, BOTH, Touch(a, "2"), ["a"], "1", ["s", "1", "a"]);
    StepRestores(GONE_LATER, BOTH, Touch(b, "4"), ["a"], "3", ["s", "3", "a"]);
  }

  lemma {:induction false} GoneLaterWellFormed()
    ensures WellFormed(GONE_LATER)
  {
    assert Parent(["s", "1", "a"]) == ["s", "1"];
    assert Parent(["s", "1"]) == ["s"] && Parent(["s", "3"]) == ["s"];
    assert Parent(["s"]) == [] && Parent(["a"]) == [];
    forall p | p in GONE_LATER ensures SitsInDir(GONE_LATER, p) {
    }
  }

  lemma {:induction false} GoneLaterPlan(a: string, b: string)
    requires a != b && Spells(a, ["a"]) && Spells(b, ["a"])
    ensures PlanOf([Written(a), Deleted(b, "4")], BOTH, GONE_LATER)
         == [Restore(["a"], ["s", "1", "a"]), Remove(["a"])]
  {
    GoneLaterSteps(a, b);
    PlanOfTwo(Written(a), Deleted(b, "4"), BOTH, GONE_LATER);
  }

  /** Then the undo puts the file back and takes it away again. */
  lemma {:induction false} RootFileIsDroppedAgain()
    ensures var plan := PlanOf([Written("/a"), Deleted("//a", "4")], BOTH, GONE_LATER);
            && |plan| == 2 && RestoredBy(GONE_LATER, plan, 0, ["a"])
            && At(Result(GONE_LATER, plan), ["a"]) == None
  {
    TwoSpellingsRead();
    GoneLaterPlan("/a", "//a");
    DroppedAgain();
  }

  lemma {:induction false} DroppedAgain()
    ensures var plan := [Restore(["a"], ["s", "1", "a"]), Remove(["a"])];
            RestoredBy(GONE_LATER, plan, 0, ["a"]) && At(Result(GONE_LATER, plan), ["a"]) == None
  {
    var plan := [Restore(["a"], ["s", "1", "a"]), Remove(["a"])];
    GoneLaterWellFormed();
    TopLevelCopy(GONE_LATER, ["s", "1", "a"]);
    assert plan[1] in plan;
    assert RestoredBy(GONE_LATER, plan, 0, ["a"]);
    RestoredFileGoesExactlyWhenRemoved(GONE_LATER, plan, 0);
  }

  /* ---- A lost empty directory ---- */

  // The live tree is /l; its empty directory /l/d is gone.
  const LOST_DIR: Tree := map[[] := Dir, ["l"] := Dir, ["s"] := Dir, ["s", "1"] := Dir, ["s", "1", "d"] := Dir]
  const LIVE_BELOW := Setting(["1"], ["s"], ["l"])

  lemma {:induction false} LostDirWellFormed()
    ensures WellFormed(LOST_DIR)
  {
    assert Parent(["s", "1", "d"]) == ["s", "1"] && Parent(["s", "1"]) == ["s"];
    assert Parent(["s"]) == [] && Parent(["l"]) == [];
    forall p | p in LOST_DIR ensures SitsInDir(LOST_DIR, p) {
    }
  }

  lemma {:induction false} LostDirRead()
    ensures Spells("/l/d", ["l", "d"])
  {
    assert ["d"][1..] == [] && ["l", "d"][1..] == ["d"];
    assert Joined(["d"]) == "/d" && Joined(["l", "d"]) == "/l/d";
    Spelt("/l/d", ["l", "d"]);
    ShortTopIsAllowed("/l/d");
  }

  lemma {:induction false} LostDirPlan(d: string)
    requires Spells(d, ["l", "d"])
    ensures PlanOf([Deleted(d, "2")], LIVE_BELOW, LOST_DIR) == [Restore(["l", "d"], ["s", "1", "d"])]
  {
    OneDigit('1', '2');
    NewestOfOne("2");
    assert PreImage(LIVE_BELOW, "1", ["l", "d"]) == ["s", "1", "d"];
    StepRestores(LOST_DIR, LIVE_BELOW, Touch(d, "2"), ["l", "d"], "1", ["s", "1", "d"]);
    PlanOfOne(Deleted(d, "2"), LIVE_BELOW, LOST_DIR);
  }

  // What the live tree and the snapshot hold at each relative path.
  lemma {:induction false} LostDirViews(r: Path)
    ensures Live(LOST_DIR, LIVE_BELOW, r) == if r == [] then Some(Dir) else None
    ensures Snap(LOST_DIR, LIVE_BELOW, "1", r) == if r == [] || r == ["d"] then Some(Dir) else None
    ensures InScope(LIVE_BELOW, r)
  {
    var live, snap := ["l"] + r, ["s"] + ["1"] + r;
    assert live[0] == "l" && live[1..] == r && snap[0] == "s" && snap[2..] == r;
    assert live in LOST_DIR <==> live == ["l"];
    assert live == ["l"] <==> r == [];
    assert snap in LOST_DIR <==> snap == ["s", "1"] || snap == ["s", "1", "d"];
    assert ["s", "1"][2..] == [] && ["s", "1", "d"][2..] == ["d"];
    assert r == [] ==> snap == ["s", "1"];
    assert r == ["d"] ==> snap == ["s", "1", "d"];
  }

  lemma {:induction false} LostDirIsUndoable()
    ensures Undoable(LOST_DIR, LIVE_BELOW, "1", [Restore(["l", "d"], ["s", "1", "d"])])
  {
    LostDirWellFormed();
    var plan := [Restore(["l", "d"], ["s", "1", "d"])];
    assert PreImage(LIVE_BELOW, "1", ["l", "d"]) == ["s", "1", "d"];
    assert ["s"][0] != ["l", "d"][0];
    assert Follows(LOST_DIR, LIVE_BELOW, "1", plan[0]);
    assert plan[0].path == LIVE_BELOW.liveRoot + ["d"];
    assert LIVE_BELOW.snapRoot + ["1"] == ["s", "1"];
    forall r | InScope(LIVE_BELOW, r)
      ensures SameKind(Live(LOST_DIR, LIVE_BELOW, r), Snap(LOST_DIR, LIVE_BELOW, "1", r))
      ensures Live(LOST_DIR, LIVE_BELOW, r) == Snap(LOST_DIR, LIVE_BELOW, "1", r) || Planned(LIVE_BELOW, plan, r)
    {
      LostDirViews(r);
    }
  }

  lemma {:induction false} LostDirIsLost()
    ensures LostEmptyDir(LOST_DIR, LIVE_BELOW, "1", ["d"])
  {
    forall q | |q| == 2 && ["d"] <= q ensures Snap(LOST_DIR, LIVE_BELOW, "1", q) == None {
      LostDirViews(q);
    }
    LostDirViews(["d"]);
  }

  /** Removing an empty directory cannot be undone: the manifest meets every condition
   *  of the undo theorem but the last, and the directory stays away.
   */
  lemma {:induction false} EmptyDirectoryIsNotRestored(d: string)
    requires Spells(d, ["l", "d"])
    ensures var plan := PlanOf([Deleted(d, "2")], LIVE_BELOW, LOST_DIR);
            && Undoable(LOST_DIR, LIVE_BELOW, "1", plan)
            && LostEmptyDir(LOST_DIR, LIVE_BELOW, "1", ["d"])
            && Live(Result(LOST_DIR, plan), LIVE_BELOW, ["d"]) == None
  {
    LostDirPlan(d);
    LostDirIsUndoable();
    LostDirIsLost();
    UndoLeaves(LOST_DIR, LIVE_BELOW, "1", [Restore(["l", "d"], ["s", "1", "d"])], ["d"]);
  }

  lemma {:induction false} RemovedDirectoryIsNotRestored()
    ensures var plan := PlanOf([Deleted("/l/d", "2")], LIVE_BELOW, LOST_DIR);
            Undoable(LOST_DIR, LIVE_BELOW, "1", plan) && Live(Result(LOST_DIR, plan), LIVE_BELOW, ["d"]) == None
  {
    LostDirRead();
    EmptyDirectoryIsNotRestored("/l/d");
  }

  /* ---- A touched snapshot store ---- */

  const STORE: Tree := map[
    [] := Dir, ["s"] := Dir, ["s", "1"] := Dir, ["s", "1", "a"] := File("old"), ["a"] := File("new")
  ]
  const STORE_INSIDE := Setting(["1"], ["s"], [])
  const COPY := Restore(["a"], ["s", "1", "a"])
  const DROP := Remove(["s", "1", "a"])

  lemma {:induction false} StoreIsWellFormed()
    ensures WellFormed(STORE)
  {
    assert Parent(["s", "1", "a"]) == ["s", "1"] && Parent(["s", "1"]) == ["s"];
    assert Parent(["s"]) == [] && Parent(["a"]) == [];
    forall p | p in STORE ensures SitsInDir(STORE, p) {
    }
  }

  lemma {:induction false} StoreFileRead()
    ensures Spells("/s/1/a", ["s", "1", "a"])
  {
    assert ["s", "1", "a"][1..] == ["1", "a"] && ["1", "a"][1..] == ["a"] && ["a"][1..] == [];
    assert Joined(["a"]) == "/a" && Joined(["1", "a"]) == "/1/a" && Joined(["s", "1", "a"]) == "/s/1/a";
    Spelt("/s/1/a", ["s", "1", "a"]);
    ShortTopIsAllowed("/s/1/a");
  }

  lemma {:induction false} TouchedStoreSteps(a: string, x: string)
    requires Spells(a, ["a"]) && Spells(x, ["s", "1", "a"])
    ensures StepFor(STORE, STORE_INSIDE, Touch(a, "2")) == COPY
    ensures StepFor(STORE, STORE_INSIDE, Touch(x, "2")) == DROP
  {
    OneDigit('1', '2');
    NewestOfOne("2");
    assert PreImage(STORE_INSIDE, "1", ["a"]) == ["s", "1", "a"];
    assert PreImage(STORE_INSIDE, "1", ["s", "1", "a"]) == ["s", "1", "s", "1", "a"];
    StepRestores(STORE, STORE_INSIDE, Touch(a, "2"), ["a"], "1", ["s", "1", "a"]);
    StepRestores(STORE, STORE_INSIDE, Touch(x, "2"), ["s", "1", "a"], "1", ["s", "1", "s", "1", "a"]);
  }

  lemma {:induction false} TouchedStorePlan(a: string, x: string)
    requires Spells(a, ["a"]) && Spells(x, ["s", "1", "a"])
    ensures PlanOf([Written(a), Written(x)], STORE_INSIDE, STORE) == [COPY, DROP]
  {
    TouchedStoreSteps(a, x);
    PlanOfTwo(Written(a), Written(x), STORE_INSIDE, STORE);
  }

  lemma {:induction false} FirstRunDrops()
    ensures Total(STORE, [COPY, DROP], Failed) == 0
    ensures WellFormed(Result(STORE, [COPY, DROP]))
    ensures At(Result(STORE, [COPY, DROP]), ["s", "1", "a"]) == None
    ensures At(Result(STORE, [COPY, DROP]), ["a"]) == Some(File("old"))
  {
    var steps := [COPY, DROP];
    var one := After(STORE, steps, 1);
    StoreIsWellFormed();
    StaysWellFormed(STORE, steps, 2);
    TopLevelCopy(STORE, ["s", "1", "a"]);
    assert one == Effect(After(STORE, steps, 0), COPY);
    assert OutcomeOf(one, DROP) == Applied;
    RemoveAt(one, ["s", "1", "a"], ["s", "1", "a"]);
    RemoveAt(one, ["s", "1", "a"], ["a"]);
    assert After(STORE, steps, 2) == Effect(one, DROP);
    assert Count(STORE, steps, 1, Failed) == 0;
  }

  /** With the store inside the live tree and one of its files touched, the first
   *  run removes what the second wants to copy.
   */
  lemma {:induction false} TouchedStoreBreaksReapply(a: string, x: string)
    requires Spells(a, ["a"]) && Spells(x, ["s", "1", "a"])
    ensures var plan := PlanOf([Written(a), Written(x)], STORE_INSIDE, STORE);
            Total(STORE, plan, Failed) == 0 && Total(Result(STORE, plan), plan, Failed) > 0
  {
    TouchedStorePlan(a, x);
    var two := Result(STORE, [COPY, DROP]);
    FirstRunDrops();
    TopLevelCopy(two, ["s", "1", "a"]);
    assert OutcomeOf(After(two, [COPY, DROP], 0), COPY) == Failed;
    assert Count(two, [COPY, DROP], 1, Failed) == 1;
  }

  lemma {:induction false} TamperingBreaksReapply()
    ensures var plan := PlanOf([Written("/a"), Written("/s/1/a")], STORE_INSIDE, STORE);
            Total(STORE, plan, Failed) == 0 && Total(Result(STORE, plan), plan, Failed) > 0
  {
    TwoSpellingsRead();
    StoreFileRead();
    TouchedStoreBreaksReapply("/a", "/s/1/a");
  }
}
