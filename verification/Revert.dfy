/** How an undo is planned: first touch, snapshot choice, order. */
module Revert {
  import opened Wrappers
  import opened FileTree
  import Lex

  // The fields of a manifest entry that planning reads.
  datatype FileEvent = FileEvent(ts: string, path: string, op: string, otherPath: Option<string>)

  datatype Reason = PackageManager(prefix: string) | NotPersistent(prefix: string) | Outside | NoSnapshot

  datatype Step =
    | Restore(path: Path, from: Path)
    | Remove(path: Path)
    | Skip(path: Path, why: Reason)

  /* ---- Paths as strings ---- */

  function UpToSlash(s: string): (n: nat)
    ensures n <= |s|
    ensures '/' !in s[..n]
    ensures n < |s| ==> s[n] == '/'
  {
    if s == [] || s[0] == '/' then 0 else 1 + UpToSlash(s[1..])
  }

  // Path::components without the root: repeated slashes and "." disappear.
  function Components(s: string): Path
    decreases |s|
  {
    if s == [] then []
    else
      var n := UpToSlash(s);
      var rest := if n < |s| then Components(s[n + 1..]) else [];
      if n == 0 || s[..n] == "." then rest else [s[..n]] + rest
  }

  function Joined(p: Path): string {
    if p == [] then "" else "/" + p[0] + Joined(p[1..])
  }

  function Render(p: Path): string {
    if p == [] then "/" else Joined(p)
  }

  // The canonical spelling of an absolute path.  The watcher of info records spells
  // a file directly under the root with two slashes, so a touched path need not be.
  predicate Normal(s: string) {
    s == Render(Components(s))
  }

  predicate PlainComponents(p: Path) {
    forall i :: 0 <= i < |p| ==> p[i] != "" && p[i] != "." && '/' !in p[i]
  }

  lemma {:induction false} SplitAtSlash(a: string, b: string)
    requires '/' !in a
    requires b == [] || b[0] == '/'
    ensures UpToSlash(a + b) == |a|
  {
    if a == [] {
      assert a + b == b;
    } else {
      assert a[0] != '/' by { assert a[0] in a; }
      assert (a + b)[1..] == a[1..] + b;
      SplitAtSlash(a[1..], b);
    }
  }

  // Every component sequence is the reading of its canonical spelling.
  lemma {:induction false} ComponentsOfRender(p: Path)
    requires PlainComponents(p)
    ensures Components(Render(p)) == p
    ensures Normal(Render(p))
  {
    if p == [] {
      assert Components("/") == [] by {
        assert UpToSlash("/") == 0;
        assert Components("/"[1..]) == [];
      }
    } else {
      ComponentsOfJoined(p);
    }
  }

  lemma {:induction false} ComponentsOfJoined(p: Path)
    requires PlainComponents(p)
    ensures Components(Joined(p)) == p
  {
    if p != [] {
      ComponentsOfJoined(p[1..]);
      OneMoreComponent(p[0], p[1..]);
    }
  }

  lemma {:induction false} OneMoreComponent(a: string, p: Path)
    requires a != "" && a != "." && '/' !in a
    ensures Components(Joined([a] + p)) == [a] + Components(Joined(p))
  {
    var rest := Joined(p);
    JoinedHead(a, p);
    LeadingSlash(a + rest);
    assert rest == [] || rest[0] == '/';
    FirstComponent(a, rest);
  }

  lemma {:induction false} JoinedHead(a: string, p: Path)
    ensures Joined([a] + p) == "/" + (a + Joined(p))
  {
    assert ([a] + p)[1..] == p;
    assert "/" + (a + Joined(p)) == "/" + a + Joined(p);
  }

  lemma {:induction false} LeadingSlash(s: string)
    ensures Components("/" + s) == Components(s)
  {
    assert UpToSlash("/" + s) == 0;
    assert ("/" + s)[1..] == s;
  }

  lemma {:induction false} FirstComponent(a: string, rest: string)
    requires a != "" && a != "." && '/' !in a
    requires rest == [] || rest[0] == '/'
    ensures Components(a + rest) == [a] + Components(rest)
  {
    var s := a + rest;
    SplitAtSlash(a, rest);
    assert s[..|a|] == a;
    if rest == [] {
      assert Components(s) == [a] + [];
    } else {
      assert s[|a| + 1..] == rest[1..];
      assert Components(s) == [a] + Components(rest[1..]);
      LeadingSlash(rest[1..]);
      assert rest == "/" + rest[1..];
    }
  }

  lemma {:induction false} OneComponent(s: string)
    requires '/' !in s
    ensures Components(s) == if s == "" || s == "." then [] else [s]
  {
    SplitAtSlash(s, "");
    assert s + "" == s && s[..|s|] == s;
  }

  lemma {:induction false} FirstPiece(a: string, rest: string)
    requires '/' !in a
    ensures Components(a + "/" + rest) == Components(a) + Components(rest)
  {
    var s := a + "/" + rest;
    SplitAtSlash(a, "/" + rest);
    assert s == a + ("/" + rest) && s[..|a|] == a && s[|a| + 1..] == rest;
    OneComponent(a);
  }

  lemma {:induction false} SplitOnce(a: string)
    requires UpToSlash(a) < |a|
    ensures var n := UpToSlash(a); a == a[..n] + "/" + a[n + 1..]
  {
  }

  lemma {:induction false} Regroup(x: string, y: string, z: string)
    ensures x + "/" + y + "/" + z == x + "/" + (y + "/" + z)
  {
  }

  lemma {:induction false} JoinPaths(x: Path, y: Path, z: Path)
    ensures x + (y + z) == x + y + z
  {
  }

  lemma {:induction false} PieceBefore(head: string, rest: string, b: string, left: string, right: string)
    requires '/' !in head && left == head + "/" + rest
    requires Components(right) == Components(rest) + Components(b)
    ensures Components(head + "/" + right) == Components(left) + Components(b)
  {
    FirstPiece(head, rest);
    FirstPiece(head, right);
    JoinPaths(Components(head), Components(rest), Components(b));
  }

  /** A path is read piece by piece: a slash joins the components of what is on either
   *  side of it, and a piece without slashes is one component, or none if it is empty or
   *  a dot.
   */
  lemma {:induction false} ComponentsJoin(a: string, b: string)
    ensures Components(a + "/" + b) == Components(a) + Components(b)
    decreases |a|
  {
    if UpToSlash(a) == |a| {
      assert a[..|a|] == a;
      FirstPiece(a, b);
    } else {
      var head, rest := a[..UpToSlash(a)], a[UpToSlash(a) + 1..];
      ComponentsJoin(rest, b);
      SplitOnce(a);
      PieceBefore(head, rest, b, a, rest + "/" + b);
      Regroup(head, rest, b);
    }
  }

  /* ---- Refusals ---- */

  const REFUSED_PREFIXES: seq<string> := [
    "/var/lib/dpkg", "/var/lib/rpm", "/var/lib/pacman", "/var/db/xbps", "/var/lib/xbps",
    "/nix/store", "/proc", "/sys", "/dev", "/run"
  ]

  predicate Contains(s: string, sub: string) {
    exists i {:trigger s[i..]} :: 0 <= i <= |s| && sub <= s[i..]
  }

  predicate NamesPackageManager(prefix: string) {
    Contains(prefix, "dpkg") || Contains(prefix, "rpm") || Contains(prefix, "pacman") || Contains(prefix, "xbps")
  }

  function FirstPrefix(prefixes: seq<string>, s: string): (r: Option<string>)
    ensures r.None? ==> forall p :: p in prefixes ==> !(p <= s)
    ensures r.Some? ==> r.value in prefixes && r.value <= s
  {
    if prefixes == [] then None
    else
      assert forall p :: p in prefixes <==> p == prefixes[0] || p in prefixes[1..];
      if prefixes[0] <= s then Some(prefixes[0]) else FirstPrefix(prefixes[1..], s)
  }

  // A plain string prefix, so "/processes" is refused along with "/proc".
  function Refused(path: string): Option<Reason> {
    match FirstPrefix(REFUSED_PREFIXES, path)
    case None => None
    case Some(p) => Some(if NamesPackageManager(p) then PackageManager(p) else NotPersistent(p))
  }

  /* ---- The snapshot a time selects ---- */

  function SnapshotBefore(snapshots: seq<string>, ts: string): (r: Option<string>)
    ensures r.None? <==> forall s :: s in snapshots ==> !Lex.Le(s, ts)
    ensures r.Some? ==> r.value in snapshots && Lex.Le(r.value, ts)
    ensures r.Some? ==> forall s :: s in snapshots && Lex.Le(s, ts) ==> Lex.Le(s, r.value)
  {
    if snapshots == [] then None
    else
      var n := |snapshots| - 1;
      var s, best := snapshots[n], SnapshotBefore(snapshots[..n], ts);
      assert forall x :: x in snapshots <==> x in snapshots[..n] || x == s;
      if !Lex.Le(s, ts) then best
      else if best.None? then (Lex.Refl(s); Some(s))
      else
        Lex.Total(best.value, s);
        Lex.Refl(s);
        assert Lex.Le(best.value, s) ==> forall x :: x in snapshots[..n] && Lex.Le(x, ts) ==> Lex.Le(x, s) by {
          forall x | Lex.Le(best.value, s) && x in snapshots[..n] && Lex.Le(x, ts) ensures Lex.Le(x, s) {
            Lex.Transitive(x, best.value, s);
          }
        }
        if Lex.Le(best.value, s) then Some(s) else best
  }

  /* ---- First touches ---- */

  datatype Touch = Touch(path: string, ts: string)

  function EventTouches(e: FileEvent): seq<Touch> {
    [Touch(e.path, e.ts)] + match e.otherPath case None => [] case Some(o) => [Touch(o, e.ts)]
  }

  function Touches(events: seq<FileEvent>): seq<Touch> {
    if events == [] then []
    else Touches(events[..|events| - 1]) + EventTouches(events[|events| - 1])
  }

  lemma {:induction false} TouchesSnoc(events: seq<FileEvent>, i: nat)
    requires i < |events|
    ensures Touches(events[..i + 1]) == Touches(events[..i]) + EventTouches(events[i])
  {
    assert events[..i + 1][..i] == events[..i];
  }

  lemma {:induction false} FirstTouchesSnoc(touches: seq<Touch>, t: Touch)
    ensures FirstTouches(touches + [t]) == AddTouch(FirstTouches(touches), t)
  {
    assert (touches + [t])[..|touches|] == touches;
  }

  predicate Seen(touches: seq<Touch>, path: string) {
    exists t :: t in touches && t.path == path
  }

  // One entry a path, in first-touch order, with the time of that first touch.
  function FirstTouches(touches: seq<Touch>): seq<Touch> {
    if touches == [] then []
    else
      var n := |touches| - 1;
      AddTouch(FirstTouches(touches[..n]), touches[n])
  }

  function AddTouch(firsts: seq<Touch>, t: Touch): seq<Touch> {
    if Seen(firsts, t.path) then firsts else firsts + [t]
  }

  /* ---- The plan ---- */

  datatype Setting = Setting(snapshots: seq<string>, snapRoot: Path, liveRoot: Path)

  function PreImage(c: Setting, snap: string, path: Path): Path
    requires c.liveRoot <= path
  {
    c.snapRoot + [snap] + path[|c.liveRoot|..]
  }

  function StepFor(fs: Tree, c: Setting, t: Touch): Step {
    var path := Components(t.path);
    match Refused(t.path)
    case Some(why) => Skip(path, why)
    case None =>
      if !(c.liveRoot <= path) then Skip(path, Outside)
      else
        match SnapshotBefore(c.snapshots, t.ts)
        case None => Skip(path, NoSnapshot)
        case Some(snap) =>
          var from := PreImage(c, snap, path);
          if from in fs then Restore(path, from) else Remove(path)
  }

  function StepsFor(fs: Tree, c: Setting, touches: seq<Touch>): (r: seq<Step>)
    ensures |r| == |touches|
    ensures forall i :: 0 <= i < |r| ==> r[i] == StepFor(fs, c, touches[i])
  {
    if touches == [] then []
    else
      var n := |touches| - 1;
      StepsFor(fs, c, touches[..n]) + [StepFor(fs, c, touches[n])]
  }

  function Rank(s: Step): nat {
    match s case Restore(_, _) => 0 case Remove(_) => 1 case Skip(_, _) => 2
  }

  function OfRank(steps: seq<Step>, k: nat): seq<Step> {
    if steps == [] then []
    else
      var n := |steps| - 1;
      OfRank(steps[..n], k) + if Rank(steps[n]) == k then [steps[n]] else []
  }

  // The root counts as a component.
  function Depth(p: Path): nat {
    1 + |p|
  }

  // The stable sort by descending depth.
  function SortDeepest(steps: seq<Step>): seq<Step> {
    if steps == [] then []
    else
      var n := |steps| - 1;
      InsertByDepth(SortDeepest(steps[..n]), steps[n])
  }

  function InsertByDepth(sorted: seq<Step>, s: Step): seq<Step> {
    if sorted == [] then [s]
    else
      var n := |sorted| - 1;
      if Depth(sorted[n].path) >= Depth(s.path) then sorted + [s]
      else InsertByDepth(sorted[..n], s) + [sorted[n]]
  }

  function Ordered(steps: seq<Step>): seq<Step> {
    OfRank(steps, 0) + SortDeepest(OfRank(steps, 1)) + OfRank(steps, 2)
  }

  function PlanOf(events: seq<FileEvent>, c: Setting, fs: Tree): seq<Step> {
    Ordered(StepsFor(fs, c, FirstTouches(Touches(events))))
  }

  // What the two collections of the touch closure hold after some touches.
  ghost predicate Collects(order: seq<string>, first: map<string, string>, firsts: seq<Touch>) {
    && |order| == |firsts|
    && (forall i :: 0 <= i < |order| ==> order[i] == firsts[i].path)
    && (forall i :: 0 <= i < |order| ==> order[i] in first && first[order[i]] == firsts[i].ts)
    && (forall p :: p in first ==> p in order)
  }

  method RecordTouch(path: string, ts: string, order: seq<string>, first: map<string, string>, ghost firsts: seq<Touch>)
    returns (order': seq<string>, first': map<string, string>)
    requires Collects(order, first, firsts)
    ensures Collects(order', first', AddTouch(firsts, Touch(path, ts)))
  {
    order', first' := order, first;
    if path !in first {
      forall t | t in firsts ensures t.path != path {
        var i :| 0 <= i < |firsts| && firsts[i] == t;
        assert order[i] in first;
      }
      order' := order + [path];
      first' := first[path := ts];
    } else {
      var i :| 0 <= i < |order| && order[i] == path;
      assert firsts[i] in firsts && firsts[i].path == path;
    }
  }

  // Both ends of an event.
  method RecordEnds(e: FileEvent, order: seq<string>, first: map<string, string>, ghost before: seq<Touch>)
    returns (order': seq<string>, first': map<string, string>)
    requires Collects(order, first, FirstTouches(before))
    ensures Collects(order', first', FirstTouches(before + EventTouches(e)))
  {
    ghost var one := before + [Touch(e.path, e.ts)];
    FirstTouchesSnoc(before, Touch(e.path, e.ts));
    order', first' := RecordTouch(e.path, e.ts, order, first, FirstTouches(before));
    if e.otherPath.Some? {
      FirstTouchesSnoc(one, Touch(e.otherPath.value, e.ts));
      order', first' := RecordTouch(e.otherPath.value, e.ts, order', first', FirstTouches(one));
      assert one + [Touch(e.otherPath.value, e.ts)] == before + EventTouches(e);
    }
  }

  // The first loop of planning: every touch, in manifest order.
  method FirstPass(events: seq<FileEvent>) returns (order: seq<string>, first: map<string, string>)
    ensures Collects(order, first, FirstTouches(Touches(events)))
  {
    order, first := [], map[];
    for i := 0 to |events|
      invariant Collects(order, first, FirstTouches(Touches(events[..i])))
    {
      TouchesSnoc(events, i);
      order, first := RecordEnds(events[i], order, first, Touches(events[..i]));
    }
    assert events[..|events|] == events;
  }

  // What to do about one path, touched first at this time.
  method PlanStep(fs: Tree, c: Setting, pathS: string, ts: string) returns (step: Step)
    ensures step == StepFor(fs, c, Touch(pathS, ts))
  {
    var path := Components(pathS);
    var why := Refused(pathS);
    if why.Some? {
      return Skip(path, why.value);
    }
    if !(c.liveRoot <= path) {
      return Skip(path, Outside);
    }
    var snap := SnapshotBefore(c.snapshots, ts);
    if snap.None? {
      return Skip(path, NoSnapshot);
    }
    var from := c.snapRoot + [snap.value] + path[|c.liveRoot|..];
    if from in fs {
      return Restore(path, from);
    }
    step := Remove(path);
  }

  method Plan(events: seq<FileEvent>, c: Setting, fs: Tree) returns (ordered: seq<Step>)
    ensures ordered == PlanOf(events, c, fs)
  {
    var order, first := FirstPass(events);
    ghost var firsts := FirstTouches(Touches(events));
    var steps: seq<Step> := [];
    for i := 0 to |order|
      invariant steps == StepsFor(fs, c, firsts[..i])
    {
      assert firsts[..i + 1][..i] == firsts[..i];
      assert firsts[i] == Touch(order[i], first[order[i]]);
      var step := PlanStep(fs, c, order[i], first[order[i]]);
      steps := steps + [step];
    }
    assert firsts[..|order|] == firsts;

    ordered := OfRank(steps, 0);
    var removes := SortDeepest(OfRank(steps, 1));
    ordered := ordered + removes;
    ordered := ordered + OfRank(steps, 2);
  }
}
