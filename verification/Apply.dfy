/** Carrying out an undo plan: the loop of `chronicle revert --apply`, what it
 *  leaves alone, and why running it twice is safe.
 */
module Apply {
  import opened Wrappers
  import opened FileTree
  import opened Revert

  /* ---- One step on values ---- */

  datatype Outcome = Applied | Kept | Failed | Skipped

  predicate ParentReady(fs: Tree, path: Path) {
    path == [] || CanMakeDirs(fs, Parent(path))
  }

  function WithParents(fs: Tree, path: Path): Tree {
    if path == [] then fs else MakeDirs(fs, Parent(path))
  }

  function OutcomeOf(fs: Tree, step: Step): Outcome {
    match step
    case Restore(path, from) =>
      if ParentReady(fs, path) && CanCopy(WithParents(fs, path), from, path) then Applied else Failed
    case Remove(path) =>
      match At(fs, path) {
        case Some(File(_)) => Applied
        case Some(Dir) => if HasChild(fs, path) then Kept else if path == [] then Failed else Applied
        case None => if BelowFile(fs, path) then Failed else Applied
      }
    case Skip(_, _) => Skipped
  }

  function Effect(fs: Tree, step: Step): Tree {
    match step
    case Restore(path, from) =>
      if !ParentReady(fs, path) then fs
      else
        var ready := WithParents(fs, path);
        if CanCopy(ready, from, path) then Copied(ready, from, path) else ready
    case Remove(path) =>
      if path in fs && OutcomeOf(fs, step) == Applied then fs - {path} else fs
    case Skip(_, _) => fs
  }

  // The tree after the first n steps.
  function After(fs: Tree, steps: seq<Step>, n: nat): Tree
    requires n <= |steps|
  {
    if n == 0 then fs else Effect(After(fs, steps, n - 1), steps[n - 1])
  }

  // How many of the first n steps ended this way.
  function Count(fs: Tree, steps: seq<Step>, n: nat, o: Outcome): nat
    requires n <= |steps|
  {
    if n == 0 then 0
    else Count(fs, steps, n - 1, o) + if OutcomeOf(After(fs, steps, n - 1), steps[n - 1]) == o then 1 else 0
  }

  function Result(fs: Tree, steps: seq<Step>): Tree {
    After(fs, steps, |steps|)
  }

  function Total(fs: Tree, steps: seq<Step>, o: Outcome): nat {
    Count(fs, steps, |steps|, o)
  }

  /* ---- The loop itself ---- */

  datatype IoResult = Ok | NotFound | OtherError

  class Disk {
    var tree: Tree

    method CreateDirAll(path: Path) returns (r: IoResult)
      modifies this
      ensures r == if CanMakeDirs(old(tree), path) then Ok else OtherError
      ensures tree == if r.Ok? then MakeDirs(old(tree), path) else old(tree)
    {
      if CanMakeDirs(tree, path) {
        tree := MakeDirs(tree, path);
        r := Ok;
      } else {
        r := OtherError;
      }
    }

    method Copy(from: Path, to: Path) returns (r: IoResult)
      modifies this
      ensures r.Ok? <==>
                CanCopy(old(tree), from, to) && (to == [] || At(old(tree), Parent(to)) == Some(Dir))
      ensures tree == if r.Ok? then Copied(old(tree), from, to) else old(tree)
    {
      r := OtherError;
      if CanCopy(tree, from, to) && (to == [] || At(tree, Parent(to)) == Some(Dir)) {
        tree := Copied(tree, from, to);
        r := Ok;
      }
    }

    method RemoveDir(path: Path) returns (r: IoResult)
      modifies this
      ensures r.Ok? <==> At(old(tree), path) == Some(Dir) && !HasChild(old(tree), path) && path != []
      ensures r.NotFound? <==> path !in old(tree) && !BelowFile(old(tree), path)
      ensures tree == if r.Ok? then old(tree) - {path} else old(tree)
    {
      r := OtherError;
      if path !in tree {
        if !BelowFile(tree, path) {
          r := NotFound;
        }
      } else if tree[path].Dir? && !HasChild(tree, path) && path != [] {
        tree := tree - {path};
        r := Ok;
      }
    }

    method RemoveFile(path: Path) returns (r: IoResult)
      modifies this
      ensures r.Ok? <==> path in old(tree) && old(tree)[path].File?
      ensures r.NotFound? <==> path !in old(tree) && !BelowFile(old(tree), path)
      ensures tree == if r.Ok? then old(tree) - {path} else old(tree)
    {
      r := OtherError;
      if path !in tree {
        if !BelowFile(tree, path) {
          r := NotFound;
        }
      } else if tree[path].File? {
        tree := tree - {path};
        r := Ok;
      }
    }

    method RestoreFile(path: Path, from: Path) returns (r: IoResult)
      modifies this
      ensures tree == Effect(old(tree), Restore(path, from))
      ensures r.Ok? <==> OutcomeOf(old(tree), Restore(path, from)) == Applied
    {
      r := Ok;
      if path != [] {
        r := CreateDirAll(Parent(path));
      }
      if r.Ok? {
        ghost var ready := tree;
        if path != [] {
          AtMakeDirs(old(tree), Parent(path), Parent(path));
        }
        r := Copy(from, path);
      }
    }

    // Already gone counts as removed.
    method RemoveAny(path: Path) returns (r: IoResult)
      modifies this
      ensures tree == Effect(old(tree), Remove(path))
      ensures r.Ok? <==> OutcomeOf(old(tree), Remove(path)) == Applied
    {
      if path in tree && tree[path].Dir? {
        r := RemoveDir(path);
      } else {
        r := RemoveFile(path);
      }
      if r.NotFound? {
        r := Ok;
      }
    }

    method ApplySteps(steps: seq<Step>) returns (ok: nat, kept: nat, failed: nat)
      modifies this
      ensures tree == Result(old(tree), steps)
      ensures ok == Total(old(tree), steps, Applied)
      ensures kept == Total(old(tree), steps, Kept)
      ensures failed == Total(old(tree), steps, Failed)
    {
      ok, kept, failed := 0, 0, 0;
      for i := 0 to |steps|
        invariant tree == After(old(tree), steps, i)
        invariant ok == Count(old(tree), steps, i, Applied)
        invariant kept == Count(old(tree), steps, i, Kept)
        invariant failed == Count(old(tree), steps, i, Failed)
      {
        ghost var before := tree;
        assert After(old(tree), steps, i + 1) == Effect(before, steps[i]);
        var r;
        match steps[i] {
          case Restore(path, from) => r := RestoreFile(path, from);
          case Remove(path) => r := RemoveAny(path);
          case Skip(_, _) => continue;
        }
        if r.Ok? {
          ok := ok + 1;
        } else {
          var path := steps[i].path;
          var nonEmpty := steps[i].Remove? && path in tree && tree[path].Dir? && HasChild(tree, path);
          if nonEmpty {
            kept := kept + 1;
          } else {
            failed := failed + 1;
          }
        }
      }
    }
  }
}
