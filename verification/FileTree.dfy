/** The file tree an undo runs against.
 *
 *  A tree maps component sequences to directories and regular files.  Only the
 *  outcomes the undo loop can tell apart are kept: missing, directory, file,
 *  non-empty, and "a component on the way is a file".
 */
module FileTree {
  import opened Wrappers

  type Path = seq<string>

  datatype Entry = Dir | File(bytes: string)

  type Tree = map<Path, Entry>

  function At(fs: Tree, p: Path): Option<Entry> {
    if p in fs then Some(fs[p]) else None
  }

  function Parent(p: Path): Path
    requires p != []
  {
    p[..|p| - 1]
  }

  ghost predicate SitsInDir(fs: Tree, p: Path) {
    p != [] ==> At(fs, Parent(p)) == Some(Dir)
  }

  // The root is a directory, and whatever exists sits in a directory.
  ghost predicate WellFormed(fs: Tree) {
    && At(fs, []) == Some(Dir)
    && forall p {:trigger SitsInDir(fs, p)} :: p in fs ==> SitsInDir(fs, p)
  }

  predicate ProperPrefix(p: Path, q: Path) {
    p <= q && p != q
  }

  predicate HasChild(fs: Tree, p: Path) {
    exists q :: q in fs && |q| == |p| + 1 && p <= q
  }

  // Some component strictly above p is a regular file (ENOTDIR).
  predicate BelowFile(fs: Tree, p: Path) {
    exists q :: q in fs && ProperPrefix(q, p) && fs[q].File?
  }

  // Everything strictly above an existing path is a directory.
  lemma {:induction false} AboveIsDir(fs: Tree, p: Path, q: Path)
    requires WellFormed(fs)
    requires q in fs
    requires ProperPrefix(p, q)
    ensures At(fs, p) == Some(Dir)
    decreases |q|
  {
    var up := Parent(q);
    assert SitsInDir(fs, q);
    assert p <= up;
    if p != up {
      AboveIsDir(fs, p, up);
    }
  }

  /* ---- The system calls of the undo loop ---- */

  // All prefixes of q, q included.
  function Prefixes(q: Path): (r: set<Path>) {
    set k | 0 <= k <= |q| :: q[..k]
  }

  lemma {:induction false} InPrefixes(p: Path, q: Path)
    ensures p in Prefixes(q) <==> p <= q
  {
    if p <= q {
      assert p == q[..|p|];
    }
  }

  // create_dir_all: fails, leaving the tree alone, when q or anything above it
  // is a file; otherwise every missing directory on the way appears.
  predicate CanMakeDirs(fs: Tree, q: Path) {
    forall p :: p in fs && p <= q ==> fs[p].Dir?
  }

  function MakeDirs(fs: Tree, q: Path): Tree {
    fs + map p | p in Prefixes(q) :: Dir
  }

  lemma {:induction false} AtMakeDirs(fs: Tree, q: Path, p: Path)
    ensures At(MakeDirs(fs, q), p) == if p <= q then Some(Dir) else At(fs, p)
  {
    InPrefixes(p, q);
  }

  // fs::copy: the source must be a file and the target must not be a directory.
  // Opening the target truncates it, so copying a file onto itself empties it.
  predicate CanCopy(fs: Tree, from: Path, to: Path) {
    At(fs, from).Some? && fs[from].File? && At(fs, to) != Some(Dir)
  }

  function Copied(fs: Tree, from: Path, to: Path): Tree
    requires CanCopy(fs, from, to)
  {
    fs[to := if from == to then File("") else fs[from]]
  }
}
