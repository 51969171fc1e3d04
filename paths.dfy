/**
  Filesystem paths in the shape std::filesystem::path gives them: an optional
  root and a sequence of components. Only the operations the recorder uses are
  modelled: `/` (Join), parent_path (ParentPath), filename (FileName), empty().
 */
module Paths {

  datatype Path = Path(absolute: bool, parts: seq<string>)

  /** The empty path `""`. */
  const Empty: Path := Path(false, [])

  /** The root directory `/`. */
  const Root: Path := Path(true, [])

  /** A relative path made of the given components. */
  function Relative(parts: seq<string>): Path
  {
    Path(false, parts)
  }

  /** A relative path of a single component, such as a file name. */
  function Leaf(name: string): Path
  {
    Path(false, [name])
  }

  predicate IsEmpty(p: Path)
  {
    !p.absolute && p.parts == []
  }

  /** Number of steps `ParentPath` needs to reach the empty path. */
  function Height(p: Path): nat
  {
    |p.parts| + if p.absolute then 1 else 0
  }

  /** `a / b`: appends a relative `b`; an absolute `b` replaces `a`. */
  function Join(a: Path, b: Path): Path
  {
    if b.absolute then b else Path(a.absolute, a.parts + b.parts)
  }

  /** Appending a name and taking the parent gives the directory back. */
  lemma ParentOfChild(p: Path, name: string)
    ensures ParentPath(Join(p, Leaf(name))) == p
    ensures FileName(Join(p, Leaf(name))) == name
    ensures Join(p, Leaf(name)).parts != [] && Join(p, Leaf(name)).absolute == p.absolute
  {
    assert (p.parts + [name])[..|p.parts|] == p.parts;
  }

  /** The last component, or "" for a path without components. */
  function FileName(p: Path): string
  {
    if p.parts == [] then "" else p.parts[|p.parts| - 1]
  }

  /**
    parent_path(), with one modelling choice: the parent of the root is the
    empty path, so that an upward walk ends (std::filesystem keeps `/` as its own
    parent; see StdParentPath).
   */
  function ParentPath(p: Path): (q: Path)
    ensures IsEmpty(p) || Height(q) < Height(p)
  {
    if p.parts != [] then Path(p.absolute, p.parts[..|p.parts| - 1]) else Empty
  }

  /**
    The directories an upward walk visits, starting at `p`: `p`, its parent,
    and so on up to and including the root.
   */
  function Ancestors(p: Path): (a: seq<Path>)
    decreases Height(p)
  {
    if IsEmpty(p) then [] else [p] + Ancestors(ParentPath(p))
  }

  /** For an absolute path, the walk has one directory per component plus the root. */
  lemma {:induction false} AncestorsOfAbsolute(p: Path)
    requires p.absolute
    ensures |Ancestors(p)| == |p.parts| + 1
    ensures Ancestors(p)[|p.parts|] == Root
    ensures forall k :: 0 <= k < |Ancestors(p)| ==> Ancestors(p)[k] == Path(true, p.parts[..|p.parts| - k])
    decreases |p.parts|
  {
    if p.parts == [] {
      assert Ancestors(ParentPath(p)) == [];
    } else {
      var q := ParentPath(p);
      AncestorsOfAbsolute(q);
      assert Ancestors(p) == [p] + Ancestors(q);
      forall k | 0 <= k < |Ancestors(p)|
        ensures Ancestors(p)[k] == Path(true, p.parts[..|p.parts| - k])
      {
        if k > 0 {
          assert Ancestors(p)[k] == Ancestors(q)[k - 1];
          assert q.parts[..|q.parts| - (k - 1)] == p.parts[..|p.parts| - k];
        }
      }
    }
  }

  // ---------------------------------------------------------------------------
  // parent_path() as std::filesystem defines it

  /**
    parent_path() as std::filesystem defines it: a path without a relative part
    (`/` or `""`) is its own parent.
   */
  function StdParentPath(p: Path): Path
  {
    if p.parts != [] then Path(p.absolute, p.parts[..|p.parts| - 1]) else p
  }

  /** The directory the source's upward loop holds after `n` steps. */
  function StdWalk(p: Path, n: nat): Path
    decreases n
  {
    if n == 0 then p else StdWalk(StdParentPath(p), n - 1)
  }

  /**
    With std::filesystem's parent_path, the guard `!current_path.empty()` of the
    upward loop holds after every number of steps when the walk starts at an
    absolute directory: the loop only ends by finding the path.
   */
  lemma {:induction false} StdWalkNeverEmpty(p: Path, n: nat)
    requires p.absolute
    ensures StdWalk(p, n).absolute && !IsEmpty(StdWalk(p, n))
    decreases n
  {
    if n > 0 {
      StdWalkNeverEmpty(StdParentPath(p), n - 1);
    }
  }

  /** Under std::filesystem the walk reaches `/` and stays there. */
  lemma {:induction false} StdWalkReachesRoot(p: Path, n: nat)
    requires p.absolute && n >= |p.parts|
    ensures StdWalk(p, n) == Root
    decreases n
  {
    if n > 0 {
      StdWalkReachesRoot(StdParentPath(p), n - 1);
    }
  }
}
