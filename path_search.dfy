/**
  The upward search of find_relative_path: try `d / p` for `d` the working
  directory, its parent, and so on to the root; the first candidate that exists
  is the answer, and a failed search reports every candidate it tried.
 */
module PathSearch {
  import opened Paths

  datatype Lookup = Found(path: Path) | NotFound(searched: seq<Path>)

  /** The candidates `d / p`, one for each directory `d` of the upward walk from `dir`, in order. */
  function Candidates(dir: Path, p: Path): (c: seq<Path>)
    decreases Height(dir)
  {
    if IsEmpty(dir) then [] else [Join(dir, p)] + Candidates(ParentPath(dir), p)
  }

  /** The k-th candidate is `p` appended to the k-th directory of the upward walk. */
  lemma {:induction false} CandidatesFollowAncestors(dir: Path, p: Path)
    ensures |Candidates(dir, p)| == |Ancestors(dir)|
    ensures forall k :: 0 <= k < |Ancestors(dir)| ==> Candidates(dir, p)[k] == Join(Ancestors(dir)[k], p)
    decreases Height(dir)
  {
    if !IsEmpty(dir) {
      CandidatesFollowAncestors(ParentPath(dir), p);
    }
  }

  /** The index of the first candidate that exists, or |c| when none does. */
  function FirstHit(c: seq<Path>, present: set<Path>): (k: nat)
    ensures k <= |c|
    ensures k < |c| ==> c[k] in present
    ensures forall j :: 0 <= j < k ==> c[j] !in present
  {
    if c == [] then 0 else if c[0] in present then 0 else 1 + FirstHit(c[1..], present)
  }

  /** Puts already-tried candidates in front of the trail of a failed lookup. */
  function PrependTried(tried: seq<Path>, l: Lookup): Lookup
  {
    match l
    case Found(_) => l
    case NotFound(rest) => NotFound(tried + rest)
  }

  /** Prepending two trails one after the other prepends their concatenation. */
  lemma PrependTriedTwice(a: seq<Path>, b: seq<Path>, l: Lookup)
    ensures PrependTried(a, PrependTried(b, l)) == PrependTried(a + b, l)
  {
    if l.NotFound? {
      assert a + (b + l.searched) == (a + b) + l.searched;
    }
  }

  /** The result of the upward search for `p` starting at `dir`. */
  function Search(dir: Path, p: Path, present: set<Path>): Lookup
    decreases Height(dir)
  {
    if IsEmpty(dir) then NotFound([])
    else if Join(dir, p) in present then Found(Join(dir, p))
    else PrependTried([Join(dir, p)], Search(ParentPath(dir), p, present))
  }

  /**
    The search returns the first existing candidate of the upward walk, and
    fails exactly when no candidate exists, listing all of them in order.
   */
  lemma {:induction false} SearchFindsFirstHit(dir: Path, p: Path, present: set<Path>)
    ensures var c := Candidates(dir, p);
            var k := FirstHit(c, present);
            Search(dir, p, present) == if k < |c| then Found(c[k]) else NotFound(c)
    decreases Height(dir)
  {
    if !IsEmpty(dir) {
      var q := Join(dir, p);
      var c := Candidates(dir, p);
      var rest := Candidates(ParentPath(dir), p);
      assert c == [q] + rest;
      assert c[1..] == rest;
      if q !in present {
        SearchFindsFirstHit(ParentPath(dir), p, present);
        var k := FirstHit(rest, present);
        assert FirstHit(c, present) == 1 + k;
        if k < |rest| {
          assert c[k + 1] == rest[k];
        }
      }
    }
  }

  /** A found path is a candidate of the walk that exists, and every earlier candidate does not. */
  lemma SearchFound(dir: Path, p: Path, present: set<Path>)
    requires Search(dir, p, present).Found?
    ensures var c := Candidates(dir, p);
            exists k :: 0 <= k < |c| && c[k] == Search(dir, p, present).path && c[k] in present &&
                        forall j :: 0 <= j < k ==> c[j] !in present
  {
    SearchFindsFirstHit(dir, p, present);
    var c := Candidates(dir, p);
    var k := FirstHit(c, present);
    assert c[k] == Search(dir, p, present).path;
  }

  /** A failed search tried every candidate of the walk, and none of them exists. */
  lemma SearchNotFound(dir: Path, p: Path, present: set<Path>)
    requires Search(dir, p, present).NotFound?
    ensures Search(dir, p, present).searched == Candidates(dir, p)
    ensures forall q :: q in Candidates(dir, p) ==> q !in present
  {
    SearchFindsFirstHit(dir, p, present);
  }

  /**
    Two levels up: with the working directory `/d/e/f`, a target `t` that exists
    only as `/d/t` is found on the third candidate.
   */
  lemma FoundTwoLevelsUp(d: string, e: string, f: string, t: string)
    ensures Search(Path(true, [d, e, f]), Relative([t]), {Path(true, [d, t])}) == Found(Path(true, [d, t]))
  {
    var cwd := Path(true, [d, e, f]);
    var target := Relative([t]);
    var present := {Path(true, [d, t])};
    assert ParentPath(cwd) == Path(true, [d, e]);
    assert ParentPath(Path(true, [d, e])) == Path(true, [d]);
    assert Join(Path(true, [d]), target) == Path(true, [d, t]);
    assert Join(Path(true, [d, e]), target) == Path(true, [d, e, t]);
    assert Join(cwd, target) == Path(true, [d, e, f, t]);
    assert |Path(true, [d, e, f, t]).parts| != |Path(true, [d, t]).parts|;
    assert |Path(true, [d, e, t]).parts| != |Path(true, [d, t]).parts|;
    assert Search(Path(true, [d]), target, present) == Found(Path(true, [d, t]));
    assert Search(Path(true, [d, e]), target, present) == Found(Path(true, [d, t]));
  }
}
