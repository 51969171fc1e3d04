/**
  Names of the numbered mismatch directories `<tmp>/cppmismatch-<n>` and the
  rule that picks one: the least `n` whose directory does not exist yet.
 */
module MismatchDirs {
  import opened Paths
  import opened Decimal

  const DirPrefix: string := "cppmismatch-"

  function MismatchDirName(n: nat): string
  {
    DirPrefix + NatToString(n)
  }

  /** `tmp / ("cppmismatch-" + std::to_string(n))` */
  function Candidate(tmp: Path, n: nat): Path
  {
    Join(tmp, Leaf(MismatchDirName(n)))
  }

  /** Different numbers give different directories. */
  lemma CandidateInjective(tmp: Path, a: nat, b: nat)
    requires Candidate(tmp, a) == Candidate(tmp, b)
    ensures a == b
  {
    var pa, pb := Candidate(tmp, a).parts, Candidate(tmp, b).parts;
    assert MismatchDirName(a) == pa[|pa| - 1] == pb[|pb| - 1] == MismatchDirName(b);
    assert NatToString(a) == MismatchDirName(a)[|DirPrefix|..];
    assert NatToString(b) == MismatchDirName(b)[|DirPrefix|..];
    NatToStringInjective(a, b);
  }

  /** `n` is the number the allocation loop stops at: its directory is free and all lower ones exist. */
  ghost predicate IsLeastFree(tmp: Path, present: set<Path>, n: nat)
  {
    && Candidate(tmp, n) !in present
    && forall j :: 0 <= j < n ==> Candidate(tmp, j) in present
  }

  /** The directories numbered below `n`. */
  ghost function Taken(tmp: Path, n: nat): set<Path>
  {
    set j | 0 <= j < n :: Candidate(tmp, j)
  }

  ghost function LeastFreeFrom(tmp: Path, present: set<Path>, i: nat): (n: nat)
    requires forall j :: 0 <= j < i ==> Candidate(tmp, j) in present
    ensures n >= i && IsLeastFree(tmp, present, n)
    decreases |present - Taken(tmp, i)|
  {
    if Candidate(tmp, i) !in present then i
    else
      assert Candidate(tmp, i) !in Taken(tmp, i) by {
        forall j | 0 <= j < i ensures Candidate(tmp, j) != Candidate(tmp, i) {
          if Candidate(tmp, j) == Candidate(tmp, i) {
            CandidateInjective(tmp, j, i);
          }
        }
      }
      assert Taken(tmp, i + 1) == Taken(tmp, i) + {Candidate(tmp, i)};
      assert present - Taken(tmp, i + 1) < present - Taken(tmp, i);
      LeastFreeFrom(tmp, present, i + 1)
  }

  /** The least free mismatch-directory number; it exists because only finitely many paths exist. */
  ghost function LeastFree(tmp: Path, present: set<Path>): (n: nat)
    ensures IsLeastFree(tmp, present, n)
  {
    LeastFreeFrom(tmp, present, 0)
  }

  /** The least free number is unique. */
  lemma LeastFreeUnique(tmp: Path, present: set<Path>, a: nat, b: nat)
    requires IsLeastFree(tmp, present, a) && IsLeastFree(tmp, present, b)
    ensures a == b
  {
  }

  /**
    Creating the chosen directory moves the next choice strictly up: a later
    allocation under the same `tmp` gets a larger number and a different directory.
   */
  lemma AllocationsIncrease(tmp: Path, present: set<Path>)
    ensures var n := LeastFree(tmp, present);
            var m := LeastFree(tmp, present + {Candidate(tmp, n)});
            m > n && Candidate(tmp, m) != Candidate(tmp, n) && Candidate(tmp, m) !in present
  {
    var n := LeastFree(tmp, present);
    var m := LeastFree(tmp, present + {Candidate(tmp, n)});
    if Candidate(tmp, m) == Candidate(tmp, n) {
      CandidateInjective(tmp, m, n);
    }
  }
}
