/** The upward directory walk shared by both revisions: test the start
    directory, then its parent, and so on, and return the first result that
    is not "nothing here". The test is a parameter, so the facts about the
    walk hold for either revision's `check_env`. */
module Walk {
  import opened Paths

  /** The result of the first of `dirs` for which `check` does not return
      `nothing`; `nothing` when there is none. */
  function FirstFound<R(==)>(check: Path -> R, nothing: R, dirs: seq<Path>): R
    decreases |dirs|
  {
    if dirs == [] then nothing
    else if check(dirs[0]) == nothing then FirstFound(check, nothing, dirs[1..])
    else check(dirs[0])
  }

  /** The walk from `start` through its parents, excluding the first
      directory that is its own parent. */
  function Search<R(==)>(check: Path -> R, nothing: R, start: Path): R {
    FirstFound(check, nothing, Ancestors(start))
  }

  lemma {:induction false} FirstFoundAt<R>(check: Path -> R, nothing: R, dirs: seq<Path>, k: nat)
    requires k < |dirs| && check(dirs[k]) != nothing
    requires forall i :: 0 <= i < k ==> check(dirs[i]) == nothing
    ensures FirstFound(check, nothing, dirs) == check(dirs[k])
    decreases k
  {
    if k > 0 {
      assert check(dirs[0]) == nothing;
      FirstFoundAt(check, nothing, dirs[1..], k - 1);
    }
  }

  lemma {:induction false} FirstFoundNone<R>(check: Path -> R, nothing: R, dirs: seq<Path>)
    ensures FirstFound(check, nothing, dirs) == nothing <==>
            forall i :: 0 <= i < |dirs| ==> check(dirs[i]) == nothing
    decreases |dirs|
  {
    if dirs != [] {
      FirstFoundNone(check, nothing, dirs[1..]);
      assert forall i :: 1 <= i < |dirs| ==> dirs[i] == dirs[1..][i - 1];
    }
  }

  lemma {:induction false} FirstFoundSkip<R>(check: Path -> R, nothing: R, dirs: seq<Path>, n: nat)
    requires n <= |dirs|
    requires forall i :: 0 <= i < n ==> check(dirs[i]) == nothing
    ensures FirstFound(check, nothing, dirs) == FirstFound(check, nothing, dirs[n..])
    decreases n
  {
    if n > 0 {
      assert check(dirs[0]) == nothing;
      FirstFoundSkip(check, nothing, dirs[1..], n - 1);
      assert dirs[1..][n - 1..] == dirs[n..];
    }
  }

  /** The least index at or below `k` whose test is not `nothing`. */
  lemma {:induction false} FirstIndex<R>(check: Path -> R, nothing: R, dirs: seq<Path>, k: nat) returns (m: nat)
    requires k < |dirs| && check(dirs[k]) != nothing
    ensures m <= k && check(dirs[m]) != nothing
    ensures forall i :: 0 <= i < m ==> check(dirs[i]) == nothing
    decreases k
  {
    if forall i :: 0 <= i < k ==> check(dirs[i]) == nothing {
      m := k;
    } else {
      var j :| 0 <= j < k && check(dirs[j]) != nothing;
      m := FirstIndex(check, nothing, dirs, j);
    }
  }

  lemma WalkIsUp(start: Path)
    ensures forall j :: 0 <= j < |start.parts| ==> Ancestors(start)[j] == Up(start, j)
  {
    forall j | 0 <= j < |start.parts|
      ensures Ancestors(start)[j] == Up(start, j)
    {
      AncestorsAt(start, j);
    }
  }

  /** A closer directory always wins: the walk returns the test's result for
      the nearest directory, `k` levels up, where it is not `nothing`. */
  lemma SearchNearest<R>(check: Path -> R, nothing: R, start: Path, k: nat)
    requires k < |start.parts| && check(Up(start, k)) != nothing
    requires forall j :: 0 <= j < k ==> check(Up(start, j)) == nothing
    ensures Search(check, nothing, start) == check(Up(start, k))
  {
    WalkIsUp(start);
    FirstFoundAt(check, nothing, Ancestors(start), k);
  }

  /** The walk returns `nothing` exactly when every directory from the start
      up to, and excluding, the root (or `.`) tests as `nothing`. */
  lemma SearchNothing<R>(check: Path -> R, nothing: R, start: Path)
    ensures Search(check, nothing, start) == nothing <==>
            forall j :: 0 <= j < |start.parts| ==> check(Up(start, j)) == nothing
  {
    WalkIsUp(start);
    FirstFoundNone(check, nothing, Ancestors(start));
  }

  /** What the walk returns, when not `nothing`, is the test's result for
      some directory `k` levels up, all closer ones testing as `nothing`. */
  lemma SearchFound<R>(check: Path -> R, nothing: R, start: Path) returns (k: nat)
    requires Search(check, nothing, start) != nothing
    ensures k < |start.parts| && Search(check, nothing, start) == check(Up(start, k))
    ensures forall j :: 0 <= j < k ==> check(Up(start, j)) == nothing
  {
    var dirs := Ancestors(start);
    WalkIsUp(start);
    FirstFoundNone(check, nothing, dirs);
    var i :| 0 <= i < |dirs| && check(dirs[i]) != nothing;
    k := FirstIndex(check, nothing, dirs, i);
    FirstFoundAt(check, nothing, dirs, k);
  }

  /** Starting in a sub-directory `project / sub[0] / ...` gives what
      starting in `project` gives, when no directory in between is a hit. */
  lemma SearchFromSubdirectory<R>(check: Path -> R, nothing: R, project: Path, sub: seq<string>)
    requires forall j :: 0 <= j < |sub| ==>
               check(Up(Path(project.absolute, project.parts + sub), j)) == nothing
    ensures Search(check, nothing, Path(project.absolute, project.parts + sub)) ==
            Search(check, nothing, project)
  {
    var start := Path(project.absolute, project.parts + sub);
    WalkIsUp(start);
    FirstFoundSkip(check, nothing, Ancestors(start), |sub|);
    AncestorsOfSubdirectory(project, sub);
  }
}
