/**
 * The git-root walk of `zqutils/src/repo.rs`. A path is an absolute flag and
 * its components; the file system is the oracle `isDir`, which says whether a
 * path names a directory. `PathBuf::pop` drops the last component and leaves
 * `/` and the empty path unchanged, so for an absolute path with no `.git`
 * directory on the way up the source loop never ends: it checks `/` forever.
 * The model reports that outcome as `Hangs` and proves that it is one.
 */
module Repo {
  import opened Wrappers

  datatype Path = Path(absolute: bool, comps: seq<string>)

  /** `PathBuf::new()`, the loop's `root_path`. */
  const Empty: Path := Path(false, [])

  /** `/`. */
  const Root: Path := Path(true, [])

  /** `PathBuf::push` of one relative component. */
  function Push(p: Path, name: string): Path {
    Path(p.absolute, p.comps + [name])
  }

  /** `PathBuf::pop`: drop the last component; `/` and the empty path stay as they are. */
  function Pop(p: Path): (q: Path)
    ensures q.absolute == p.absolute
    ensures |p.comps| > 0 ==> q.comps == p.comps[..|p.comps| - 1]
    ensures |p.comps| == 0 ==> q == p
  {
    if |p.comps| == 0 then p else Path(p.absolute, p.comps[..|p.comps| - 1])
  }

  /** `d/.git` is a directory (a `.git` file does not count). */
  predicate HasGitDir(isDir: Path -> bool, d: Path) {
    isDir(Push(d, ".git"))
  }

  /** `path` with its trailing components beyond the first `k` removed. */
  function Ancestor(path: Path, k: nat): Path
    requires k <= |path.comps|
  {
    Path(path.absolute, path.comps[..k])
  }

  /** The outcome of the walk. */
  datatype Walk = Found(dir: Path) | NotFound | Hangs

  /** The state of the source loop: still running at `scan`, or returned `r`. */
  datatype LoopState = Running(scan: Path) | Returned(r: Option<Path>)

  /** The source loop's state after `n` more iterations from `scan`. */
  ghost function Run(scan: Path, isDir: Path -> bool, n: nat): LoopState
    decreases n
  {
    if n == 0 then Running(scan)
    else if scan == Empty then Returned(None)
    else if HasGitDir(isDir, scan) then Returned(Some(scan))
    else Run(Pop(scan), isDir, n - 1)
  }

  /** At `/` without `.git`, the loop runs on at `/` for ever. */
  lemma {:induction false} RootNeverReturns(isDir: Path -> bool, n: nat)
    requires !HasGitDir(isDir, Root)
    ensures Run(Root, isDir, n) == Running(Root)
  {
    if n > 0 {
      RootNeverReturns(isDir, n - 1);
    }
  }

  /** From the ancestor with `k` components, `k - j` iterations without `.git` lead to the ancestor with `j`. */
  lemma {:induction false} RunClimbs(path: Path, isDir: Path -> bool, k: nat, j: nat)
    requires j <= k <= |path.comps|
    requires forall i :: j < i <= k ==> !HasGitDir(isDir, Ancestor(path, i))
    ensures Run(Ancestor(path, k), isDir, k - j) == Running(Ancestor(path, j))
  {
    if j < k {
      var a := Ancestor(path, k);
      assert a != Empty;
      assert Pop(a) == Ancestor(path, k - 1);
      RunClimbs(path, isDir, k - 1, j);
    }
  }

  /** The loop ends `n` iterations into a state it then keeps. */
  lemma {:induction false} RunStays(scan: Path, isDir: Path -> bool, n: nat, m: nat)
    requires n <= m && Run(scan, isDir, n).Returned?
    ensures Run(scan, isDir, m) == Run(scan, isDir, n)
    decreases n
  {
    if n > 0 && scan != Empty && !HasGitDir(isDir, scan) {
      RunStays(Pop(scan), isDir, n - 1, m - 1);
    }
  }

  /** `Run` splits into two stretches of iterations. */
  lemma {:induction false} RunSplit(scan: Path, isDir: Path -> bool, n: nat, m: nat)
    requires Run(scan, isDir, n).Running?
    ensures Run(scan, isDir, n + m) == Run(Run(scan, isDir, n).scan, isDir, m)
    decreases n
  {
    if n > 0 {
      RunSplit(Pop(scan), isDir, n - 1, m);
    }
  }

  /**
   * `find_enclosing_git_repo_base`: walk from `path` upwards to the first
   * directory holding a `.git` directory.
   */
  method FindEnclosingGitRepoBase(path: Path, isDir: Path -> bool) returns (r: Walk)
    ensures r.Found? ==> exists k :: && 0 <= k <= |path.comps|
                                     && r.dir == Ancestor(path, k)
                                     && HasGitDir(isDir, r.dir)
                                     && (forall i :: k < i <= |path.comps| ==> !HasGitDir(isDir, Ancestor(path, i)))
    ensures r.Found? ==> exists n: nat :: Run(path, isDir, n) == Returned(Some(r.dir))
    ensures r.NotFound? ==> !path.absolute
    ensures !r.Found? ==> forall i :: 0 < i <= |path.comps| ==> !HasGitDir(isDir, Ancestor(path, i))
    ensures r.NotFound? ==> Run(path, isDir, |path.comps| + 1) == Returned(None)
    ensures r.Hangs? ==> path.absolute && !HasGitDir(isDir, Root)
    ensures r.Hangs? ==> forall n: nat :: Run(path, isDir, n).Running?
  {
    assert path == Ancestor(path, |path.comps|);
    var scanPath := path;
    ghost var k: nat := |path.comps|;
    while scanPath != Empty
      invariant k <= |path.comps| && scanPath == Ancestor(path, k)
      invariant forall i :: k < i <= |path.comps| ==> !HasGitDir(isDir, Ancestor(path, i))
      decreases k
    {
      if HasGitDir(isDir, scanPath) {
        RunClimbs(path, isDir, |path.comps|, k);
        assert Run(path, isDir, |path.comps| - k + 1) == Returned(Some(scanPath)) by {
          RunSplit(path, isDir, |path.comps| - k, 1);
        }
        return Found(scanPath);
      }
      if scanPath == Root {
        // `pop` leaves `/` unchanged: every further iteration repeats this one.
        RunClimbs(path, isDir, |path.comps|, 0);
        forall n: nat ensures Run(path, isDir, n).Running? {
          if n <= |path.comps| {
            if Run(path, isDir, n).Returned? {
              RunStays(path, isDir, n, |path.comps|);
            }
          } else {
            RunSplit(path, isDir, |path.comps|, n - |path.comps|);
            RootNeverReturns(isDir, n - |path.comps|);
          }
        }
        return Hangs;
      }
      scanPath := Pop(scanPath);
      k := k - 1;
    }
    RunClimbs(path, isDir, |path.comps|, 0);
    RunSplit(path, isDir, |path.comps|, 1);
    return NotFound;
  }
}
