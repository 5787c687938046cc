/** The status/diff reconciler of `RevolutionGitRepo`: `diffstatus`, and the
    wrappers `status`, `diff` and `dirty` built on it.

    A repository is observed, not queried: `Repo` holds the listings Git
    would produce for it (its `HEAD` tree, its worktree, the paths
    `git ls-files -m` flags) and its current commit, together with the
    valid nested repositories below it. The hierarchy is a finite tree, so
    the recursion into nested repositories terminates by structure. */
module DiffStatus {
  import opened Wrappers
  import opened Records
  import opened Classification
  import opened Submodules
  import ContentInfo

  /** What Git and the filesystem report about one repository. */
  datatype Repo = Repo(
    head: PathMap,        // get_content_info(ref='HEAD')
    worktree: PathMap,    // get_content_info(ref=None) under the untracked mode in effect
    modified: set<Path>,  // paths `git ls-files -m` reports
    hexsha: Value,        // get_hexsha(): the checked-out commit, Null without one
    nested: seq<Nested>)  // the valid repositories nested in this one

  /** A valid repository at `path`, as `GitRepo.is_valid_repo` finds it. */
  datatype Nested = Nested(path: Path, repo: Repo)

  /** The `to` side of a comparison: the worktree, or a recorded tree. */
  datatype Target = Worktree | AtRef(state: PathMap)

  ghost predicate WellFormed(repo: Repo)
    decreases repo
  {
    && IsSnapshot(repo.head)
    && IsSnapshot(repo.worktree)
    && forall k :: 0 <= k < |repo.nested| ==> WellFormed(repo.nested[k].repo)
  }

  /** The first nested repository registered at `p`, if any. */
  function NestedIndex(nested: seq<Nested>, p: Path): (k: Option<nat>)
    ensures k.Some? ==> k.value < |nested| && nested[k.value].path == p
    ensures k.None? ==> forall j :: 0 <= j < |nested| ==> nested[j].path != p
  {
    if |nested| == 0 then None
    else if nested[0].path == p then Some(0)
    else match NestedIndex(nested[1..], p)
      case None => None
      case Some(k) => Some(k + 1)
  }

  /** `GitRepo.is_valid_repo(p)`. */
  predicate IsValidRepo(repo: Repo, p: Path)
  {
    NestedIndex(repo.nested, p).Some?
  }

  function NestedAt(repo: Repo, f: Path): (sub: Repo)
    requires IsValidRepo(repo, f)
    ensures sub < repo
    ensures exists k :: 0 <= k < |repo.nested| && repo.nested[k].path == f && repo.nested[k].repo == sub
  {
    repo.nested[NestedIndex(repo.nested, f).value].repo
  }

  /** `diffstatus(fr, to, ...)`, with `fr` given as its content info and the
      recursive status of nested repositories taken from the tree. */
  function DiffStatus(
    repo: Repo, fs: FileSystem, from: PathMap, to: Target, mode: IgnoreSubmodules): (res: Result<PathMap, Error>)
    requires WellFormed(repo) && IsSnapshot(from) && (to.AtRef? ==> IsSnapshot(to.state))
    ensures mode != All ==> res.Success?
    ensures res.Success? ==> res.value.Valid()
    decreases repo, 3
  {
    var status :- Classified(repo, fs, from, to, mode);
    if mode == All then Success(status)
    else Success(SubmodulePass(status, 0, mode, ChangedIn(repo, fs)))
  }

  /** The classification step of `diffstatus`: the `to` side is the worktree
      listing or the given snapshot, and modification on disk is only asked
      for when comparing with the worktree. */
  function Classified(
    repo: Repo, fs: FileSystem, from: PathMap, to: Target, mode: IgnoreSubmodules): (c: Result<PathMap, Error>)
    requires WellFormed(repo) && IsSnapshot(from) && (to.AtRef? ==> IsSnapshot(to.state))
    ensures mode != All ==> c.Success?
    ensures c.Success? ==> c.value.Valid() && CleanCarriesSha(c.value)
  {
    var toState := if to.Worktree? then repo.worktree else to.state;
    var modified := if to.Worktree? then Some(repo.modified) else None;
    ClassifiedCarriesSha(toState, from, modified, fs, mode);
    Classify(toState, from, modified, fs, mode)
  }

  /** The test the submodule loop applies to a clean subdataset entry. */
  function ChangedIn(repo: Repo, fs: FileSystem): (Path, Value) -> bool
    requires WellFormed(repo)
    decreases repo, 2
  {
    (f, recorded) => SubdatasetChanged(repo, fs, f, recorded)
  }

  /** Every clean entry of a classification carries the shasum the
      submodule loop compares: clean entries come from the `to` side, which
      keeps the shasum of clean content, and vanished entries are deleted. */
  lemma ClassifiedCarriesSha(
    to: PathMap, from: PathMap, modified: Option<set<Path>>, fs: FileSystem, mode: IgnoreSubmodules)
    requires IsSnapshot(to) && IsSnapshot(from)
    ensures var c := Classify(to, from, modified, fs, mode);
            c.Success? ==> CleanCarriesSha(c.value)
  {
    var c := Classify(to, from, modified, fs, mode);
    if c.Success? {
      LabelsDiffer(Deleted, Clean);
      forall f | f in c.value.recs && HasState(c.value.recs[f], Clean)
        ensures GITSHASUM in c.value.recs[f]
      {
        if f !in to.recs {
          assert c.value.recs[f] == VanishedRecord(from.recs[f]);
        }
      }
    }
  }

  /** `diffstatus` is the classification of its two sides, after which the
      submodule loop only turns clean subdatasets whose nested repository
      differs into modified ones; 'all' skips that loop. */
  lemma {:induction false} DiffStatusRefinesClassify(
    repo: Repo, fs: FileSystem, from: PathMap, to: Target, mode: IgnoreSubmodules)
    requires WellFormed(repo) && IsSnapshot(from) && (to.AtRef? ==> IsSnapshot(to.state))
    ensures var c := Classified(repo, fs, from, to, mode);
            var res := DiffStatus(repo, fs, from, to, mode);
            && (mode == All ==> res == c)
            && (mode != All ==> c.Success? && res.Success? && res.value.paths == c.value.paths)
            && (mode != All ==> forall f :: f in c.value.recs ==>
                  || res.value.recs[f] == c.value.recs[f]
                  || (ChangedSubdataset(c.value, ChangedIn(repo, fs), f)
                      && res.value.recs[f] == Upgrade(c.value.recs[f])))
  {
    var c := Classified(repo, fs, from, to, mode);
    if mode != All {
      SubmodulePassOnlyUpgrades(c.value, 0, mode, ChangedIn(repo, fs));
    }
  }

  /** With 'no', every clean subdataset whose nested repository differs is
      reported modified: together with `DiffStatusRefinesClassify`, exactly
      these entries change. */
  lemma DiffStatusUpgradesAllChanged(repo: Repo, fs: FileSystem, from: PathMap, to: Target)
    requires WellFormed(repo) && IsSnapshot(from) && (to.AtRef? ==> IsSnapshot(to.state))
    ensures var c := Classified(repo, fs, from, to, No);
            var res := DiffStatus(repo, fs, from, to, No);
            forall f :: f in c.value.recs && ChangedSubdataset(c.value, ChangedIn(repo, fs), f) ==>
              res.value.recs[f] == Upgrade(c.value.recs[f])
  {
    var c := Classified(repo, fs, from, to, No);
    SubmodulePassExhaustive(c.value, 0, ChangedIn(repo, fs));
    forall f | f in c.value.recs && ChangedSubdataset(c.value, ChangedIn(repo, fs), f)
      ensures SubmodulePass(c.value, 0, No, ChangedIn(repo, fs)).recs[f] == Upgrade(c.value.recs[f])
    {
      var j :| 0 <= j < |c.value.paths| && c.value.paths[j] == f;
    }
  }

  /** Whether the entry at `f` is a valid nested repository that differs from
      the commit recorded for it (gitrepo.py:375-393). */
  function SubdatasetChanged(repo: Repo, fs: FileSystem, f: Path, recorded: Value): (changed: bool)
    requires WellFormed(repo)
    // no valid repository at `f`: no business here
    ensures changed ==> IsValidRepo(repo, f)
    // the cheap test: its checked-out commit is not the recorded one
    ensures IsValidRepo(repo, f) && recorded != NestedAt(repo, f).hexsha ==> changed
    decreases repo, 1
  {
    IsValidRepo(repo, f) && NestedChanged(NestedAt(repo, f), fs, recorded)
  }

  /** Whether a nested repository differs from the commit recorded for it:
      its checked-out commit moved, or its own status, computed with 'other',
      has a non-clean entry. The recursive status is only computed when the
      commit did not move. */
  function NestedChanged(sub: Repo, fs: FileSystem, recorded: Value): (changed: bool)
    requires WellFormed(sub)
    ensures recorded != sub.hexsha ==> changed
    decreases sub, 4
  {
    recorded != sub.hexsha || AnyUnclean(DiffStatus(sub, fs, sub.head, Worktree, Other).value)
  }

  /** `status(paths, untracked, ignore_submodules)`: the worktree against `HEAD`. */
  function Status(repo: Repo, fs: FileSystem, mode: IgnoreSubmodules): (res: Result<PathMap, Error>)
    requires WellFormed(repo)
    ensures mode != All ==> res.Success?
    // one entry per path of `HEAD` or of the worktree
    ensures res.Success? ==> forall f :: f in res.value.recs <==> f in repo.head.recs || f in repo.worktree.recs
    // gone from the worktree listing: deleted
    ensures res.Success? ==>
              forall f :: f in repo.head.recs && f !in repo.worktree.recs ==> HasState(res.value.recs[f], Deleted)
  {
    StatusCoversBothSides(repo, fs, mode);
    DiffStatus(repo, fs, repo.head, Worktree, mode)
  }

  lemma StatusCoversBothSides(repo: Repo, fs: FileSystem, mode: IgnoreSubmodules)
    requires WellFormed(repo)
    ensures var res := DiffStatus(repo, fs, repo.head, Worktree, mode);
            res.Success? ==>
              && (forall f :: f in res.value.recs <==> f in repo.head.recs || f in repo.worktree.recs)
              && (forall f :: f in repo.head.recs && f !in repo.worktree.recs ==> HasState(res.value.recs[f], Deleted))
  {
    var c := Classified(repo, fs, repo.head, Worktree, mode);
    var res := DiffStatus(repo, fs, repo.head, Worktree, mode);
    if c.Success? {
      forall f | f in repo.head.recs && f !in repo.worktree.recs
        ensures HasState(c.value.recs[f], Deleted) && !Candidate(c.value, f)
      {
        VanishedIsDeleted(repo.head.recs[f]);
      }
      if mode != All {
        assert res.value == SubmodulePass(c.value, 0, mode, ChangedIn(repo, fs));
        SubmodulePassKeepsNonCandidates(c.value, mode, ChangedIn(repo, fs));
      }
    }
  }

  /** A nested repository differs from its record exactly when its commit
      moved or it is dirty. */
  lemma NestedChangedIsMovedOrDirty(sub: Repo, fs: FileSystem, recorded: Value)
    requires WellFormed(sub)
    ensures NestedChanged(sub, fs, recorded) <==> recorded != sub.hexsha || Dirty(sub, fs)
  {
  }

  /** Comparing a snapshot with itself classifies every path as clean, or as
      deleted when it is gone from disk. */
  lemma SelfComparisonIsClean(repo: Repo, fs: FileSystem, state: PathMap, mode: IgnoreSubmodules)
    requires WellFormed(repo) && IsSnapshot(state)
    ensures var c := Classified(repo, fs, state, AtRef(state), mode);
            c.Success? ==>
              && (forall f :: f in c.value.recs <==> f in state.recs)
              && (forall f :: f in c.value.recs ==>
                    HasState(c.value.recs[f], if Present(fs, f) then Clean else Deleted))
  {
    var c := Classified(repo, fs, state, AtRef(state), mode);
    if c.Success? {
      forall f | f in c.value.recs
        ensures HasState(c.value.recs[f], if Present(fs, f) then Clean else Deleted)
      {
        assert Unchanged(f, state.recs[f], state, None);
      }
    }
  }

  /** The submodule loop breaks that: a clean subdataset of the snapshot
      whose checked-out commit moved is reported modified even when the
      snapshot is compared with itself. */
  lemma SelfComparisonSeesMovedSubdataset(repo: Repo, fs: FileSystem, state: PathMap, f: Path)
    requires WellFormed(repo) && IsSnapshot(state)
    requires f in state.recs && state.recs[f][TYPE] == Str(DATASET) && Present(fs, f)
    requires IsValidRepo(repo, f) && NestedAt(repo, f).hexsha != state.recs[f][GITSHASUM]
    ensures HasState(DiffStatus(repo, fs, state, AtRef(state), No).value.recs[f], Modified)
  {
    MovedSubdatasetIsChanged(repo, fs, state, f);
    DiffStatusUpgradesAllChanged(repo, fs, state, AtRef(state));
  }

  /** The classification half of `SelfComparisonSeesMovedSubdataset`: the
      moved subdataset is a clean candidate that the loop finds changed. */
  lemma MovedSubdatasetIsChanged(repo: Repo, fs: FileSystem, state: PathMap, f: Path)
    requires WellFormed(repo) && IsSnapshot(state)
    requires f in state.recs && state.recs[f][TYPE] == Str(DATASET) && Present(fs, f)
    requires IsValidRepo(repo, f) && NestedAt(repo, f).hexsha != state.recs[f][GITSHASUM]
    ensures var c := Classified(repo, fs, state, AtRef(state), No);
            f in c.value.recs && ChangedSubdataset(c.value, ChangedIn(repo, fs), f)
  {
    var c := Classified(repo, fs, state, AtRef(state), No);
    SelfComparisonIsClean(repo, fs, state, No);
    assert Some(c.value.recs[f]) == ToSideRecord(f, state.recs[f], state, None, fs, No);
    assert SubdatasetChanged(repo, fs, f, c.value.recs[f][GITSHASUM]);
  }

  /** A clean subdataset entry at a valid repository: the submodule loop
      looks into it, cheaply when its commit moved, and otherwise by
      computing the nested repository's worktree status. */
  predicate Probed(repo: Repo, status: PathMap, f: Path)
  {
    Candidate(status, f) && IsValidRepo(repo, f)
  }

  /** A probed entry whose commit did not move: the loop recurses into the
      nested repository, listing its worktree with the caller's `untracked`. */
  predicate Recursed(repo: Repo, status: PathMap, f: Path)
    requires CleanCarriesSha(status)
  {
    Probed(repo, status, f) && status.recs[f][GITSHASUM] == NestedAt(repo, f).hexsha
  }

  /** Whether the submodule loop, from position `i` on, recurses into a
      nested repository before it ends; 'other' ends at the first moved
      commit. */
  predicate RecursesFrom(repo: Repo, status: PathMap, i: nat, mode: IgnoreSubmodules)
    requires CleanCarriesSha(status) && i <= |status.paths|
    decreases |status.paths| - i
  {
    if i == |status.paths| then false
    else
      var f := status.paths[i];
      if Recursed(repo, status, f) then true
      else if Probed(repo, status, f) && mode == Other then false
      else RecursesFrom(repo, status, i + 1, mode)
  }

  /** With 'no' the loop visits every entry, so it recurses exactly when
      some probed subdataset's commit did not move. */
  lemma {:induction false} RecursesFromNo(repo: Repo, status: PathMap, i: nat)
    requires CleanCarriesSha(status) && i <= |status.paths|
    ensures RecursesFrom(repo, status, i, No) <==>
              exists j :: i <= j < |status.paths| && Recursed(repo, status, status.paths[j])
    decreases |status.paths| - i
  {
    if i < |status.paths| {
      RecursesFromNo(repo, status, i + 1);
    }
  }

  /** With 'other' the loop recurses exactly when the first probed
      subdataset's commit did not move. */
  lemma {:induction false} RecursesFromOther(repo: Repo, status: PathMap, i: nat)
    requires CleanCarriesSha(status) && i <= |status.paths|
    ensures RecursesFrom(repo, status, i, Other) <==>
              exists j :: i <= j < |status.paths| && Recursed(repo, status, status.paths[j])
                && forall k :: i <= k < j ==> !Probed(repo, status, status.paths[k])
    decreases |status.paths| - i
  {
    if i < |status.paths| {
      RecursesFromOther(repo, status, i + 1);
      if RecursesFrom(repo, status, i + 1, Other) && !Probed(repo, status, status.paths[i]) {
        var j :| i + 1 <= j < |status.paths| && Recursed(repo, status, status.paths[j])
                 && forall k :: i + 1 <= k < j ==> !Probed(repo, status, status.paths[k]);
        assert forall k :: i <= k < j ==> !Probed(repo, status, status.paths[k]);
      }
    }
  }

  /** `diffstatus(fr, to, paths, untracked, ignore_submodules)` with its
      `untracked` argument. A known mode only shapes the worktree listings,
      which `repo` holds. An unknown one is rejected wherever a worktree is
      listed: at once when `to` is the worktree, and otherwise when the
      submodule loop recurses, since it lists the nested repository's
      worktree with the same mode. */
  function DiffStatusUnder(
    repo: Repo, fs: FileSystem, untracked: string, from: PathMap, to: Target, mode: IgnoreSubmodules): (res: Result<PathMap, Error>)
    requires WellFormed(repo) && IsSnapshot(from) && (to.AtRef? ==> IsSnapshot(to.state))
    // a known mode: the recorded listings decide
    ensures untracked in ContentInfo.UNTRACKED_MODES ==> res == DiffStatus(repo, fs, from, to, mode)
    // an unknown mode only ever adds a failure
    ensures res.Success? ==> res == DiffStatus(repo, fs, from, to, mode)
    ensures untracked !in ContentInfo.UNTRACKED_MODES && to.Worktree? ==>
              res == Failure(UnknownUntrackedMode(untracked))
    // outside 'all' the only failure is the unknown mode
    ensures mode != All && res.Failure? ==> res.error == UnknownUntrackedMode(untracked)
    ensures untracked !in ContentInfo.UNTRACKED_MODES && to.AtRef? && mode == All ==>
              res == DiffStatus(repo, fs, from, to, mode)
    ensures untracked !in ContentInfo.UNTRACKED_MODES && to.AtRef? && mode != All ==>
              (res.Failure? <==> RecursesFrom(repo, Classified(repo, fs, from, to, mode).value, 0, mode))
  {
    if untracked !in ContentInfo.UNTRACKED_MODES && to.Worktree? then
      Failure(UnknownUntrackedMode(untracked))
    else
      var c :- Classified(repo, fs, from, to, mode);
      if untracked !in ContentInfo.UNTRACKED_MODES && mode != All && RecursesFrom(repo, c, 0, mode) then
        Failure(UnknownUntrackedMode(untracked))
      else DiffStatus(repo, fs, from, to, mode)
  }

  /** Comparing two recorded trees with an unknown `untracked` mode fails
      exactly when the submodule loop recurses: with 'no', when some clean
      subdataset at a valid repository still has its recorded commit; with
      'other', when the first such subdataset does. */
  lemma UnknownModeFailsInRecursion(
    repo: Repo, fs: FileSystem, untracked: string, from: PathMap, state: PathMap, mode: IgnoreSubmodules)
    requires WellFormed(repo) && IsSnapshot(from) && IsSnapshot(state)
    requires untracked !in ContentInfo.UNTRACKED_MODES && mode != All
    ensures var c := Classified(repo, fs, from, AtRef(state), mode).value;
            var res := DiffStatusUnder(repo, fs, untracked, from, AtRef(state), mode);
            && (res.Failure? ==> res.error == UnknownUntrackedMode(untracked))
            && (mode == No ==> (res.Failure? <==> exists j :: 0 <= j < |c.paths| && Recursed(repo, c, c.paths[j])))
            && (mode == Other ==>
                  (res.Failure? <==> exists j :: 0 <= j < |c.paths| && Recursed(repo, c, c.paths[j])
                                       && forall k :: 0 <= k < j ==> !Probed(repo, c, c.paths[k])))
  {
    var c := Classified(repo, fs, from, AtRef(state), mode).value;
    var res := DiffStatusUnder(repo, fs, untracked, from, AtRef(state), mode);
    assert res.Failure? <==> RecursesFrom(repo, c, 0, mode);
    if mode == No {
      RecursesFromNo(repo, c, 0);
    } else {
      RecursesFromOther(repo, c, 0);
    }
  }

  /** `status(paths, untracked, ignore_submodules)` with its `untracked`
      argument: an unknown mode is rejected before anything is compared, and
      a known one gives `Status`. */
  function StatusUnder(repo: Repo, fs: FileSystem, untracked: string, mode: IgnoreSubmodules): (res: Result<PathMap, Error>)
    requires WellFormed(repo)
    ensures untracked in ContentInfo.UNTRACKED_MODES ==> res == Status(repo, fs, mode)
    ensures untracked !in ContentInfo.UNTRACKED_MODES ==> res == Failure(UnknownUntrackedMode(untracked))
  {
    DiffStatusUnder(repo, fs, untracked, repo.head, Worktree, mode)
  }

  /** `diff(fr, to, paths, untracked, ignore_submodules)` with its
      `untracked` argument: it fails when `diffstatus` does, and otherwise
      is `Diff`. */
  function DiffUnder(
    repo: Repo, fs: FileSystem, untracked: string, from: PathMap, to: Target, mode: IgnoreSubmodules): (res: Result<PathMap, Error>)
    requires WellFormed(repo) && IsSnapshot(from) && (to.AtRef? ==> IsSnapshot(to.state))
    ensures res.Failure? <==> DiffStatusUnder(repo, fs, untracked, from, to, mode).Failure?
    ensures res.Success? ==> res == Diff(repo, fs, from, to, mode)
  {
    var _ :- DiffStatusUnder(repo, fs, untracked, from, to, mode);
    Diff(repo, fs, from, to, mode)
  }

  /** `diff(fr, to, ...)`: `diffstatus` without its clean entries. */
  function Diff(
    repo: Repo, fs: FileSystem, from: PathMap, to: Target, mode: IgnoreSubmodules): (res: Result<PathMap, Error>)
    requires WellFormed(repo) && IsSnapshot(from) && (to.AtRef? ==> IsSnapshot(to.state))
    ensures res.Failure? <==> DiffStatus(repo, fs, from, to, mode).Failure?
    ensures res.Success? ==>
              var full := DiffStatus(repo, fs, from, to, mode).value;
              && (forall f :: f in res.value.recs <==> f in full.recs && !HasState(full.recs[f], Clean))
              && (forall f :: f in res.value.recs ==> res.value.recs[f] == full.recs[f])
              && Subsequence(res.value.paths, full.paths)
  {
    var full :- DiffStatus(repo, fs, from, to, mode);
    Success(full.Filter((f, r) => !HasState(r, Clean)))
  }

  /** The `dirty` property: anything non-clean in a status computed with
      'other'. It cannot fail. */
  function Dirty(repo: Repo, fs: FileSystem): (d: bool)
    requires WellFormed(repo)
    ensures Status(repo, fs, Other).Success?
    // `dirty` asks with 'normal', a known mode
    ensures StatusUnder(repo, fs, "normal", Other) == Status(repo, fs, Other)
    ensures d <==> Diff(repo, fs, repo.head, Worktree, Other).value.recs != map[]
  {
    var s := Status(repo, fs, Other).value;
    var diff := Diff(repo, fs, repo.head, Worktree, Other).value;
    assert AnyUnclean(s) ==> diff.recs != map[] by {
      if AnyUnclean(s) {
        var f :| f in s.recs && !HasState(s.recs[f], Clean);
        assert f in diff.recs;
      }
    }
    AnyUnclean(s)
  }
}
