/** `RevolutionGitRepo.save_` up to the commands it issues: which status
    it acts on, which paths it adds, removes and commits, and when
    `.gitmodules` joins the commit. The commands themselves are left to
    Git; their outcomes that steer the plan (which nested repositories
    `add_submodule` registered) are parameters. */
module SavePlan {
  import opened Wrappers
  import opened Records
  import Text

  const GITMODULES := ".gitmodules"
  const DEFAULT_MESSAGE := "Recorded changes"

  /** The record `save_` gives `.gitmodules` after registering a submodule. */
  const GITMODULES_RECORD: Record := map[TYPE := Str(FILE), STATE := Str(Modified.Label())]

  /** `paths is not None and not paths and not _status`: an explicitly empty
      path list with no status to go on. */
  predicate NothingRequested(paths: Option<seq<Path>>, given: Option<PathMap>)
  {
    paths == Some([]) && (given.None? || given.value.recs == map[])
  }

  /** `_save_pre(paths, _status)`: `None` when nothing was requested, else
      the non-clean part of the given status, or of the status the
      repository reports (`reported`) when none was given. */
  function SavePre(paths: Option<seq<Path>>, given: Option<PathMap>, reported: Result<PathMap, Error>): (res: Result<Option<PathMap>, Error>)
    requires given.Some? ==> given.value.Valid()
    requires reported.Success? ==> reported.value.Valid()
    ensures res.Failure? <==> !NothingRequested(paths, given) && given.None? && reported.Failure?
    ensures res.Success? ==> (res.value.None? <==> NothingRequested(paths, given))
    ensures res.Success? && res.value.Some? ==>
              var src := if given.Some? then given.value else reported.value;
              var pre := res.value.value;
              && pre.Valid()
              && (forall p :: p in pre.recs <==> p in src.recs && !HasState(src.recs[p], Clean))
              && (forall p :: p in pre.recs ==> pre.recs[p] == src.recs[p])
              && Subsequence(pre.paths, src.paths)
  {
    if NothingRequested(paths, given) then Success(None)
    else
      var src :- if given.Some? then Success(given.value) else reported;
      Success(Some(src.Filter(NotClean)))
  }

  /** `v.get('state', None) != 'clean'`. */
  predicate NotClean(p: Path, r: Record)
  {
    !HasState(r, Clean)
  }

  /** Feeding the prepared status back in as `_status` prepares the same
      status: nothing clean is left to drop. */
  lemma SavePreIdempotent(paths: Option<seq<Path>>, given: Option<PathMap>, reported: Result<PathMap, Error>, other: Result<PathMap, Error>)
    requires given.Some? ==> given.value.Valid()
    requires reported.Success? ==> reported.value.Valid()
    requires other.Success? ==> other.value.Valid()
    requires SavePre(paths, given, reported).Success? && SavePre(paths, given, reported).value.Some?
    ensures var pre := SavePre(paths, given, reported).value.value;
            pre.recs != map[] ==> SavePre(paths, Some(pre), other) == Success(Some(pre))
  {
    var pre := SavePre(paths, given, reported).value.value;
    FilterKeepingAll(pre, NotClean);
  }

  /** A filter that keeps every entry is the identity, order included. */
  lemma FilterKeepingAll(m: PathMap, keep: (Path, Record) -> bool)
    requires m.Valid() && forall p :: p in m.recs ==> keep(p, m.recs[p])
    ensures m.Filter(keep) == m
  {
    SelectKeepingAll(m.paths, p => p in m.recs && keep(p, m.recs[p]));
  }

  lemma {:induction false} SelectKeepingAll(ps: seq<Path>, keep: Path -> bool)
    requires forall i :: 0 <= i < |ps| ==> keep(ps[i])
    ensures Select(ps, keep) == ps
  {
    if |ps| > 0 {
      SelectKeepingAll(ps[1..], keep);
    }
  }

  /** `props.get('state', None) in ('modified', 'untracked')`. */
  predicate ToAdd(r: Record)
  {
    HasState(r, Modified) || HasState(r, Untracked)
  }

  /** Deleted, and not already staged as such: a staged deletion carries a
      shasum, and `git rm` would fail on it. */
  predicate ToRemove(r: Record)
  {
    HasState(r, Deleted) && !FieldTruthy(r, GITSHASUM)
  }

  datatype Commit = Commit(files: seq<Path>, message: string, defaultMessage: bool)

  /** What `save_` does once it has something to save. */
  datatype Plan = Plan(
    candidates: seq<Path>,  // nested repositories offered to add_submodule
    status: PathMap,        // the status acted on, `.gitmodules` included
    toAdd: seq<Path>,       // handed to add_
    toRemove: seq<Path>,    // handed to remove
    commit: Commit)         // what _save_post commits

  /** `_save_post`: a missing or empty message becomes the default one, and
      every path of the status goes into the commit. */
  function SavePost(message: Option<string>, status: PathMap): (c: Commit)
    ensures c.defaultMessage <==> message.None? || message.value == ""
    ensures c.message == if c.defaultMessage then DEFAULT_MESSAGE else message.value
    ensures c.files == status.paths
  {
    if message.None? || message.value == "" then Commit(status.paths, DEFAULT_MESSAGE, true)
    else Commit(status.paths, message.value, false)
  }

  /** `p` is the path `q` or lies below it. */
  predicate Under(p: Path, q: Path)
  {
    p == q || Text.StartsWith(p, q + "/")
  }

  predicate InScope(p: Path, scope: seq<Path>)
  {
    exists q :: q in scope && Under(p, q)
  }

  /** `get_content_info(scope, ref=None, untracked='all')` against the
      worktree listing `worktree` (every untracked file listed on its own,
      untracked nested repositories as directories). An empty path list
      reaches the listing command as no path list at all, so it lists the
      whole worktree. */
  function Listing(worktree: PathMap, scope: seq<Path>): (l: PathMap)
    requires worktree.Valid()
    ensures l.Valid()
    ensures scope == [] ==> l == worktree
    ensures forall p :: p in l.recs <==> p in worktree.recs && (scope == [] || InScope(p, scope))
    ensures forall p :: p in l.recs ==> l.recs[p] == worktree.recs[p]
  {
    if scope == [] then worktree else worktree.Filter((p, r) => InScope(p, scope))
  }

  /** The untracked directories of the prepared status, in status order. */
  function UntrackedDirs(pre: PathMap): (ds: seq<Path>)
    requires pre.Valid()
    ensures forall p :: p in ds <==> p in pre.recs && HasState(pre.recs[p], Untracked) && IsType(pre.recs[p], DIRECTORY)
  {
    Select(pre.paths, p => p in pre.recs && HasState(pre.recs[p], Untracked) && IsType(pre.recs[p], DIRECTORY))
  }

  /** What still lists as a directory when every untracked file is listed
      is a repository of its own. */
  function Directories(listing: PathMap): (cs: seq<Path>)
    requires listing.Valid()
    ensures forall p :: p in cs <==> p in listing.recs && IsType(listing.recs[p], DIRECTORY)
    ensures Distinct(cs)
  {
    Select(listing.paths, p => p in listing.recs && IsType(listing.recs[p], DIRECTORY))
  }

  /** The candidates for `add_submodule` as `save_` computes them: the
      directories listed when the untracked directories of the status are
      probed. With no untracked directory in the status, the probe's path
      list is empty and so reaches the whole worktree. */
  function CandidatesAsWritten(worktree: PathMap, pre: PathMap): (cs: seq<Path>)
    requires worktree.Valid() && pre.Valid()
    ensures Distinct(cs)
    ensures forall p :: p in cs <==>
              && p in worktree.recs && IsType(worktree.recs[p], DIRECTORY)
              && (UntrackedDirs(pre) == [] || InScope(p, UntrackedDirs(pre)))
  {
    Directories(Listing(worktree, UntrackedDirs(pre)))
  }

  /** With only a modified file to save, the probe as written still offers
      an untracked nested repository elsewhere in the worktree to
      `add_submodule`. */
  lemma CandidatesAsWrittenReachOutside()
    ensures var pre := PathMap(["/ds/file"], map["/ds/file" := map[TYPE := Str(FILE), STATE := Str(Modified.Label())]]);
            var worktree := PathMap(["/ds/sub"], map["/ds/sub" := map[TYPE := Str(DIRECTORY)]]);
            && UntrackedDirs(pre) == []
            && "/ds/sub" !in pre.recs
            && CandidatesAsWritten(worktree, pre) == ["/ds/sub"]
            && Candidates(worktree, pre) == []
  {
    var pre := PathMap(["/ds/file"], map["/ds/file" := map[TYPE := Str(FILE), STATE := Str(Modified.Label())]]);
    var worktree := PathMap(["/ds/sub"], map["/ds/sub" := map[TYPE := Str(DIRECTORY)]]);
    LabelsDiffer(Modified, Untracked);
    assert !HasState(pre.recs["/ds/file"], Untracked);
    assert "/ds/sub" != "/ds/file";
    assert UntrackedDirs(pre) == [];
    assert IsType(worktree.recs["/ds/sub"], DIRECTORY);
  }

  /** The candidates for `add_submodule`: the nested repositories inside the
      untracked directories of the status, and none when there is no
      untracked directory to look into. */
  function Candidates(worktree: PathMap, pre: PathMap): (cs: seq<Path>)
    requires worktree.Valid() && pre.Valid()
    ensures Distinct(cs)
    ensures forall p :: p in cs <==>
              && p in worktree.recs && IsType(worktree.recs[p], DIRECTORY)
              && InScope(p, UntrackedDirs(pre))
    // the two probes differ only when the status has no untracked directory
    ensures UntrackedDirs(pre) != [] ==> cs == CandidatesAsWritten(worktree, pre)
  {
    var scope := UntrackedDirs(pre);
    if scope == [] then [] else Directories(Listing(worktree, scope))
  }

  /** The status after the submodule step: `.gitmodules` is recorded as a
      modified file once some candidate was registered. */
  function WithGitmodules(root: Path, pre: PathMap, candidates: seq<Path>, registered: set<Path>): (status: PathMap)
    requires pre.Valid()
    ensures status.Valid()
    ensures var added := exists c :: c in candidates && c in registered;
            && (forall p :: p in status.recs <==> p in pre.recs || (added && p == Join(root, GITMODULES)))
            && (forall p :: p in pre.recs && (p != Join(root, GITMODULES) || !added) ==> status.recs[p] == pre.recs[p])
            && (added ==> status.recs[Join(root, GITMODULES)] == GITMODULES_RECORD)
  {
    var registeredNow := Select(candidates, c => c in registered);
    assert |registeredNow| > 0 <==> exists c :: c in candidates && c in registered by {
      if |registeredNow| > 0 {
        assert registeredNow[0] in registeredNow;
      }
    }
    if |registeredNow| > 0 then pre.Put(Join(root, GITMODULES), GITMODULES_RECORD) else pre
  }

  /** The plan for a non-empty prepared status `pre` once the candidates are
      known; `registered` are the candidates `add_submodule` succeeded on. */
  function PlanFor(root: Path, message: Option<string>, pre: PathMap, candidates: seq<Path>, registered: set<Path>): (plan: Plan)
    requires pre.Valid()
    ensures plan.candidates == candidates
    ensures plan.status == WithGitmodules(root, pre, candidates, registered)
    ensures forall p :: p in plan.toAdd <==> p in plan.status.recs && ToAdd(plan.status.recs[p])
    ensures Subsequence(plan.toAdd, plan.status.paths)
    ensures forall p :: p in plan.toRemove <==> p in plan.status.recs && ToRemove(plan.status.recs[p])
    ensures Subsequence(plan.toRemove, plan.status.paths)
    ensures plan.commit == SavePost(message, plan.status)
  {
    var status := WithGitmodules(root, pre, candidates, registered);
    var toAdd := Select(status.paths, p => p in status.recs && ToAdd(status.recs[p]));
    var toRemove := Select(status.paths, p => p in status.recs && ToRemove(status.recs[p]));
    Plan(candidates, status, toAdd, toRemove, SavePost(message, status))
  }

  /** The plan `save_` follows, as written: the candidates come from the
      probe of `CandidatesAsWritten`. `worktree` is the worktree listing
      with every untracked file listed. */
  function PlanSave(root: Path, message: Option<string>, pre: PathMap, worktree: PathMap, registered: set<Path>): (plan: Plan)
    requires pre.Valid() && worktree.Valid()
    ensures forall p :: p in plan.candidates <==>
              && p in worktree.recs && IsType(worktree.recs[p], DIRECTORY)
              && (UntrackedDirs(pre) == [] || InScope(p, UntrackedDirs(pre)))
    ensures plan == PlanFor(root, message, pre, CandidatesAsWritten(worktree, pre), registered)
  {
    PlanFor(root, message, pre, CandidatesAsWritten(worktree, pre), registered)
  }

  /** The plan with the probe confined to the untracked directories. */
  function PlanSaveCorrected(root: Path, message: Option<string>, pre: PathMap, worktree: PathMap, registered: set<Path>): (plan: Plan)
    requires pre.Valid() && worktree.Valid()
    ensures forall p :: p in plan.candidates <==>
              && p in worktree.recs && IsType(worktree.recs[p], DIRECTORY)
              && InScope(p, UntrackedDirs(pre))
    ensures plan == PlanFor(root, message, pre, Candidates(worktree, pre), registered)
    // with an untracked directory to probe, it is the plan as written
    ensures UntrackedDirs(pre) != [] ==> plan == PlanSave(root, message, pre, worktree, registered)
  {
    PlanFor(root, message, pre, Candidates(worktree, pre), registered)
  }

  /** When the status has no untracked directory, a nested repository
      anywhere in the worktree that `add_submodule` accepts makes the plan as
      written record `.gitmodules` as modified, while the corrected plan
      keeps the prepared status as it is. */
  lemma PlanSaveRegistersOutside(root: Path, message: Option<string>, pre: PathMap, worktree: PathMap, sub: Path)
    requires pre.Valid() && worktree.Valid() && UntrackedDirs(pre) == []
    requires sub in worktree.recs && IsType(worktree.recs[sub], DIRECTORY)
    ensures var asWritten := PlanSave(root, message, pre, worktree, {sub});
            && sub in asWritten.candidates
            && Join(root, GITMODULES) in asWritten.status.recs
            && asWritten.status.recs[Join(root, GITMODULES)] == GITMODULES_RECORD
    ensures var corrected := PlanSaveCorrected(root, message, pre, worktree, {sub});
            && corrected.candidates == []
            && corrected.status == pre
  {
    assert sub in CandidatesAsWritten(worktree, pre);
  }

  /** `save_(message, paths, _status)`: `reported` is the status the
      repository reports; `None` is "nothing to save". */
  function Save(
    root: Path, message: Option<string>, paths: Option<seq<Path>>, given: Option<PathMap>,
    reported: Result<PathMap, Error>, worktree: PathMap, registered: set<Path>): (res: Result<Option<Plan>, Error>)
    requires given.Some? ==> given.value.Valid()
    requires reported.Success? ==> reported.value.Valid()
    requires worktree.Valid()
    ensures res.Failure? <==> SavePre(paths, given, reported).Failure?
    // nothing to save: nothing requested, or nothing but clean entries
    ensures res.Success? ==>
              (res.value.None? <==> SavePre(paths, given, reported).value.None?
                                    || SavePre(paths, given, reported).value.value.recs == map[])
    ensures res.Success? && res.value.Some? ==>
              res.value.value == PlanSave(root, message, SavePre(paths, given, reported).value.value, worktree, registered)
  {
    var prepared :- SavePre(paths, given, reported);
    if prepared.None? || prepared.value.recs == map[] then Success(None)
    else Success(Some(PlanSave(root, message, prepared.value, worktree, registered)))
  }

  /** Adding and removing never touch the same path, and everything added
      or removed is committed. */
  lemma PlanAddsAndRemovesApart(root: Path, message: Option<string>, pre: PathMap, candidates: seq<Path>, registered: set<Path>)
    requires pre.Valid()
    ensures var plan := PlanFor(root, message, pre, candidates, registered);
            && (forall p :: p in plan.toAdd ==> p !in plan.toRemove)
            && (forall p :: p in plan.toAdd || p in plan.toRemove ==> p in plan.commit.files)
  {
    var status := PlanFor(root, message, pre, candidates, registered).status;
    forall p | p in status.recs
      ensures ToAdd(status.recs[p]) ==> !ToRemove(status.recs[p])
    {
      AddExcludesRemove(status.recs[p]);
    }
  }

  /** A path to add is never also a path to remove. */
  lemma AddExcludesRemove(r: Record)
    ensures ToAdd(r) ==> !ToRemove(r)
  {
    LabelsDiffer(Modified, Deleted);
    LabelsDiffer(Untracked, Deleted);
  }

  /** What a plan commits is its whole status: nothing clean, and, for a
      non-empty prepared status, something. */
  lemma PlanCommitsChanges(root: Path, message: Option<string>, pre: PathMap, candidates: seq<Path>, registered: set<Path>)
    requires pre.Valid() && pre.recs != map[]
    requires forall p :: p in pre.recs ==> !HasState(pre.recs[p], Clean)
    ensures var plan := PlanFor(root, message, pre, candidates, registered);
            && (forall p :: p in plan.commit.files ==> p in plan.status.recs && !HasState(plan.status.recs[p], Clean))
            && |plan.commit.files| > 0
  {
    GitmodulesKeepsChanges(root, pre, candidates, registered);
  }

  /** Recording `.gitmodules` keeps a status free of clean entries, and non-empty. */
  lemma GitmodulesKeepsChanges(root: Path, pre: PathMap, candidates: seq<Path>, registered: set<Path>)
    requires pre.Valid() && pre.recs != map[]
    requires forall p :: p in pre.recs ==> !HasState(pre.recs[p], Clean)
    ensures var status := WithGitmodules(root, pre, candidates, registered);
            && (forall p :: p in status.recs ==> !HasState(status.recs[p], Clean))
            && |status.paths| > 0
  {
    var status := WithGitmodules(root, pre, candidates, registered);
    LabelsDiffer(Modified, Clean);
    assert GITMODULES_RECORD[STATE] == Str(Modified.Label());
    var p :| p in pre.recs;
    assert p in status.paths;
  }
}
