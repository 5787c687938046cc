/** The two classification loops of `diffstatus`: every path of the `to`
    side gets a state from comparing its record with the `from` side, and
    every path only the `from` side knows is reported deleted. */
module Classification {
  import opened Wrappers
  import opened Records

  /** A content-info map: every record carries `gitshasum` and `type`. */
  ghost predicate IsSnapshot(m: PathMap)
  {
    m.Valid() && forall p :: p in m.recs ==> GITSHASUM in m.recs[p] && TYPE in m.recs[p]
  }

  /** `f.exists() or f.is_symlink()`, asked of the live filesystem. */
  predicate Present(fs: FileSystem, f: Path)
  {
    fs.Exists(f) || fs.IsSymlink(f)
  }

  /** Same Git record on both sides, and not flagged as modified on disk. */
  predicate Unchanged(f: Path, t: Record, from: PathMap, modified: Option<set<Path>>)
  {
    && f in from.recs
    && GITSHASUM in t && GITSHASUM in from.recs[f]
    && t[GITSHASUM] == from.recs[f][GITSHASUM]
    && (modified.None? || f !in modified.value)
  }

  /** The status record for a path of the `to` side in state `s`; the Git
      shasum is kept for clean and added content only. */
  function StatusOf(s: State, t: Record): Record
    requires GITSHASUM in t && TYPE in t
  {
    var base := map[STATE := Str(s.Label()), TYPE := t[TYPE]];
    if s == Clean || s == Added then base[GITSHASUM := t[GITSHASUM]] else base
  }

  /** The `props` built for a path of the `to` side; `None` where the source
      leaves `props` unset (an unchanged subdataset under 'all'). */
  function ToSideRecord(
    f: Path, t: Record, from: PathMap, modified: Option<set<Path>>,
    fs: FileSystem, mode: IgnoreSubmodules): (r: Option<Record>)
    requires GITSHASUM in t && TYPE in t && IsSnapshot(from)
    // unset exactly for an unchanged subdataset under 'all'
    ensures r.None? <==> mode == All && Unchanged(f, t, from, modified) && t[TYPE] == Str(DATASET)
    // new on the `to` side: added when Git records it, untracked otherwise
    ensures r.Some? && f !in from.recs ==>
              (HasState(r.value, Added) <==> Truthy(t[GITSHASUM]))
              && (HasState(r.value, Untracked) <==> !Truthy(t[GITSHASUM]))
    // same record, not modified on disk: clean, or deleted when gone from disk
    ensures r.Some? && Unchanged(f, t, from, modified) ==>
              HasState(r.value, if Present(fs, f) then Clean else Deleted)
    // changed record, or modified on disk: modified, or deleted when gone from disk
    ensures r.Some? && f in from.recs && !Unchanged(f, t, from, modified) ==>
              HasState(r.value, if Present(fs, f) then Modified else Deleted)
    // the type always comes from `to`; the shasum only for clean and added content
    ensures r.Some? ==>
              && FieldIs(r.value, TYPE, t[TYPE])
              && (GITSHASUM in r.value <==> HasState(r.value, Clean) || HasState(r.value, Added))
              && (GITSHASUM in r.value ==> r.value[GITSHASUM] == t[GITSHASUM])
  {
    if f !in from.recs then
      Some(StatusOf(if Truthy(t[GITSHASUM]) then Added else Untracked, t))
    else if Unchanged(f, t, from, modified) then
      if mode != All || t[TYPE] != Str(DATASET) then
        Some(StatusOf(if Present(fs, f) then Clean else Deleted, t))
      else
        None
    else
      Some(StatusOf(if Present(fs, f) then Modified else Deleted, t))
  }

  /** The record for a path only the `from` side knows. */
  function VanishedRecord(r: Record): Record
    requires GITSHASUM in r && TYPE in r
  {
    map[STATE := Str(Deleted.Label()), TYPE := r[TYPE], GITSHASUM := r[GITSHASUM]]
  }

  /** A vanished path is reported deleted, never clean. */
  lemma VanishedIsDeleted(r: Record)
    requires GITSHASUM in r && TYPE in r
    ensures HasState(VanishedRecord(r), Deleted) && !HasState(VanishedRecord(r), Clean)
  {
    assert STATE[0] != TYPE[0] && STATE[0] != GITSHASUM[0];
    assert VanishedRecord(r)[STATE] == Str(Deleted.Label());
    LabelsDiffer(Deleted, Clean);
  }

  /** The first loop of `diffstatus` over the first `n` paths of `to`, given
      the `props` computed for each of them: the first path left without
      `props` raises, every other path is entered in order. */
  function CollectProps(paths: seq<Path>, props: seq<Option<Record>>, n: nat): (res: Result<PathMap, Error>)
    requires Distinct(paths) && |props| == |paths| && n <= |paths|
    ensures res.Failure? <==> exists i :: 0 <= i < n && props[i].None?
    // the error names the first path without props
    ensures res.Failure? ==>
              exists i :: 0 <= i < n && props[i].None? && res.error == NoStatusProps(paths[i])
                          && forall j :: 0 <= j < i ==> props[j].Some?
    ensures res.Success? ==> res.value.Valid() && res.value.paths == paths[..n]
    ensures res.Success? ==> forall i :: 0 <= i < n ==> Some(res.value.recs[paths[i]]) == props[i]
    decreases n
  {
    if n == 0 then Success(EMPTY)
    else
      var prev :- CollectProps(paths, props, n - 1);
      match props[n - 1]
      case None => Failure(NoStatusProps(paths[n - 1]))
      case Some(r) =>
        CollectStep(paths, props, n, prev, r);
        Success(prev.Put(paths[n - 1], r))
  }

  /** One iteration of the first loop: entering the `n`-th path keeps the
      loop's invariant. */
  lemma CollectStep(paths: seq<Path>, props: seq<Option<Record>>, n: nat, prev: PathMap, r: Record)
    requires Distinct(paths) && |props| == |paths| && 0 < n <= |paths|
    requires prev.Valid() && prev.paths == paths[..n - 1]
    requires forall i :: 0 <= i < n - 1 ==> Some(prev.recs[paths[i]]) == props[i]
    requires props[n - 1] == Some(r)
    ensures var next := prev.Put(paths[n - 1], r);
            && next.Valid() && next.paths == paths[..n]
            && forall i :: 0 <= i < n ==> Some(next.recs[paths[i]]) == props[i]
  {
    var f := paths[n - 1];
    assert paths[..n] == paths[..n - 1] + [f];
    assert f !in prev.paths by {
      assert forall k :: 0 <= k < n - 1 ==> prev.paths[k] == paths[k] && paths[k] != f;
    }
  }

  /** The second loop of `diffstatus`: every path of `from` that `to` lacks
      is added after the existing entries, in the order of `from`. */
  function AddVanished(status: PathMap, to: PathMap, from: PathMap): (s: PathMap)
    requires status.Valid() && IsSnapshot(from)
    requires forall p :: p in status.recs ==> p in to.recs
    ensures s.Valid() && |status.paths| <= |s.paths| && s.paths[..|status.paths|] == status.paths
    ensures forall p :: p in s.recs <==> p in status.recs || (p in from.recs && p !in to.recs)
    ensures forall p :: p in status.recs ==> s.recs[p] == status.recs[p]
    ensures forall p :: p in s.recs && p !in status.recs ==> s.recs[p] == VanishedRecord(from.recs[p])
  {
    var gone := Select(from.paths, p => p !in to.recs);
    var vanished := map p | p in gone :: VanishedRecord(from.recs[p]);
    var s := PathMap(status.paths + gone, status.recs + vanished);
    AddVanishedFacts(status, to, from, gone, vanished, s);
    s
  }

  lemma AddVanishedFacts(
    status: PathMap, to: PathMap, from: PathMap, gone: seq<Path>, vanished: map<Path, Record>, s: PathMap)
    requires status.Valid() && IsSnapshot(from)
    requires forall p :: p in status.recs ==> p in to.recs
    requires forall p :: p in gone <==> p in from.paths && p !in to.recs
    requires Distinct(gone)
    requires vanished == map p | p in gone :: VanishedRecord(from.recs[p])
    requires s == PathMap(status.paths + gone, status.recs + vanished)
    ensures s.Valid() && |status.paths| <= |s.paths| && s.paths[..|status.paths|] == status.paths
    ensures forall p :: p in s.recs <==> p in status.recs || (p in from.recs && p !in to.recs)
    ensures forall p :: p in status.recs ==> s.recs[p] == status.recs[p]
    ensures forall p :: p in s.recs && p !in status.recs ==> s.recs[p] == VanishedRecord(from.recs[p])
  {
    DistinctAppend(status.paths, gone);
    forall p | p in status.recs
      ensures s.recs[p] == status.recs[p]
    {
      assert p !in vanished;
    }
    forall p | p in s.recs && p !in status.recs
      ensures s.recs[p] == VanishedRecord(from.recs[p])
    {
      assert p in vanished;
    }
    assert (status.paths + gone)[..|status.paths|] == status.paths;
  }

  lemma DistinctAppend(xs: seq<Path>, ys: seq<Path>)
    requires Distinct(xs) && Distinct(ys)
    requires forall p :: p in xs ==> p !in ys
    ensures Distinct(xs + ys)
  {
    forall i, j | 0 <= i < j < |xs + ys|
      ensures (xs + ys)[i] != (xs + ys)[j]
    {
      if j >= |xs| && i < |xs| {
        assert xs[i] in xs && ys[j - |xs|] in ys;
      }
    }
  }

  /** The `props` of every path of `to`, in the order of `to`. */
  function ToSideProps(
    to: PathMap, from: PathMap, modified: Option<set<Path>>, fs: FileSystem, mode: IgnoreSubmodules): (props: seq<Option<Record>>)
    requires IsSnapshot(to) && IsSnapshot(from)
    ensures |props| == |to.paths|
    ensures forall i :: 0 <= i < |to.paths| ==>
              props[i] == ToSideRecord(to.paths[i], to.recs[to.paths[i]], from, modified, fs, mode)
  {
    seq(|to.paths|, i requires 0 <= i < |to.paths| =>
      ToSideRecord(to.paths[i], to.recs[to.paths[i]], from, modified, fs, mode))
  }

  /** The first loop over all of `to`, restated per path instead of per position. */
  lemma CollectPropsByPath(
    to: PathMap, props: seq<Option<Record>>,
    from: PathMap, modified: Option<set<Path>>, fs: FileSystem, mode: IgnoreSubmodules)
    requires IsSnapshot(to) && IsSnapshot(from) && |props| == |to.paths|
    requires forall i :: 0 <= i < |to.paths| ==>
               props[i] == ToSideRecord(to.paths[i], to.recs[to.paths[i]], from, modified, fs, mode)
    ensures var r := CollectProps(to.paths, props, |to.paths|);
            && (r.Failure? <==> exists f :: f in to.recs && ToSideRecord(f, to.recs[f], from, modified, fs, mode).None?)
            && (r.Success? ==> r.value.paths == to.paths && r.value.recs.Keys == to.recs.Keys)
            && (r.Success? ==> forall f :: f in to.recs ==>
                  Some(r.value.recs[f]) == ToSideRecord(f, to.recs[f], from, modified, fs, mode))
  {
    var r := CollectProps(to.paths, props, |to.paths|);
    assert to.paths[..|to.paths|] == to.paths;
    if r.Failure? {
      var i :| 0 <= i < |to.paths| && props[i].None?;
      assert to.paths[i] in to.recs;
    } else {
      PositionsToPaths(to, r.value, props, from, modified, fs, mode);
    }
  }

  lemma PositionsToPaths(
    to: PathMap, m: PathMap, props: seq<Option<Record>>,
    from: PathMap, modified: Option<set<Path>>, fs: FileSystem, mode: IgnoreSubmodules)
    requires IsSnapshot(to) && IsSnapshot(from)
    requires m.Valid() && m.paths == to.paths && |props| == |to.paths|
    requires forall i :: 0 <= i < |to.paths| ==> Some(m.recs[to.paths[i]]) == props[i]
    requires forall i :: 0 <= i < |to.paths| ==>
               props[i] == ToSideRecord(to.paths[i], to.recs[to.paths[i]], from, modified, fs, mode)
    ensures m.recs.Keys == to.recs.Keys
    ensures forall f :: f in to.recs ==> Some(m.recs[f]) == ToSideRecord(f, to.recs[f], from, modified, fs, mode)
  {
    forall f | f in to.recs
      ensures Some(m.recs[f]) == ToSideRecord(f, to.recs[f], from, modified, fs, mode)
    {
      var i :| 0 <= i < |to.paths| && to.paths[i] == f;
    }
    forall f
      ensures f in m.recs <==> f in to.recs
    {
      assert f in m.recs <==> f in m.paths;
    }
  }

  /** Both loops of `diffstatus` that classify paths (gitrepo.py:308-355). */
  function Classify(
    to: PathMap, from: PathMap, modified: Option<set<Path>>,
    fs: FileSystem, mode: IgnoreSubmodules): (res: Result<PathMap, Error>)
    requires IsSnapshot(to) && IsSnapshot(from)
    // the source fails on an unchanged subdataset under 'all', and only there
    ensures res.Failure? <==>
              exists f :: f in to.recs && ToSideRecord(f, to.recs[f], from, modified, fs, mode).None?
    ensures res.Success? ==> res.value.Valid()
    ensures res.Success? ==> |to.paths| <= |res.value.paths| && res.value.paths[..|to.paths|] == to.paths
    ensures res.Success? ==> forall f :: f in res.value.recs <==> f in to.recs || f in from.recs
    ensures res.Success? ==>
              forall f :: f in to.recs ==>
                Some(res.value.recs[f]) == ToSideRecord(f, to.recs[f], from, modified, fs, mode)
    // known only to `from`: deleted, carrying the recorded shasum
    ensures res.Success? ==>
              forall f :: f in from.recs && f !in to.recs ==> res.value.recs[f] == VanishedRecord(from.recs[f])
  {
    var props := ToSideProps(to, from, modified, fs, mode);
    CollectPropsByPath(to, props, from, modified, fs, mode);
    var r := CollectProps(to.paths, props, |to.paths|);
    if r.Failure? then
      Failure(r.error)
    else
      Success(AddVanished(r.value, to, from))
  }
}
