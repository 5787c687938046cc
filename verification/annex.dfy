/** The annex layer of `RevolutionAnnexRepo`: marking whether the content
    of annexed files is present in the local object store, merging the JSON
    records `git annex find`/`findref` print into a content-info map, the
    `annexstatus` overlay, and the options `_save_add` hands to
    `git annex add`. */
module Annex {
  import opened Wrappers
  import opened Records

  // Fields of annex records.
  const HAS_CONTENT := "has_content"
  const HASHDIRMIXED := "hashdirmixed"
  const HASHDIRLOWER := "hashdirlower"
  const OBJLOC := "objloc"
  /** The field of a JSON record naming the file, relative to the repository. */
  const JSON_FILE := "file"

  // ---------------------------------------------------------------------
  // _mark_content_availability

  /** An annexed record that has not been looked at yet. */
  predicate NeedsProbe(r: Record)
  {
    KEY in r && HAS_CONTENT !in r
  }

  /** What the probe reads of a record it looks at: the key and both hash
      directory hints, as strings. */
  predicate Probeable(r: Record)
  {
    NeedsProbe(r) ==> IsStr(r, KEY) && IsStr(r, HASHDIRMIXED) && IsStr(r, HASHDIRLOWER)
  }

  /** `objectstore / hashdir / key / key`: the key file itself, not its directory. */
  function ObjectPath(store: Path, hashdir: string, key: string): Path
  {
    Join(Join(Join(store, hashdir), key), key)
  }

  /** A record whose content object was found at `loc`. */
  function Located(r: Record, loc: Path): Record
  {
    (r - {HASHDIRMIXED, HASHDIRLOWER})[OBJLOC := Str(loc)][HAS_CONTENT := Bool(true)]
  }

  /** The enrichment of one record: the mixed-case layout is probed first,
      then the lower-case one, and the first existing key file wins. */
  function MarkRecord(store: Path, fs: FileSystem, r: Record): (m: Record)
    requires Probeable(r)
    // not annexed, or already processed: left alone
    ensures !NeedsProbe(r) ==> m == r
    // afterwards every annexed record says whether its content is present
    ensures KEY in r ==> HAS_CONTENT in m
    ensures NeedsProbe(r) ==> m[HAS_CONTENT].Bool?
    ensures NeedsProbe(r) ==>
              var mixed := ObjectPath(store, r[HASHDIRMIXED].s, r[KEY].s);
              var lower := ObjectPath(store, r[HASHDIRLOWER].s, r[KEY].s);
              && (m[HAS_CONTENT] == Bool(true) <==> fs.Exists(mixed) || fs.Exists(lower))
              && (fs.Exists(mixed) ==> FieldIs(m, OBJLOC, Str(mixed)))
              && (!fs.Exists(mixed) && fs.Exists(lower) ==> FieldIs(m, OBJLOC, Str(lower)))
    // found: both hints are dropped; not found: only `has_content` is added
    ensures NeedsProbe(r) && m[HAS_CONTENT] == Bool(true) ==> HASHDIRMIXED !in m && HASHDIRLOWER !in m
    ensures NeedsProbe(r) && m[HAS_CONTENT] == Bool(false) ==> m == r[HAS_CONTENT := Bool(false)]
    // fields the probe does not manage are never touched
    ensures forall k :: k in r && k !in {HASHDIRMIXED, HASHDIRLOWER, OBJLOC, HAS_CONTENT} ==> k in m && m[k] == r[k]
    ensures forall k :: k in m ==> k in r || k in {OBJLOC, HAS_CONTENT}
  {
    if !NeedsProbe(r) then r
    else
      var key := r[KEY].s;
      var mixed := ObjectPath(store, r[HASHDIRMIXED].s, key);
      var lower := ObjectPath(store, r[HASHDIRLOWER].s, key);
      if fs.Exists(mixed) then Located(r, mixed)
      else if fs.Exists(lower) then Located(r, lower)
      else r[HAS_CONTENT := Bool(false)]
  }

  /** Marking a record twice is marking it once: the `has_content` guard. */
  lemma MarkRecordIdempotent(store: Path, fs: FileSystem, r: Record)
    requires Probeable(r)
    ensures Probeable(MarkRecord(store, fs, r))
    ensures MarkRecord(store, fs, MarkRecord(store, fs, r)) == MarkRecord(store, fs, r)
  {
  }

  ghost predicate AllProbeable(info: PathMap)
  {
    forall f :: f in info.recs ==> Probeable(info.recs[f])
  }

  /** `_mark_content_availability(info)` as a whole-map transformation. */
  function MarkAll(store: Path, fs: FileSystem, info: PathMap): (m: PathMap)
    requires info.Valid() && AllProbeable(info)
    ensures m.Valid() && m.paths == info.paths && m.recs.Keys == info.recs.Keys
    ensures forall f :: f in info.recs ==> m.recs[f] == MarkRecord(store, fs, info.recs[f])
  {
    PathMap(info.paths, map f | f in info.recs :: MarkRecord(store, fs, info.recs[f]))
  }

  /** Running the availability marking twice gives the result of running it once. */
  lemma MarkAllIdempotent(store: Path, fs: FileSystem, info: PathMap)
    requires info.Valid() && AllProbeable(info)
    ensures AllProbeable(MarkAll(store, fs, info))
    ensures MarkAll(store, fs, MarkAll(store, fs, info)) == MarkAll(store, fs, info)
  {
    var once := MarkAll(store, fs, info);
    forall f | f in once.recs
      ensures Probeable(once.recs[f])
    {
      MarkRecordIdempotent(store, fs, info.recs[f]);
    }
    var twice := MarkAll(store, fs, once);
    forall f | f in info.recs
      ensures twice.recs[f] == once.recs[f]
    {
      MarkRecordIdempotent(store, fs, info.recs[f]);
    }
  }

  /** The loop of `_mark_content_availability` (annexrepo.py:33-62), entry by
      entry in iteration order. */
  method MarkContentAvailability(store: Path, fs: FileSystem, info: PathMap) returns (out: PathMap)
    requires info.Valid() && AllProbeable(info)
    ensures out == MarkAll(store, fs, info)
  {
    var marked := MarkAll(store, fs, info);
    out := info;
    var i := 0;
    while i < |info.paths|
      invariant 0 <= i <= |info.paths|
      invariant out.paths == info.paths && out.recs.Keys == info.recs.Keys
      invariant forall k :: 0 <= k < i ==> out.recs[info.paths[k]] == marked.recs[info.paths[k]]
      invariant forall k :: i <= k < |info.paths| ==> out.recs[info.paths[k]] == info.recs[info.paths[k]]
    {
      var f := info.paths[i];
      assert forall k :: 0 <= k < |info.paths| && k != i ==> info.paths[k] != f;
      out := PathMap(out.paths, out.recs[f := MarkRecord(store, fs, out.recs[f])]);
      i := i + 1;
    }
    forall f | f in info.recs
      ensures out.recs[f] == marked.recs[f]
    {
      var k :| 0 <= k < |info.paths| && info.paths[k] == f;
    }
  }

  // ---------------------------------------------------------------------
  // Merging annex records into a content-info map

  /** One `rec.update(fields)` for the entry at `path`, starting from `{}`
      for a path not yet in the map. */
  datatype Update = Update(path: Path, fields: Record)

  function Merge(info: PathMap, u: Update): (m: PathMap)
    requires info.Valid()
    ensures m.Valid()
    ensures forall q :: q in m.recs <==> q in info.recs || q == u.path
    ensures forall q :: q in info.recs && q != u.path ==> m.recs[q] == info.recs[q]
    ensures m.recs[u.path] == (if u.path in info.recs then info.recs[u.path] else map[]) + u.fields
  {
    var prior := if u.path in info.recs then info.recs[u.path] else map[];
    info.Put(u.path, prior + u.fields)
  }

  ghost predicate Mentioned(ups: seq<Update>, q: Path)
  {
    exists i :: 0 <= i < |ups| && ups[i].path == q
  }

  /** A sequence of updates applied in order. */
  function MergeAll(info: PathMap, ups: seq<Update>): (m: PathMap)
    requires info.Valid()
    ensures m.Valid()
    ensures forall q :: q in m.recs <==> q in info.recs || Mentioned(ups, q)
    ensures forall q :: q in info.recs && !Mentioned(ups, q) ==> m.recs[q] == info.recs[q]
    decreases |ups|
  {
    if |ups| == 0 then info
    else
      var init := ups[..|ups| - 1];
      var prev := MergeAll(info, init);
      MentionedExtend(ups);
      Merge(prev, ups[|ups| - 1])
  }

  lemma MentionedExtend(ups: seq<Update>)
    requires |ups| > 0
    ensures forall q :: Mentioned(ups, q) <==> Mentioned(ups[..|ups| - 1], q) || ups[|ups| - 1].path == q
  {
    var init := ups[..|ups| - 1];
    forall q | Mentioned(ups, q)
      ensures Mentioned(init, q) || ups[|ups| - 1].path == q
    {
      var i :| 0 <= i < |ups| && ups[i].path == q;
      if i < |init| {
        assert init[i] == ups[i];
      }
    }
    forall q | Mentioned(init, q)
      ensures Mentioned(ups, q)
    {
      var i :| 0 <= i < |init| && init[i].path == q;
      assert ups[i] == init[i];
    }
  }

  /** A path updated exactly once ends up as its prior record extended and
      overwritten by that update's fields. */
  lemma {:induction false} MergeAllSingle(info: PathMap, ups: seq<Update>, i: nat)
    requires info.Valid() && i < |ups|
    requires forall j :: 0 <= j < |ups| && j != i ==> ups[j].path != ups[i].path
    ensures var p := ups[i].path;
            MergeAll(info, ups).recs[p] == (if p in info.recs then info.recs[p] else map[]) + ups[i].fields
    decreases |ups|
  {
    var init := ups[..|ups| - 1];
    if i < |ups| - 1 {
      assert init[i] == ups[i];
      forall j | 0 <= j < |init| && j != i
        ensures init[j].path != init[i].path
      {
        assert init[j] == ups[j];
      }
      MergeAllSingle(info, init, i);
      var prev := MergeAll(info, init);
      assert ups[|ups| - 1].path != ups[i].path;
      assert MergeAll(info, ups) == Merge(prev, ups[|ups| - 1]);
    } else {
      MergeAllSingleLast(info, ups);
    }
  }

  /** The case of `MergeAllSingle` where the one update is the last. */
  lemma MergeAllSingleLast(info: PathMap, ups: seq<Update>)
    requires info.Valid() && |ups| > 0
    requires forall j :: 0 <= j < |ups| - 1 ==> ups[j].path != ups[|ups| - 1].path
    ensures var p := ups[|ups| - 1].path;
            MergeAll(info, ups).recs[p] == (if p in info.recs then info.recs[p] else map[]) + ups[|ups| - 1].fields
  {
    var init := ups[..|ups| - 1];
    var p := ups[|ups| - 1].path;
    assert !Mentioned(init, p) by {
      forall j | 0 <= j < |init|
        ensures init[j].path != p
      {
        assert init[j] == ups[j];
      }
    }
    assert MergeAll(info, ups) == Merge(MergeAll(info, init), ups[|ups| - 1]);
  }

  /** Later records win: every field of the last update of a path is in the
      merged record with that update's value. */
  lemma {:induction false} MergeAllLastWins(info: PathMap, ups: seq<Update>, i: nat)
    requires info.Valid() && i < |ups|
    requires forall j :: i < j < |ups| ==> ups[j].path != ups[i].path
    ensures var m := MergeAll(info, ups).recs[ups[i].path];
            forall k :: k in ups[i].fields ==> k in m && m[k] == ups[i].fields[k]
    decreases |ups|
  {
    var init := ups[..|ups| - 1];
    if i < |ups| - 1 {
      assert init[i] == ups[i];
      forall j | i < j < |init|
        ensures init[j].path != init[i].path
      {
        assert init[j] == ups[j];
      }
      MergeAllLastWins(info, init, i);
    }
    assert MergeAll(info, ups) == Merge(MergeAll(info, init), ups[|ups| - 1]);
  }

  /** A JSON record of `git annex find`/`findref`: it names its file. */
  predicate IsAnnexJson(j: Record)
  {
    IsStr(j, JSON_FILE)
  }

  /** What the probe needs of a JSON record: a key comes with both hash
      directory hints, and every hint is a string. */
  predicate ProbeShaped(j: Record)
  {
    && (KEY in j ==> IsStr(j, KEY) && IsStr(j, HASHDIRMIXED) && IsStr(j, HASHDIRLOWER))
    && (HASHDIRMIXED in j ==> j[HASHDIRMIXED].Str?)
    && (HASHDIRLOWER in j ==> j[HASHDIRLOWER].Str?)
  }

  /** The absolute path a JSON record is about. */
  function JsonPath(root: Path, j: Record): Path
    requires IsAnnexJson(j)
  {
    Join(root, j[JSON_FILE].s)
  }

  /** The update a JSON record makes: every field but `file`, at its path. */
  function UpdateOf(root: Path, j: Record): (u: Update)
    requires IsAnnexJson(j)
    ensures u.path == JsonPath(root, j)
    ensures forall k :: k in u.fields <==> k in j && k != JSON_FILE
    ensures forall k :: k in u.fields ==> u.fields[k] == j[k]
  {
    Update(JsonPath(root, j), j - {JSON_FILE})
  }

  function UpdatesOf(root: Path, js: seq<Record>): (ups: seq<Update>)
    requires forall i :: 0 <= i < |js| ==> IsAnnexJson(js[i])
    ensures |ups| == |js|
    ensures forall i :: 0 <= i < |js| ==> ups[i] == UpdateOf(root, js[i])
  {
    seq(|js|, i requires 0 <= i < |js| => UpdateOf(root, js[i]))
  }

  /** The paths a sequence of JSON records names. */
  ghost predicate Names(root: Path, js: seq<Record>, q: Path)
  {
    exists i :: 0 <= i < |js| && IsAnnexJson(js[i]) && JsonPath(root, js[i]) == q
  }

  lemma NamesExtend(root: Path, js: seq<Record>)
    requires |js| > 0 && IsAnnexJson(js[|js| - 1])
    ensures forall q :: Names(root, js, q) <==> Names(root, js[..|js| - 1], q) || JsonPath(root, js[|js| - 1]) == q
  {
    var init := js[..|js| - 1];
    forall q | Names(root, js, q)
      ensures Names(root, init, q) || JsonPath(root, js[|js| - 1]) == q
    {
      var i :| 0 <= i < |js| && IsAnnexJson(js[i]) && JsonPath(root, js[i]) == q;
      if i < |init| {
        assert init[i] == js[i];
      }
    }
    forall q | Names(root, init, q)
      ensures Names(root, js, q)
    {
      var i :| 0 <= i < |init| && IsAnnexJson(init[i]) && JsonPath(root, init[i]) == q;
      assert js[i] == init[i];
    }
  }

  /** The records of `UpdatesOf` mention exactly the paths the JSON names. */
  lemma MentionedNames(root: Path, js: seq<Record>)
    requires forall i :: 0 <= i < |js| ==> IsAnnexJson(js[i])
    ensures forall q :: Mentioned(UpdatesOf(root, js), q) <==> Names(root, js, q)
  {
    var ups := UpdatesOf(root, js);
    forall q | Names(root, js, q)
      ensures Mentioned(ups, q)
    {
      var i :| 0 <= i < |js| && IsAnnexJson(js[i]) && JsonPath(root, js[i]) == q;
      assert ups[i].path == q;
    }
  }

  /** Merging a probe-shaped record into a probeable one keeps it probeable. */
  lemma MergeKeepsProbeable(prior: Record, j: Record)
    requires Probeable(prior) && ProbeShaped(j)
    ensures Probeable(prior + (j - {JSON_FILE}))
  {
  }

  /** Every annexed record says whether its content is present. */
  ghost predicate AllMarked(info: PathMap)
  {
    forall q :: q in info.recs && KEY in info.recs[q] ==> HAS_CONTENT in info.recs[q]
  }

  /** One iteration of the loop of `get_content_annexinfo`: merge the
      record, then mark availability over the whole map when asked for. */
  function AnnexStep(root: Path, prev: PathMap, j: Record, eval: bool, store: Path, fs: FileSystem): (m: PathMap)
    requires prev.Valid() && IsAnnexJson(j)
    requires eval ==> AllProbeable(prev) && ProbeShaped(j)
    ensures m.Valid()
    ensures eval ==> AllProbeable(m) && AllMarked(m)
    ensures forall q :: q in m.recs <==> q in prev.recs || q == JsonPath(root, j)
    ensures !eval ==> m == Merge(prev, UpdateOf(root, j))
  {
    var merged := Merge(prev, UpdateOf(root, j));
    if eval then
      MergeKeepsAllProbeable(root, prev, j);
      MarkAll(store, fs, merged)
    else merged
  }

  /** Merging a probe-shaped record into a map of probeable records keeps
      every record probeable. */
  lemma MergeKeepsAllProbeable(root: Path, prev: PathMap, j: Record)
    requires prev.Valid() && AllProbeable(prev) && IsAnnexJson(j) && ProbeShaped(j)
    ensures AllProbeable(Merge(prev, UpdateOf(root, j)))
  {
    var u := UpdateOf(root, j);
    var merged := Merge(prev, u);
    var prior := if u.path in prev.recs then prev.recs[u.path] else map[];
    MergeKeepsProbeable(prior, j);
    forall q | q in merged.recs
      ensures Probeable(merged.recs[q])
    {
      if q != u.path {
        assert merged.recs[q] == prev.recs[q];
      }
    }
  }

  /** The loop of `get_content_annexinfo` over the JSON records. */
  function AnnexFold(root: Path, start: PathMap, js: seq<Record>, eval: bool, store: Path, fs: FileSystem): (m: PathMap)
    requires start.Valid() && forall i :: 0 <= i < |js| ==> IsAnnexJson(js[i])
    requires eval ==> AllProbeable(start) && forall i :: 0 <= i < |js| ==> ProbeShaped(js[i])
    ensures m.Valid()
    ensures eval ==> AllProbeable(m)
    // availability is only marked from inside the loop: with no records, nothing is marked
    ensures eval && |js| > 0 ==> AllMarked(m)
    ensures forall q :: q in m.recs <==> q in start.recs || Names(root, js, q)
    decreases |js|
  {
    if |js| == 0 then start
    else
      NamesExtend(root, js);
      AnnexStep(root, AnnexFold(root, start, js[..|js| - 1], eval, store, fs), js[|js| - 1], eval, store, fs)
  }

  /** Without availability marking, the loop is the plain sequence of updates. */
  lemma {:induction false} AnnexFoldWithoutMarking(root: Path, start: PathMap, js: seq<Record>, store: Path, fs: FileSystem)
    requires start.Valid() && forall i :: 0 <= i < |js| ==> IsAnnexJson(js[i])
    ensures AnnexFold(root, start, js, false, store, fs) == MergeAll(start, UpdatesOf(root, js))
    decreases |js|
  {
    if |js| > 0 {
      var init := js[..|js| - 1];
      assert UpdatesOf(root, js)[..|js| - 1] == UpdatesOf(root, init);
      AnnexFoldWithoutMarking(root, start, init, store, fs);
    }
  }

  /** Without availability marking, the last JSON record for a path has all
      its fields but `file` in that path's entry, whatever came before. */
  lemma AnnexFoldLastRecordWins(root: Path, start: PathMap, js: seq<Record>, store: Path, fs: FileSystem, i: nat)
    requires start.Valid() && forall i :: 0 <= i < |js| ==> IsAnnexJson(js[i])
    requires i < |js| && forall j :: i < j < |js| ==> JsonPath(root, js[j]) != JsonPath(root, js[i])
    ensures var m := AnnexFold(root, start, js, false, store, fs);
            var p := JsonPath(root, js[i]);
            p in m.recs && forall k :: k in js[i] && k != JSON_FILE ==> k in m.recs[p] && m.recs[p][k] == js[i][k]
  {
    AnnexFoldWithoutMarking(root, start, js, store, fs);
    LastUpdateWins(root, start, UpdatesOf(root, js), js, i);
  }

  lemma LastUpdateWins(root: Path, start: PathMap, ups: seq<Update>, js: seq<Record>, i: nat)
    requires start.Valid() && forall i :: 0 <= i < |js| ==> IsAnnexJson(js[i])
    requires ups == UpdatesOf(root, js)
    requires i < |js| && forall j :: i < j < |js| ==> JsonPath(root, js[j]) != JsonPath(root, js[i])
    ensures var m := MergeAll(start, ups);
            var p := JsonPath(root, js[i]);
            p in m.recs && forall k :: k in js[i] && k != JSON_FILE ==> k in m.recs[p] && m.recs[p][k] == js[i][k]
  {
    assert forall j :: i < j < |ups| ==> ups[j].path != ups[i].path;
    MergeAllLastWins(start, ups, i);
    assert Mentioned(ups, ups[i].path);
  }

  /** Without availability marking, entries no JSON record names keep their
      initial record. */
  lemma AnnexFoldKeepsUnnamed(root: Path, start: PathMap, js: seq<Record>, store: Path, fs: FileSystem)
    requires start.Valid() && forall i :: 0 <= i < |js| ==> IsAnnexJson(js[i])
    ensures var m := AnnexFold(root, start, js, false, store, fs);
            forall q :: q in start.recs && !Names(root, js, q) ==> m.recs[q] == start.recs[q]
  {
    AnnexFoldWithoutMarking(root, start, js, store, fs);
    MentionedNames(root, js);
  }

  /** Merging probe-shaped records keeps every record probeable. */
  lemma {:induction false} AnnexFoldKeepsProbeable(root: Path, start: PathMap, js: seq<Record>, store: Path, fs: FileSystem)
    requires start.Valid() && AllProbeable(start)
    requires forall i :: 0 <= i < |js| ==> IsAnnexJson(js[i]) && ProbeShaped(js[i])
    ensures AllProbeable(AnnexFold(root, start, js, false, store, fs))
    decreases |js|
  {
    if |js| > 0 {
      var init := js[..|js| - 1];
      AnnexFoldKeepsProbeable(root, start, init, store, fs);
      var prev := AnnexFold(root, start, init, false, store, fs);
      assert AnnexFold(root, start, js, false, store, fs) == AnnexStep(root, prev, js[|js| - 1], false, store, fs);
      MergeKeepsAllProbeable(root, prev, js[|js| - 1]);
    }
  }

  /** `get_content_annexinfo(init=..., ref=..., eval_availability=...)` given
      the JSON records git-annex printed. `init` is `None` for an empty start;
      for 'git' the caller passes the content info. */
  function GetContentAnnexInfo(
    root: Path, init: Option<PathMap>, js: seq<Record>, eval: bool, store: Path, fs: FileSystem): (m: PathMap)
    requires init.Some? ==> init.value.Valid()
    requires forall i :: 0 <= i < |js| ==> IsAnnexJson(js[i])
    requires eval ==> (init.Some? ==> AllProbeable(init.value)) && forall i :: 0 <= i < |js| ==> ProbeShaped(js[i])
    ensures m.Valid()
    ensures forall q :: q in m.recs <==> (init.Some? && q in init.value.recs) || Names(root, js, q)
    ensures eval && |js| > 0 ==> AllMarked(m)
    ensures eval && |js| == 0 ==> m == (if init.Some? then init.value else EMPTY)
  {
    AnnexFold(root, if init.Some? then init.value else EMPTY, js, eval, store, fs)
  }

  /** The fields the availability probe adds or drops. */
  const PROBE_FIELDS: set<string> := {HAS_CONTENT, OBJLOC, HASHDIRMIXED, HASHDIRLOWER}

  /** A record without the fields the availability probe manages. */
  function OffProbe(r: Record): Record
  {
    r - PROBE_FIELDS
  }

  /** Two maps with the same entries in the same order, whose records agree
      on every field the probe does not manage. */
  ghost predicate SameOffProbe(a: PathMap, b: PathMap)
  {
    && a.paths == b.paths
    && a.recs.Keys == b.recs.Keys
    && forall q :: q in a.recs ==> OffProbe(a.recs[q]) == OffProbe(b.recs[q])
  }

  lemma MarkRecordOffProbe(store: Path, fs: FileSystem, r: Record)
    requires Probeable(r)
    ensures OffProbe(MarkRecord(store, fs, r)) == OffProbe(r)
  {
    var m := MarkRecord(store, fs, r);
    assert forall k :: k in OffProbe(m) <==> k in OffProbe(r);
  }

  lemma UpdateOffProbe(a: Record, b: Record, fields: Record)
    requires OffProbe(a) == OffProbe(b)
    ensures OffProbe(a + fields) == OffProbe(b + fields)
  {
    assert forall k :: k !in PROBE_FIELDS ==> (k in a <==> k in OffProbe(a)) && (k in b <==> k in OffProbe(b));
    assert forall k :: k in OffProbe(a + fields) <==> k in OffProbe(b + fields);
  }

  lemma MergeSameOffProbe(a: PathMap, b: PathMap, u: Update)
    requires a.Valid() && b.Valid() && SameOffProbe(a, b)
    ensures SameOffProbe(Merge(a, u), Merge(b, u))
  {
    var ma := Merge(a, u);
    var mb := Merge(b, u);
    assert ma.paths == mb.paths;
    assert ma.recs.Keys == a.recs.Keys + {u.path} == mb.recs.Keys;
    forall q | q in ma.recs
      ensures OffProbe(ma.recs[q]) == OffProbe(mb.recs[q])
    {
      if q == u.path {
        UpdateOffProbe(if q in a.recs then a.recs[q] else map[], if q in b.recs then b.recs[q] else map[], u.fields);
      }
    }
  }

  lemma MarkAllOffProbe(store: Path, fs: FileSystem, m: PathMap)
    requires m.Valid() && AllProbeable(m)
    ensures SameOffProbe(MarkAll(store, fs, m), m)
  {
    forall q | q in m.recs
      ensures OffProbe(MarkAll(store, fs, m).recs[q]) == OffProbe(m.recs[q])
    {
      MarkRecordOffProbe(store, fs, m.recs[q]);
    }
  }

  /** Marking availability inside the loop changes nothing but the probe's
      own fields: the order of the entries and every other field are those
      of the loop without marking. */
  lemma {:induction false} AnnexFoldMarksOnlyProbeFields(root: Path, start: PathMap, js: seq<Record>, store: Path, fs: FileSystem)
    requires start.Valid() && AllProbeable(start)
    requires forall i :: 0 <= i < |js| ==> IsAnnexJson(js[i]) && ProbeShaped(js[i])
    ensures SameOffProbe(AnnexFold(root, start, js, true, store, fs), AnnexFold(root, start, js, false, store, fs))
    decreases |js|
  {
    if |js| > 0 {
      var init := js[..|js| - 1];
      var j := js[|js| - 1];
      AnnexFoldMarksOnlyProbeFields(root, start, init, store, fs);
      var prevE := AnnexFold(root, start, init, true, store, fs);
      var prevP := AnnexFold(root, start, init, false, store, fs);
      var u := UpdateOf(root, j);
      var mergedE := Merge(prevE, u);
      MergeSameOffProbe(prevE, prevP, u);
      MergeKeepsAllProbeable(root, prevE, j);
      MarkAllOffProbe(store, fs, mergedE);
      assert AnnexFold(root, start, js, true, store, fs) == MarkAll(store, fs, mergedE);
    }
  }

  /** `get_content_annexinfo` with `eval_availability` differs from the call
      without it only in the fields the probe manages. */
  lemma GetContentAnnexInfoMarksOnlyProbeFields(
    root: Path, init: Option<PathMap>, js: seq<Record>, store: Path, fs: FileSystem)
    requires init.Some? ==> init.value.Valid() && AllProbeable(init.value)
    requires forall i :: 0 <= i < |js| ==> IsAnnexJson(js[i]) && ProbeShaped(js[i])
    ensures SameOffProbe(GetContentAnnexInfo(root, init, js, true, store, fs), GetContentAnnexInfo(root, init, js, false, store, fs))
  {
    AnnexFoldMarksOnlyProbeFields(root, if init.Some? then init.value else EMPTY, js, store, fs);
  }

  lemma JoinInjective(root: Path, a: string, b: string)
    requires Join(root, a) == Join(root, b)
    ensures a == b
  {
    assert a == Join(root, a)[|root| + 1..];
    assert b == Join(root, b)[|root| + 1..];
  }

  // ---------------------------------------------------------------------
  // annexstatus

  /** The updates a status makes, in its order. */
  function StatusUpdates(status: PathMap): (ups: seq<Update>)
    requires status.Valid()
    ensures |ups| == |status.paths|
    ensures forall i :: 0 <= i < |ups| ==> ups[i] == Update(status.paths[i], status.recs[status.paths[i]])
    ensures forall q :: Mentioned(ups, q) <==> q in status.recs
  {
    var ups := seq(|status.paths|, i requires 0 <= i < |status.paths| => Update(status.paths[i], status.recs[status.paths[i]]));
    forall q | q in status.recs
      ensures Mentioned(ups, q)
    {
      var i :| 0 <= i < |status.paths| && status.paths[i] == q;
      assert ups[i].path == q;
    }
    ups
  }

  /** The overlay loop of `annexstatus`: every status record updates the
      annex record of its path, so status fields win. */
  function Overlay(info: PathMap, status: PathMap): (m: PathMap)
    requires info.Valid() && status.Valid()
    ensures m.Valid()
    ensures forall q :: q in m.recs <==> q in info.recs || q in status.recs
    ensures forall q :: q in info.recs && q !in status.recs ==> m.recs[q] == info.recs[q]
    ensures forall q :: q in status.recs ==>
              m.recs[q] == (if q in info.recs then info.recs[q] else map[]) + status.recs[q]
  {
    var ups := StatusUpdates(status);
    var m := MergeAll(info, ups);
    forall q | q in status.recs
      ensures m.recs[q] == (if q in info.recs then info.recs[q] else map[]) + status.recs[q]
    {
      var i :| 0 <= i < |status.paths| && status.paths[i] == q;
      forall j | 0 <= j < |ups| && j != i
        ensures ups[j].path != ups[i].path
      {
        assert ups[j].path == status.paths[j];
      }
      MergeAllSingle(info, ups, i);
    }
    m
  }

  /** `annexstatus(paths)`: the worktree annex records merged onto the `HEAD`
      annex records merged onto the `HEAD` content info, availability marked,
      then the status overlaid. */
  function AnnexStatus(
    root: Path, store: Path, fs: FileSystem, headInfo: PathMap,
    headJs: seq<Record>, worktreeJs: seq<Record>, status: PathMap): (m: PathMap)
    requires headInfo.Valid() && AllProbeable(headInfo) && status.Valid()
    requires forall i :: 0 <= i < |headJs| ==> IsAnnexJson(headJs[i]) && ProbeShaped(headJs[i])
    requires forall i :: 0 <= i < |worktreeJs| ==> IsAnnexJson(worktreeJs[i]) && ProbeShaped(worktreeJs[i])
    ensures m.Valid()
    ensures forall q :: q in m.recs <==>
              q in headInfo.recs || Names(root, headJs, q) || Names(root, worktreeJs, q) || q in status.recs
    // status fields override annex fields
    ensures forall q :: q in status.recs ==>
              forall k :: k in status.recs[q] ==> k in m.recs[q] && m.recs[q][k] == status.recs[q][k]
    // entries the status does not mention are annex records with availability marked
    ensures forall q :: q in m.recs && q !in status.recs && KEY in m.recs[q] ==> HAS_CONTENT in m.recs[q]
  {
    var head := GetContentAnnexInfo(root, Some(headInfo), headJs, false, store, fs);
    AnnexFoldKeepsProbeable(root, headInfo, headJs, store, fs);
    var info := GetContentAnnexInfo(root, Some(head), worktreeJs, false, store, fs);
    AnnexFoldKeepsProbeable(root, head, worktreeJs, store, fs);
    Overlay(MarkAll(store, fs, info), status)
  }

  // ---------------------------------------------------------------------
  // _save_add

  /** Where `_save_add` sends the files. */
  datatype AddCall =
    | GitAdd(files: seq<Path>)                          // git add --update
    | AnnexAdd(files: seq<Path>, options: seq<string>)  // git annex add with options

  /** `if update and not git`: `update` needs `git` to be true. */
  predicate UpdateWithoutGit(git: Option<bool>, update: bool)
  {
    update && git != Some(true)
  }

  /** The options `git annex add` receives: the caller's, then the
      largefiles configuration when `git` is given. */
  function AnnexOptions(git: Option<bool>, options: Option<seq<string>>): seq<string>
  {
    var given := if options.Some? then options.value else [];
    match git
    case None => given
    case Some(g) =>
      given + ["-c", "annex.largefiles=" + (if g then "nothing" else "anything")]
      + (if g then ["--include-dotfiles"] else [])
  }

  /** `_save_add(files, git, options, update)` up to the command it runs, as
      written: the `git add --update` route names `git_options`, which is not
      defined anywhere in scope, so it can only fail. */
  function SaveAddAsWritten(files: seq<Path>, git: Option<bool>, update: bool, options: Option<seq<string>>): (res: Result<AddCall, Error>)
    ensures res.Failure? <==> update
    ensures res.Success? ==> res == Success(AnnexAdd(files, AnnexOptions(git, options)))
  {
    if UpdateWithoutGit(git, update) then Failure(UpdateRequiresGit)
    else if git == Some(true) && update then Failure(UndefinedName("git_options"))
    else Success(AnnexAdd(files, AnnexOptions(git, options)))
  }

  /** `_save_add` with the `git add --update` route working as its comment
      says: `git` together with `update` stages the changes with Git. */
  function SaveAdd(files: seq<Path>, git: Option<bool>, update: bool, options: Option<seq<string>>): (res: Result<AddCall, Error>)
    ensures res.Failure? <==> update && git != Some(true)
    ensures res.Failure? ==> res.error == UpdateRequiresGit
    ensures res.Success? ==> res.value.files == files
    ensures res.Success? ==> (res.value.GitAdd? <==> update)
    // what git-annex is told: the caller's options first, unchanged
    ensures res.Success? && res.value.AnnexAdd? ==>
              var given := if options.Some? then options.value else [];
              && |given| <= |res.value.options|
              && res.value.options[..|given|] == given
    // then the largefiles rule: `true` sends everything to Git, dotfiles included,
    // `false` everything to the annex, no `git` leaves it to git-annex
    ensures res.Success? && res.value.AnnexAdd? ==>
              var given := if options.Some? then options.value else [];
              && (git.None? ==> res.value.options == given)
              && (git == Some(true) ==>
                    res.value.options[|given|..] == ["-c", "annex.largefiles=nothing", "--include-dotfiles"])
              && (git == Some(false) ==>
                    res.value.options[|given|..] == ["-c", "annex.largefiles=anything"])
  {
    if UpdateWithoutGit(git, update) then Failure(UpdateRequiresGit)
    else if git == Some(true) && update then Success(GitAdd(files))
    else
      var opts := AnnexOptions(git, options);
      var given := if options.Some? then options.value else [];
      assert "annex.largefiles=" + "nothing" == "annex.largefiles=nothing";
      assert "annex.largefiles=" + "anything" == "annex.largefiles=anything";
      assert opts[..|given|] == given;
      Success(AnnexAdd(files, opts))
  }

  /** The two agree on every call that does not ask for `update`, and the
      written version fails on every call the corrected one sends to Git. */
  lemma SaveAddUpdateRouteFails(files: seq<Path>, git: Option<bool>, update: bool, options: Option<seq<string>>)
    ensures !update ==> SaveAddAsWritten(files, git, update, options) == SaveAdd(files, git, update, options)
    ensures git == Some(true) && update ==>
              && SaveAdd(files, git, update, options) == Success(GitAdd(files))
              && SaveAddAsWritten(files, git, update, options) == Failure(UndefinedName("git_options"))
  {
  }
}
