/** The shared vocabulary of the model: paths, the dictionary-shaped records
    that every component passes around, the insertion-ordered path map that
    stands for the source's `OrderedDict`, and the filesystem facts the
    components consult. */
module Records {
  import opened Wrappers

  /** An absolute path inside a dataset tree, as a POSIX string. */
  type Path = string

  /** `pathobj.joinpath(rel)` for a relative POSIX path. */
  function Join(root: Path, rel: string): Path
  {
    root + "/" + rel
  }

  /** A value stored in a record field: Python's `str`, `None`, `bool` or `int`. */
  datatype Value = Str(s: string) | Null | Bool(b: bool) | Int(i: int)

  /** A property dictionary, as produced by the listings and the status engine.
      A field that is absent differs from one that is present with `Null`. */
  type Record = map<string, Value>

  /** Python truthiness of a field value. */
  predicate Truthy(v: Value)
  {
    match v
    case Str(s) => s != ""
    case Null => false
    case Bool(b) => b
    case Int(i) => i != 0
  }

  /** `bool(r.get(name, None))`. */
  predicate FieldTruthy(r: Record, name: string)
  {
    name in r && Truthy(r[name])
  }

  /** `r.get(name, None) == v` for a non-`None` value `v`. */
  predicate FieldIs(r: Record, name: string, v: Value)
  {
    name in r && r[name] == v
  }

  /** `r[name]` exists and is a string. */
  predicate IsStr(r: Record, name: string)
  {
    name in r && r[name].Str?
  }

  // Field names shared by the listings, the status records and the annex records.
  const TYPE := "type"
  const GITSHASUM := "gitshasum"
  const STATE := "state"
  const KEY := "key"
  const BYTESIZE := "bytesize"
  const PATH := "path"

  // The logical content types.
  const FILE := "file"
  const SYMLINK := "symlink"
  const DATASET := "dataset"
  const DIRECTORY := "directory"

  predicate IsType(r: Record, t: string)
  {
    FieldIs(r, TYPE, Str(t))
  }

  /** The per-path state the status engine computes. */
  datatype State = Added | Untracked | Clean | Modified | Deleted {
    function Label(): string
    {
      match this
      case Added => "added"
      case Untracked => "untracked"
      case Clean => "clean"
      case Modified => "modified"
      case Deleted => "deleted"
    }
  }

  predicate HasState(r: Record, s: State)
  {
    FieldIs(r, STATE, Str(s.Label()))
  }

  /** No two states share a label: already their first letters differ. */
  lemma LabelsDiffer(s: State, t: State)
    requires s != t
    ensures s.Label() != t.Label()
  {
    assert s.Label()[0] != t.Label()[0];
  }

  /** `ignore_submodules`: the source compares only with 'all' and 'other'; any other
      value behaves like 'no'. */
  datatype IgnoreSubmodules = No | Other | All

  function ParseIgnoreSubmodules(s: string): IgnoreSubmodules
  {
    if s == "all" then All else if s == "other" then Other else No
  }

  /** The error conditions the modelled code raises. */
  datatype Error =
    | UnknownUntrackedMode(value: string)   // ValueError in get_content_info
    | NoStatusProps(path: Path)             // indexing props=None in diffstatus
    | UpdateRequiresGit                     // InsufficientArgumentsError in _save_add
    | UndefinedName(name: string)           // NameError: a name used but never bound
    | MissingField(name: string)            // KeyError on a record
    | NoCommits                             // IndexError on an empty commit list
    | NotUnderDataset(path: Path)           // ValueError from Path.relative_to

  ghost predicate Distinct(ps: seq<Path>)
  {
    forall i, j :: 0 <= i < j < |ps| ==> ps[i] != ps[j]
  }

  /** An insertion-ordered mapping from path to record: `paths` is the
      iteration order, `recs` the content. */
  datatype PathMap = PathMap(paths: seq<Path>, recs: map<Path, Record>) {

    ghost predicate Valid()
    {
      && Distinct(paths)
      && (forall p :: p in recs <==> p in paths)
    }

    /** `d[p] = r`: a new key goes last, an existing key keeps its place. */
    function Put(p: Path, r: Record): (m: PathMap)
      requires Valid()
      ensures m.Valid()
      ensures m.recs == recs[p := r]
      ensures p in recs ==> m.paths == paths
      ensures p !in recs ==> m.paths == paths + [p]
    {
      if p in recs then PathMap(paths, recs[p := r])
      else PathMap(paths + [p], recs[p := r])
    }

    /** `{k: v for k, v in d.items() if keep(k, v)}`, keeping the order. */
    function Filter(keep: (Path, Record) -> bool): (m: PathMap)
      requires Valid()
      ensures m.Valid()
      ensures forall p :: p in m.recs <==> p in recs && keep(p, recs[p])
      ensures forall p :: p in m.recs ==> m.recs[p] == recs[p]
      ensures Subsequence(m.paths, paths)
    {
      var ps := Select(paths, p => p in recs && keep(p, recs[p]));
      PathMap(ps, map p | p in recs && keep(p, recs[p]) :: recs[p])
    }
  }

  const EMPTY: PathMap := PathMap([], map[])

  /** `xs` is obtained from `ys` by dropping elements. */
  ghost predicate Subsequence(xs: seq<Path>, ys: seq<Path>)
    decreases |ys|
  {
    if |xs| == 0 then true
    else if |ys| == 0 then false
    else if xs[0] == ys[0] then Subsequence(xs[1..], ys[1..])
    else Subsequence(xs, ys[1..])
  }

  /** `[p for p in ps if keep(p)]`. */
  function Select(ps: seq<Path>, keep: Path -> bool): (qs: seq<Path>)
    ensures forall p :: p in qs <==> p in ps && keep(p)
    ensures Distinct(ps) ==> Distinct(qs)
    ensures Subsequence(qs, ps)
    ensures |qs| <= |ps|
  {
    if |ps| == 0 then []
    else
      var rest := Select(ps[1..], keep);
      assert forall i :: 1 <= i < |ps| ==> ps[i] == ps[1..][i - 1];
      if keep(ps[0]) then [ps[0]] + rest else rest
  }

  /** Facts about the filesystem that the components query; each stands for
      one of `Path.exists`, `Path.is_symlink`, `Path.is_dir` and
      `os.path.realpath`. */
  datatype FileSystem = FileSystem(
    existing: set<Path>,
    symlinks: set<Path>,
    dirs: set<Path>,
    links: map<Path, Path>)
  {
    predicate Exists(p: Path) { p in existing }

    predicate IsSymlink(p: Path) { p in symlinks }

    predicate IsDir(p: Path) { p in dirs }

    /** `os.path.realpath`: a path without a recorded resolution resolves to itself. */
    function RealPath(p: Path): Path
    {
      if p in links then links[p] else p
    }
  }
}
