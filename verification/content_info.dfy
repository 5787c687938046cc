/** `RevolutionGitRepo.get_content_info`: turning the lines of a
    `git ls-files --stage` (worktree) or `git ls-tree -r` (reference) listing
    into an insertion-ordered map from absolute path to
    `{gitshasum, type}`. */
module ContentInfo {
  import opened Wrappers
  import opened Records
  import Text

  /** One NUL-separated line of the listing, after the
      `([0-9]+) (.*) (.*)\t(.*)$` match was attempted. */
  datatype Line =
    | Entry(mode: string, field2: string, field3: string, path: string)  // the pattern matched; `mode` is all digits
    | Bare(text: string)                                                 // no match: an untracked path, or an empty line

  // The structural codes Git reports in its listings.
  const MODE_REGULAR := "100644"
  const MODE_EXECUTABLE := "100755"
  const MODE_SYMLINK := "120000"
  const MODE_GITLINK := "160000"

  /** Where the resolved target of a locked annexed file lives. */
  const ANNEX_OBJECTS := ".git/annex/objects"

  /** The untracked-reporting modes `ls-files` understands. */
  const UNTRACKED_MODES: set<string> := {"no", "normal", "all"}

  /** `not ref`: no reference, or the empty one, lists the worktree. */
  predicate ListsWorktree(ref: Option<string>)
  {
    ref.None? || ref.value == ""
  }

  /** `mode_type_map.get(code, code)`. */
  function TypeOfMode(code: string): string
  {
    if code == MODE_REGULAR || code == MODE_EXECUTABLE then FILE
    else if code == MODE_SYMLINK then SYMLINK
    else if code == MODE_GITLINK then DATASET
    else code
  }

  /** Because structural codes are digit strings, a code that is not one of the
      four known ones can never be mistaken for a type name. */
  lemma TypeOfModeNamesKnownCodesOnly(code: string)
    requires Text.IsDigits(code)
    ensures TypeOfMode(code) in {FILE, SYMLINK, DATASET}
            <==> code in {MODE_REGULAR, MODE_EXECUTABLE, MODE_SYMLINK, MODE_GITLINK}
    ensures TypeOfMode(code) == FILE <==> code in {MODE_REGULAR, MODE_EXECUTABLE}
    ensures TypeOfMode(code) == SYMLINK <==> code == MODE_SYMLINK
    ensures TypeOfMode(code) == DATASET <==> code == MODE_GITLINK
  {
    if code !in {MODE_REGULAR, MODE_EXECUTABLE, MODE_SYMLINK, MODE_GITLINK} {
      assert code != FILE by { assert !('0' <= FILE[0] <= '9'); }
      assert code != SYMLINK by { assert !('0' <= SYMLINK[0] <= '9'); }
      assert code != DATASET by { assert !('0' <= DATASET[0] <= '9'); }
    }
  }

  /** The type given to content Git does not know: from the filesystem. */
  function UntrackedType(fs: FileSystem, p: Path): string
  {
    if fs.IsSymlink(p) then SYMLINK else if fs.IsDir(p) then DIRECTORY else FILE
  }

  /** A symlink whose resolved target lies in the annex object store. */
  predicate IsAnnexLink(root: Path, fs: FileSystem, rel: string)
  {
    Text.Contains(fs.RealPath(Join(root, rel)), ANNEX_OBJECTS)
  }

  /** Empty lines (between NUL separators) are skipped. */
  predicate Skipped(line: Line)
  {
    line.Bare? && line.text == ""
  }

  function LinePath(line: Line): string
  {
    match line
    case Entry(_, _, _, p) => p
    case Bare(t) => t
  }

  /** The record one listing line contributes. */
  function LineRecord(root: Path, fs: FileSystem, line: Line, worktree: bool): (r: Record)
    requires !Skipped(line)
    ensures r.Keys == {GITSHASUM, TYPE}
    ensures line.Bare? ==> r[GITSHASUM] == Null
    ensures line.Bare? ==> r[TYPE] == Str(UntrackedType(fs, Join(root, line.text)))
    ensures line.Entry? && worktree ==> r[GITSHASUM] == Str(line.field2)
    ensures line.Entry? && !worktree ==> r[GITSHASUM] == Str(line.field3)
    ensures line.Entry? ==>
              r[TYPE] == Str(if TypeOfMode(line.mode) == SYMLINK && IsAnnexLink(root, fs, line.path)
                             then FILE else TypeOfMode(line.mode))
  {
    match line
    case Bare(t) =>
      map[GITSHASUM := Null, TYPE := Str(UntrackedType(fs, Join(root, t)))]
    case Entry(mode, f2, f3, p) =>
      var t := TypeOfMode(mode);
      // locked annexed files are reported as files, not as the symlinks they are
      var t' := if t == SYMLINK && IsAnnexLink(root, fs, p) then FILE else t;
      map[GITSHASUM := Str(if worktree then f2 else f3), TYPE := Str(t')]
  }

  /** A symlink entry is reported as `file` exactly when its target lies in
      the annex object store; no other code is ever turned into `file`. */
  lemma AnnexLinksBecomeFiles(root: Path, fs: FileSystem, line: Line, worktree: bool)
    requires line.Entry? && Text.IsDigits(line.mode)
    ensures var r := LineRecord(root, fs, line, worktree);
            line.mode == MODE_SYMLINK ==>
              (r[TYPE] == Str(FILE) <==> IsAnnexLink(root, fs, line.path))
    ensures var r := LineRecord(root, fs, line, worktree);
            r[TYPE] == Str(FILE) ==>
              line.mode in {MODE_REGULAR, MODE_EXECUTABLE}
              || (line.mode == MODE_SYMLINK && IsAnnexLink(root, fs, line.path))
  {
    TypeOfModeNamesKnownCodesOnly(line.mode);
  }

  /** The paths a listing mentions, joined onto the repository root. */
  ghost predicate Listed(root: Path, lines: seq<Line>, p: Path)
  {
    exists i :: 0 <= i < |lines| && !Skipped(lines[i]) && Join(root, LinePath(lines[i])) == p
  }

  /** The loop over the listing lines: `info[path] = inf` per line. */
  function Collect(root: Path, fs: FileSystem, lines: seq<Line>, worktree: bool): (info: PathMap)
    ensures info.Valid()
    ensures forall p :: p in info.recs <==> Listed(root, lines, p)
    decreases |lines|
  {
    if |lines| == 0 then EMPTY
    else
      var init := lines[..|lines| - 1];
      var prev := Collect(root, fs, init, worktree);
      var l := lines[|lines| - 1];
      ListedExtend(root, lines);
      if Skipped(l) then prev
      else prev.Put(Join(root, LinePath(l)), LineRecord(root, fs, l, worktree))
  }

  /** A path is listed by a listing when its last line lists it or the
      lines before do. */
  lemma ListedExtend(root: Path, lines: seq<Line>)
    requires |lines| > 0
    ensures var l := lines[|lines| - 1];
            forall p :: Listed(root, lines, p) <==>
              Listed(root, lines[..|lines| - 1], p) || (!Skipped(l) && Join(root, LinePath(l)) == p)
  {
    var init := lines[..|lines| - 1];
    forall p
      ensures Listed(root, lines, p) ==> Listed(root, init, p) || (!Skipped(lines[|lines| - 1]) && Join(root, LinePath(lines[|lines| - 1])) == p)
    {
      if Listed(root, lines, p) {
        var i :| 0 <= i < |lines| && !Skipped(lines[i]) && Join(root, LinePath(lines[i])) == p;
        if i < |init| {
          assert init[i] == lines[i];
        }
      }
    }
    forall p | Listed(root, init, p)
      ensures Listed(root, lines, p)
    {
      var i :| 0 <= i < |init| && !Skipped(init[i]) && Join(root, LinePath(init[i])) == p;
      assert lines[i] == init[i];
    }
  }

  /** When a path is listed more than once, the last line wins. */
  lemma {:induction false} LastLineWins(root: Path, fs: FileSystem, lines: seq<Line>, worktree: bool, i: nat)
    requires i < |lines| && !Skipped(lines[i])
    requires forall j :: i < j < |lines| && !Skipped(lines[j]) ==>
               Join(root, LinePath(lines[j])) != Join(root, LinePath(lines[i]))
    ensures var info := Collect(root, fs, lines, worktree);
            Join(root, LinePath(lines[i])) in info.recs
            && info.recs[Join(root, LinePath(lines[i]))] == LineRecord(root, fs, lines[i], worktree)
    decreases |lines|
  {
    var init := lines[..|lines| - 1];
    var l := lines[|lines| - 1];
    var p := Join(root, LinePath(lines[i]));
    var prev := Collect(root, fs, init, worktree);
    assert Collect(root, fs, lines, worktree)
           == if Skipped(l) then prev else prev.Put(Join(root, LinePath(l)), LineRecord(root, fs, l, worktree));
    if i < |lines| - 1 {
      assert init[i] == lines[i];
      forall j | i < j < |init| && !Skipped(init[j])
        ensures Join(root, LinePath(init[j])) != p
      {
        assert init[j] == lines[j];
      }
      LastLineWins(root, fs, init, worktree, i);
    }
  }

  /** `get_content_info(paths, ref, untracked)` given the listing Git printed
      for that query. `paths` is `None` when all content was asked for. */
  function GetContentInfo(
    root: Path, fs: FileSystem, paths: Option<seq<string>>, ref: Option<string>,
    untracked: string, listing: seq<Line>): (res: Result<PathMap, Error>)
    ensures res.Failure? <==> ListsWorktree(ref) && untracked !in UNTRACKED_MODES
    ensures res.Failure? ==> res.error == UnknownUntrackedMode(untracked)
    ensures res.Success? ==> res.value.Valid()
    // without both a path list and a reference, every listed path is reported
    ensures res.Success? && !(paths.Some? && ref.Some?) ==>
              forall p :: p in res.value.recs <==> Listed(root, listing, p)
    // with both, unrequested subdataset entries are dropped and nothing is added
    ensures res.Success? && paths.Some? && ref.Some? ==>
              var all := Collect(root, fs, listing, ListsWorktree(ref));
              forall p :: p in res.value.recs <==>
                p in all.recs && ((exists q :: q in paths.value && Join(root, q) == p)
                                  || !IsType(all.recs[p], DATASET))
    ensures res.Success? ==>
              var all := Collect(root, fs, listing, ListsWorktree(ref));
              forall p :: p in res.value.recs ==> p in all.recs && res.value.recs[p] == all.recs[p]
  {
    if ListsWorktree(ref) && untracked !in UNTRACKED_MODES then
      Failure(UnknownUntrackedMode(untracked))
    else
      var info := Collect(root, fs, listing, ListsWorktree(ref));
      if paths.Some? && ref.Some? then
        var requested := set q | q in paths.value :: Join(root, q);
        Success(info.Filter((k, v) => k in requested || !IsType(v, DATASET)))
      else
        Success(info)
  }

  /** An unknown untracked mode is rejected whatever Git would have listed:
      the error comes before any listing. */
  lemma UnknownModeFailsBeforeListing(
    root: Path, fs: FileSystem, paths: Option<seq<string>>, ref: Option<string>,
    untracked: string, l1: seq<Line>, l2: seq<Line>)
    requires GetContentInfo(root, fs, paths, ref, untracked, l1).Failure?
    ensures GetContentInfo(root, fs, paths, ref, untracked, l2)
            == GetContentInfo(root, fs, paths, ref, untracked, l1)
  {
  }
}
