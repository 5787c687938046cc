/** The string builders of DataLad's core metadata extractor: file keys,
    the commit-derived version, authors and dates, the URL a sibling is
    published under, the `hasPart` listing, the `distribution` list, and
    the per-file records whose sizes add up to the dataset's size.
    Repository queries (`git log`, configuration, `repo_info`, file sizes,
    dataset identifiers) come in as values. */
module Metadata {
  import opened Wrappers
  import opened Records
  import Text

  /** `'{}'.format(v)`: Python's rendering of a field value. */
  function PyStr(v: Value): string
  {
    match v
    case Str(s) => s
    case Null => "None"
    case Bool(b) => if b then "True" else "False"
    case Int(i) => Text.IntString(i)
  }

  // ---------------------------------------------------------------------
  // _get_file_key

  /** How a Git blob is named in the style of a git-annex key. */
  const GITSHA_KEY_PREFIX := "SHA1-s"
  const KEY_SEPARATOR := "--"

  /** `_get_file_key(rec)`: the annex key verbatim, else a key made of the
      size and the Git shasum. A field the fallback needs but the record
      lacks is a `KeyError`, `bytesize` first. */
  function FileKey(rec: Record): (k: Result<Value, Error>)
    ensures KEY in rec ==> k == Success(rec[KEY])
    ensures KEY !in rec && BYTESIZE !in rec ==> k == Failure(MissingField(BYTESIZE))
    ensures KEY !in rec && BYTESIZE in rec && GITSHASUM !in rec ==> k == Failure(MissingField(GITSHASUM))
    ensures KEY !in rec && BYTESIZE in rec && GITSHASUM in rec ==>
              && k.Success? && k.value.Str?
              && Text.StartsWith(k.value.s, GITSHA_KEY_PREFIX)
              && |k.value.s| == |GITSHA_KEY_PREFIX| + |PyStr(rec[BYTESIZE])| + 2 + |PyStr(rec[GITSHASUM])|
  {
    if KEY in rec then Success(rec[KEY])
    else if BYTESIZE !in rec then Failure(MissingField(BYTESIZE))
    else if GITSHASUM !in rec then Failure(MissingField(GITSHASUM))
    else
      var s := GITSHA_KEY_PREFIX + PyStr(rec[BYTESIZE]) + KEY_SEPARATOR + PyStr(rec[GITSHASUM]);
      assert s[..|GITSHA_KEY_PREFIX|] == GITSHA_KEY_PREFIX;
      Success(Str(s))
  }

  /** The length of the run of decimal digits a string starts with. */
  function DigitRun(s: string): (n: nat)
    ensures n <= |s|
  {
    if |s| == 0 || !('0' <= s[0] <= '9') then 0 else 1 + DigitRun(s[1..])
  }

  /** A digit string followed by a non-digit ends its digit run. */
  lemma {:induction false} DigitRunOf(digits: string, rest: string)
    requires Text.IsDigits(digits) && |rest| > 0 && !('0' <= rest[0] <= '9')
    ensures DigitRun(digits + rest) == |digits|
    decreases |digits|
  {
    if |digits| > 0 {
      assert (digits + rest)[1..] == digits[1..] + rest;
      DigitRunOf(digits[1..], rest);
    } else {
      assert digits + rest == rest;
    }
  }

  /** A digit string followed by a separator is split uniquely. */
  lemma DigitsThenSeparator(d1: string, r1: string, d2: string, r2: string)
    requires Text.IsDigits(d1) && Text.IsDigits(d2)
    requires |r1| > 0 && |r2| > 0 && r1[0] == '-' && r2[0] == '-'
    requires d1 + r1 == d2 + r2
    ensures d1 == d2 && r1 == r2
  {
    DigitRunOf(d1, r1);
    DigitRunOf(d2, r2);
    assert d1 == (d1 + r1)[..|d1|];
    assert d2 == (d2 + r2)[..|d2|];
    assert r1 == (d1 + r1)[|d1|..];
    assert r2 == (d2 + r2)[|d2|..];
  }

  /** After its prefix, a generated key is the size's digits, the separator and the shasum. */
  lemma GeneratedKeyTail(a: Record)
    requires KEY !in a && GITSHASUM in a
    requires BYTESIZE in a && a[BYTESIZE].Int? && a[BYTESIZE].i >= 0
    ensures FileKey(a).Success? && FileKey(a).value.Str?
    ensures var k := FileKey(a).value.s;
            |GITSHA_KEY_PREFIX| <= |k|
            && k[|GITSHA_KEY_PREFIX|..] == Text.NatString(a[BYTESIZE].i) + (KEY_SEPARATOR + PyStr(a[GITSHASUM]))
  {
    var d := Text.NatString(a[BYTESIZE].i);
    var r := KEY_SEPARATOR + PyStr(a[GITSHASUM]);
    var k := GITSHA_KEY_PREFIX + PyStr(a[BYTESIZE]) + KEY_SEPARATOR + PyStr(a[GITSHASUM]);
    assert FileKey(a) == Success(Str(k));
    assert k == GITSHA_KEY_PREFIX + (d + r);
  }

  /** For a record without an annex key and with a non-negative integer
      size, the generated key determines the size and the shasum: the size
      is the digit run after the prefix, and the separator cannot occur in
      it. */
  lemma FileKeyDeterminesSizeAndSha(a: Record, b: Record)
    requires KEY !in a && KEY !in b && GITSHASUM in a && GITSHASUM in b
    requires BYTESIZE in a && a[BYTESIZE].Int? && a[BYTESIZE].i >= 0
    requires BYTESIZE in b && b[BYTESIZE].Int? && b[BYTESIZE].i >= 0
    requires FileKey(a) == FileKey(b)
    ensures a[BYTESIZE] == b[BYTESIZE]
    ensures PyStr(a[GITSHASUM]) == PyStr(b[GITSHASUM])
  {
    GeneratedKeyTail(a);
    GeneratedKeyTail(b);
    var ra := KEY_SEPARATOR + PyStr(a[GITSHASUM]);
    var rb := KEY_SEPARATOR + PyStr(b[GITSHASUM]);
    DigitsThenSeparator(Text.NatString(a[BYTESIZE].i), ra, Text.NatString(b[BYTESIZE].i), rb);
    Text.NatStringInjective(a[BYTESIZE].i, b[BYTESIZE].i);
    assert PyStr(a[GITSHASUM]) == ra[2..] && PyStr(b[GITSHASUM]) == rb[2..];
  }

  // ---------------------------------------------------------------------
  // _get_commit_info

  /** One line of `git log --pretty=format:%aN%x00%aE%x00%aI%x00%H`, split
      at the NULs, newest first. */
  datatype LogEntry = LogEntry(name: string, email: string, date: string, sha: string)

  /** The configuration switches `_get_commit_info` and `_get_dsmeta` consult. */
  datatype Switches = Switches(reportAuthors: bool, reportDates: bool, reportRemotes: bool)

  datatype CommitMeta = CommitMeta(
    version: string,
    refcommit: string,
    authors: Option<seq<string>>,
    dateCreated: Option<string>,
    dateModified: Option<string>)

  /** `'{} <{}>'.format(name, email)`. */
  function AuthorString(c: LogEntry): string
  {
    c.name + " <" + c.email + ">"
  }

  /** The author strings of a history, in history order, duplicates kept. */
  function AuthorStrings(commits: seq<LogEntry>): (xs: seq<string>)
    ensures |xs| == |commits|
    ensures forall i :: 0 <= i < |commits| ==> xs[i] == AuthorString(commits[i])
  {
    seq(|commits|, i requires 0 <= i < |commits| => AuthorString(commits[i]))
  }

  /** `'0-{}-g{}'.format(len(commits), commits[0][:7])`: a version in the
      style of `git describe` for a dataset without tags. The count between
      the dashes reads back as the number of commits, and the tail is the
      newest commit's abbreviated shasum. */
  function Version(commits: seq<LogEntry>): (v: string)
    requires |commits| > 0
    ensures var h := Text.Take(commits[0].sha, 7);
            && |h| <= 7 && h == commits[0].sha[..|h|]
            && |v| > 4 + |h|
            && v[..2] == "0-"
            && v[|v| - |h| - 2..] == "-g" + h
            && Text.IsDigits(v[2..|v| - |h| - 2])
            && Text.ParseNat(v[2..|v| - |h| - 2]) == |commits|
  {
    var count := Text.NatString(|commits|);
    var h := Text.Take(commits[0].sha, 7);
    var v := "0-" + count + "-g" + h;
    assert v[2..|v| - |h| - 2] == count;
    assert v[|v| - |h| - 2..] == "-g" + h;
    Text.ParseNatString(|commits|);
    v
  }

  /** `sorted(set(authors))`: every author of the history, once, in order. */
  function Authors(commits: seq<LogEntry>): (authors: seq<string>)
    ensures Text.StrictlySorted(authors)
    ensures forall a :: a in authors <==> exists c :: c in commits && AuthorString(c) == a
  {
    var xs := AuthorStrings(commits);
    var authors := Text.SortedSet(xs);
    assert forall a :: a in authors <==> exists c :: c in commits && AuthorString(c) == a by {
      forall a | a in authors
        ensures exists c :: c in commits && AuthorString(c) == a
      {
        var i :| 0 <= i < |xs| && xs[i] == a;
        assert commits[i] in commits;
      }
      forall c | c in commits
        ensures AuthorString(c) in authors
      {
        var i :| 0 <= i < |commits| && commits[i] == c;
        assert xs[i] == AuthorString(c);
      }
    }
    authors
  }

  /** The author list depends on who committed, not on the order or the
      number of their commits. */
  lemma AuthorsIgnoreOrder(c1: seq<LogEntry>, c2: seq<LogEntry>)
    requires forall c :: c in c1 <==> c in c2
    ensures Authors(c1) == Authors(c2)
  {
    Text.StrictlySortedUnique(Authors(c1), Authors(c2));
  }

  /** `_get_commit_info` for the history up to `refcommit`, newest commit
      first. An empty history has no newest commit to name the version
      after. */
  function CommitInfo(refcommit: string, commits: seq<LogEntry>, sw: Switches): (res: Result<CommitMeta, Error>)
    ensures res.Failure? <==> |commits| == 0
    ensures res.Failure? ==> res.error == NoCommits
    ensures res.Success? ==> res.value.refcommit == refcommit && res.value.version == Version(commits)
    ensures res.Success? ==> res.value.authors == if sw.reportAuthors then Some(Authors(commits)) else None
    // created by the oldest commit, modified by the newest
    ensures res.Success? ==>
              && (res.value.dateCreated.Some? <==> sw.reportDates)
              && (res.value.dateModified.Some? <==> sw.reportDates)
    ensures res.Success? && sw.reportDates ==>
              && res.value.dateCreated == Some(commits[|commits| - 1].date)
              && res.value.dateModified == Some(commits[0].date)
  {
    if |commits| == 0 then Failure(NoCommits)
    else
      Success(CommitMeta(
        Version(commits), refcommit,
        if sw.reportAuthors then Some(Authors(commits)) else None,
        if sw.reportDates then Some(commits[|commits| - 1].date) else None,
        if sw.reportDates then Some(commits[0].date) else None))
  }

  // ---------------------------------------------------------------------
  // ri2url

  /** The resource identifiers `datalad.support.network.RI` distinguishes. */
  datatype RI =
    | Url(text: string)                                                     // URL; `as_str()` is `text`
    | SshRI(username: string, hostname: string, port: string, path: string)
    | PathRI(path: string)
    | OtherRI                                                               // any other kind

  /** `os.path.isabs` on POSIX. */
  predicate IsAbs(p: string)
  {
    |p| > 0 && p[0] == '/'
  }

  /** The path part of an SSH URL: absolute paths are kept, `~`-paths are
      rooted, anything else is taken relative to the home directory. */
  function SshPath(p: string): (q: string)
    ensures |q| > 0 && q[0] == '/'
    ensures IsAbs(p) ==> q == p
    ensures !IsAbs(p) && Text.StartsWith(p, "~") ==> q == "/" + p
    ensures !IsAbs(p) && !Text.StartsWith(p, "~") ==> q == "/~/" + p
  {
    if IsAbs(p) then p else if Text.StartsWith(p, "~") then "/" + p else "/~/" + p
  }

  /** `user@host:port`, each separator present only with what it separates. */
  function SshAuthority(user: string, host: string, port: string): string
  {
    user + (if user != "" then "@" else "") + host + (if port != "" then ":" else "") + port
  }

  /** `ri2url(ri)`: URLs are kept, SSH locations become `ssh://` URLs Git
      understands, local paths and anything else have no URL. */
  function Ri2Url(ri: RI): (url: Option<string>)
    ensures url.Some? <==> ri.Url? || ri.SshRI?
    ensures ri.Url? ==> url == Some(ri.text)
    ensures ri.SshRI? ==> url == Some("ssh://" + SshAuthority(ri.username, ri.hostname, ri.port) + SshPath(ri.path))
  {
    match ri
    case Url(t) => Some(t)
    case SshRI(user, host, port, path) => Some("ssh://" + SshAuthority(user, host, port) + SshPath(path))
    case PathRI(_) => None
    case OtherRI => None
  }

  /** When the parts carry no separators of their own, an SSH URL shows `@`
      exactly when there is a user name and `:` exactly when there is a
      port, and the path starts at its first `/` after `ssh://`. */
  lemma SshUrlSeparators(user: string, host: string, port: string, path: string)
    requires '@' !in user && '@' !in host && '@' !in port
    requires ':' !in user && ':' !in host && ':' !in port
    requires '/' !in user && '/' !in host && '/' !in port
    ensures var auth := SshAuthority(user, host, port);
            var url := Ri2Url(SshRI(user, host, port, path)).value;
            && url == "ssh://" + auth + SshPath(path)
            && ('@' in auth <==> user != "")
            && (':' in auth <==> port != "")
            && '/' !in auth
  {
    var at: string := if user != "" then "@" else "";
    var colon: string := if port != "" then ":" else "";
    var auth := SshAuthority(user, host, port);
    assert auth == user + at + host + colon + port;
    assert forall c :: c in auth <==> c in user || c in at || c in host || c in colon || c in port;
  }

  // ---------------------------------------------------------------------
  // hasPart

  /** `Path(p).relative_to(root).as_posix()`. */
  function RelativeTo(root: Path, p: Path): (r: Result<string, Error>)
    ensures r.Failure? <==> p != root && !Text.StartsWith(p, root + "/")
    ensures r.Failure? ==> r.error == NotUnderDataset(p)
    ensures p == root ==> r == Success(".")
  {
    if p == root then Success(".")
    else if Text.StartsWith(p, root + "/") then Success(p[|root| + 1..])
    else Failure(NotUnderDataset(p))
  }

  /** Relativising a path joined onto the root gives back the relative path. */
  lemma RelativeToJoin(root: Path, rel: string)
    ensures RelativeTo(root, Join(root, rel)) == Success(rel)
  {
    var p := Join(root, rel);
    assert p[..|root + "/"|] == root + "/";
    assert p[|root| + 1..] == rel;
  }

  /** A status entry as `ds.status` reports it: with a path and a type. */
  predicate IsEntry(e: Record)
  {
    IsStr(e, PATH) && IsStr(e, TYPE)
  }

  /** `e['path']` of an entry. */
  function PathOf(e: Record): Path
  {
    if IsStr(e, PATH) then e[PATH].s else ""
  }

  const DATASET_PART := "Dataset"
  const DOCUMENT_PART := "DigitalDocument"

  /** One element of `hasPart`. */
  datatype Part = Part(kind: string, name: string, identifier: Value)

  /** Whether `_get_dsmeta` lists an entry: every entry when only the
      dataset is processed, otherwise only subdatasets. */
  predicate Listed(processType: string, e: Record)
  {
    processType == "dataset" || IsType(e, DATASET)
  }

  /** The `hasPart` element of one entry. `ids` answers, for a path, whether
      it is a valid repository and with which dataset id. */
  function PartOf(root: Path, e: Record, ids: Path -> Option<Value>): (r: Result<Part, Error>)
    ensures r.Success? ==> (r.value.kind == DATASET_PART <==> IsType(e, DATASET))
    ensures r.Success? ==> RelativeTo(root, PathOf(e)) == Success(r.value.name)
    ensures r.Success? && IsType(e, FILE) ==> FileKey(e) == Success(r.value.identifier)
    ensures r.Success? && !IsType(e, FILE) ==>
              r.value.identifier == (if ids(PathOf(e)).Some? then ids(PathOf(e)).value else Null)
    ensures r.Failure? <==> RelativeTo(root, PathOf(e)).Failure? || (IsType(e, FILE) && FileKey(e).Failure?)
  {
    var kind := if IsType(e, DATASET) then DATASET_PART else DOCUMENT_PART;
    var name :- RelativeTo(root, PathOf(e));
    var id :- if IsType(e, FILE) then FileKey(e)
              else Success(if ids(PathOf(e)).Some? then ids(PathOf(e)).value else Null);
    Success(Part(kind, name, id))
  }

  function CountDatasets(status: seq<Record>): nat
  {
    if |status| == 0 then 0
    else (if IsType(status[0], DATASET) then 1 else 0) + CountDatasets(status[1..])
  }

  /** Some entry that would be listed has no `hasPart` element. */
  ghost predicate SomeListedFails(root: Path, status: seq<Record>, processType: string, ids: Path -> Option<Value>)
  {
    exists i :: 0 <= i < |status| && Listed(processType, status[i]) && PartOf(root, status[i], ids).Failure?
  }

  /** The `parts` list of `_get_dsmeta`, in status order. */
  function HasPart(root: Path, status: seq<Record>, processType: string, ids: Path -> Option<Value>): (res: Result<seq<Part>, Error>)
    requires forall i :: 0 <= i < |status| ==> IsEntry(status[i])
    ensures res.Failure? <==> SomeListedFails(root, status, processType, ids)
    // processing only the dataset lists every entry, files included
    ensures res.Success? && processType == "dataset" ==> |res.value| == |status|
    // otherwise the list holds the subdatasets and nothing else
    ensures res.Success? && processType != "dataset" ==>
              |res.value| == CountDatasets(status) && forall k :: 0 <= k < |res.value| ==> res.value[k].kind == DATASET_PART
    decreases |status|
  {
    if |status| == 0 then Success([])
    else
      var e := status[0];
      var tail := status[1..];
      ListedFailureShift(root, status, processType, ids);
      if !Listed(processType, e) then HasPart(root, tail, processType, ids)
      else
        var p :- PartOf(root, e, ids);
        var rest :- HasPart(root, tail, processType, ids);
        Success([p] + rest)
  }

  /** Some listed entry fails exactly when the first one fails or a later one does. */
  lemma ListedFailureShift(root: Path, status: seq<Record>, processType: string, ids: Path -> Option<Value>)
    requires |status| > 0
    ensures SomeListedFails(root, status, processType, ids)
            <==> (Listed(processType, status[0]) && PartOf(root, status[0], ids).Failure?)
                 || SomeListedFails(root, status[1..], processType, ids)
  {
    var tail := status[1..];
    if SomeListedFails(root, status, processType, ids) {
      var i :| 0 <= i < |status| && Listed(processType, status[i]) && PartOf(root, status[i], ids).Failure?;
      if i > 0 {
        assert tail[i - 1] == status[i];
      }
    }
    if SomeListedFails(root, tail, processType, ids) {
      var i :| 0 <= i < |tail| && Listed(processType, tail[i]) && PartOf(root, tail[i], ids).Failure?;
      assert status[i + 1] == tail[i];
    }
  }

  /** `part` is the `hasPart` element of some listed entry of the status. */
  ghost predicate DescribesListed(root: Path, status: seq<Record>, processType: string, ids: Path -> Option<Value>, part: Part)
  {
    exists i :: 0 <= i < |status| && Listed(processType, status[i]) && PartOf(root, status[i], ids) == Success(part)
  }

  /** Every element of `hasPart` describes a listed entry of the status. */
  lemma {:induction false} HasPartDescribesListed(root: Path, status: seq<Record>, processType: string, ids: Path -> Option<Value>)
    requires forall i :: 0 <= i < |status| ==> IsEntry(status[i])
    requires HasPart(root, status, processType, ids).Success?
    ensures var parts := HasPart(root, status, processType, ids).value;
            forall k :: 0 <= k < |parts| ==> DescribesListed(root, status, processType, ids, parts[k])
    decreases |status|
  {
    if |status| > 0 {
      var tail := status[1..];
      HasPartDescribesListed(root, tail, processType, ids);
      var parts := HasPart(root, status, processType, ids).value;
      var rest := HasPart(root, tail, processType, ids).value;
      var n := HasPartCons(root, status, processType, ids);
      forall k | 0 <= k < |parts|
        ensures DescribesListed(root, status, processType, ids, parts[k])
      {
        if k < n {
          assert PartOf(root, status[0], ids) == Success(parts[0]);
        } else {
          assert parts[k] == rest[k - n];
          DescribesListedTail(root, status, processType, ids, rest[k - n]);
        }
      }
    } else {
      assert HasPart(root, status, processType, ids) == Success([]);
    }
  }
  /** `HasPart` of a non-empty status: the first entry's element, if the
      entry is listed, then the elements of the rest; `n` counts the first. */
  lemma HasPartCons(root: Path, status: seq<Record>, processType: string, ids: Path -> Option<Value>) returns (n: nat)
    requires forall i :: 0 <= i < |status| ==> IsEntry(status[i])
    requires |status| > 0 && HasPart(root, status, processType, ids).Success?
    ensures HasPart(root, status[1..], processType, ids).Success?
    ensures n == (if Listed(processType, status[0]) then 1 else 0)
    ensures Listed(processType, status[0]) ==> PartOf(root, status[0], ids).Success?
    ensures HasPart(root, status, processType, ids).value ==
              (if n == 1 then [PartOf(root, status[0], ids).value] else []) + HasPart(root, status[1..], processType, ids).value
  {
    n := if Listed(processType, status[0]) then 1 else 0;
    ListedFailureShift(root, status, processType, ids);
  }

  lemma DescribesListedTail(root: Path, status: seq<Record>, processType: string, ids: Path -> Option<Value>, part: Part)
    requires |status| > 0 && DescribesListed(root, status[1..], processType, ids, part)
    ensures DescribesListed(root, status, processType, ids, part)
  {
    var tail := status[1..];
    var i :| 0 <= i < |tail| && Listed(processType, tail[i]) && PartOf(root, tail[i], ids) == Success(part);
    assert status[i + 1] == tail[i];
  }

  /** Every listed entry of the status has its `hasPart` element in the list. */
  lemma {:induction false} HasPartListsEveryListed(root: Path, status: seq<Record>, processType: string, ids: Path -> Option<Value>)
    requires forall i :: 0 <= i < |status| ==> IsEntry(status[i])
    requires HasPart(root, status, processType, ids).Success?
    ensures var parts := HasPart(root, status, processType, ids).value;
            forall i :: 0 <= i < |status| && Listed(processType, status[i]) ==>
              PartOf(root, status[i], ids).Success? && PartOf(root, status[i], ids).value in parts
    decreases |status|
  {
    if |status| > 0 {
      var tail := status[1..];
      ListedFailureShift(root, status, processType, ids);
      HasPartListsEveryListed(root, tail, processType, ids);
      var parts := HasPart(root, status, processType, ids).value;
      var rest := HasPart(root, tail, processType, ids).value;
      assert forall x :: x in rest ==> x in parts by {
        if Listed(processType, status[0]) {
          assert parts == [PartOf(root, status[0], ids).value] + rest;
        } else {
          assert parts == rest;
        }
      }
      forall i | 1 <= i < |status| && Listed(processType, status[i])
        ensures PartOf(root, status[i], ids).Success? && PartOf(root, status[i], ids).value in parts
      {
        assert status[i] == tail[i - 1];
      }
    }
  }

  // ---------------------------------------------------------------------
  // distribution

  /** A configured Git remote: its name, its `remote.<name>.url` ("" when
      unset), how that URL parses, and its `annex-uuid` if configured. */
  datatype Remote = Remote(name: string, url: string, ri: RI, annexUuid: Option<string>)

  /** A repository `git annex info` lists, with its `here` flag. */
  datatype AnnexRemote = AnnexRemote(uuid: string, here: bool)

  /** An element of `distribution`. */
  datatype Distribution = Distribution(name: Option<string>, url: Option<string>, identifier: Option<string>)

  /** The repositories every annex knows about: the web and bittorrent special remotes. */
  const RESERVED_UUIDS: set<string> := {"00000000-0000-0000-0000-000000000001", "00000000-0000-0000-0000-000000000002"}

  /** The URL a remote is published under, if it has a usable one. */
  function RemoteUrl(r: Remote): (u: Option<string>)
    ensures u.Some? ==> u.value != "" && r.url != "" && Ri2Url(r.ri) == u
    ensures u.None? <==> r.url == "" || Ri2Url(r.ri).None? || Ri2Url(r.ri) == Some("")
  {
    if r.url == "" then None
    else match Ri2Url(r.ri)
      case None => None
      case Some(u) => if u == "" then None else Some(u)
  }

  /** How many of the remotes have a usable URL. */
  function UsableCount(remotes: seq<Remote>): (n: nat)
    ensures n <= |remotes|
  {
    if |remotes| == 0 then 0
    else (if RemoteUrl(remotes[0]).Some? then 1 else 0) + UsableCount(remotes[1..])
  }

  /** The loop over configured remotes: one distribution per remote with a
      usable URL. */
  function RemoteDistributions(remotes: seq<Remote>): (ds: seq<Distribution>)
    ensures |ds| == UsableCount(remotes)
    ensures forall d :: d in ds ==>
              exists r :: r in remotes && RemoteUrl(r).Some? && d == Distribution(Some(r.name), RemoteUrl(r), r.annexUuid)
    ensures forall r :: r in remotes && RemoteUrl(r).Some? ==>
              Distribution(Some(r.name), RemoteUrl(r), r.annexUuid) in ds
  {
    if |remotes| == 0 then []
    else
      var rest := RemoteDistributions(remotes[1..]);
      var r := remotes[0];
      assert forall x :: x in remotes[1..] ==> x in remotes;
      assert forall x :: x in remotes ==> x == r || x in remotes[1..];
      if RemoteUrl(r).Some? then [Distribution(Some(r.name), RemoteUrl(r), r.annexUuid)] + rest else rest
  }

  /** `known_uuids`: the annex UUIDs of remotes that made it into the list. */
  function KnownUuids(remotes: seq<Remote>): (known: set<string>)
    ensures forall u :: u in known <==> exists r :: r in remotes && RemoteUrl(r).Some? && r.annexUuid == Some(u)
  {
    set r | r in remotes && RemoteUrl(r).Some? && r.annexUuid.Some? :: r.annexUuid.value
  }

  /** The loop over the repositories git-annex knows. */
  function AnnexDistributions(repos: seq<AnnexRemote>, known: set<string>): (ds: seq<Distribution>)
    ensures |ds| <= |repos|
    ensures forall d :: d in ds <==> exists a :: a in repos && !a.here && a.uuid !in RESERVED_UUIDS && a.uuid !in known
                                        && d == Distribution(None, None, Some(a.uuid))
  {
    if |repos| == 0 then []
    else
      var rest := AnnexDistributions(repos[1..], known);
      var a := repos[0];
      assert forall x :: x in repos[1..] ==> x in repos;
      assert forall x :: x in repos ==> x == a || x in repos[1..];
      if a.here || a.uuid in RESERVED_UUIDS || a.uuid in known then rest
      else [Distribution(None, None, Some(a.uuid))] + rest
  }

  /** The `distribution` list: remotes with a URL, then annex repositories
      that are neither here, nor reserved, nor already known. `annex` is
      the trusted, semitrusted and untrusted lists of `repo_info` joined in
      that order, or `None` for a plain Git repository. */
  function Distributions(remotes: seq<Remote>, annex: Option<seq<AnnexRemote>>): (ds: seq<Distribution>)
    // a UUID reached through a configured remote is never added a second time
    ensures forall d :: d in ds && d.name.None? ==>
              d.identifier.Some? && d.identifier.value !in KnownUuids(remotes)
              && d.identifier.value !in RESERVED_UUIDS
    ensures forall d :: d in ds && d.name.Some? ==> d in RemoteDistributions(remotes)
    // no remote with a usable URL is dropped
    ensures forall r :: r in remotes && RemoteUrl(r).Some? ==> Distribution(Some(r.name), RemoteUrl(r), r.annexUuid) in ds
    // unnamed entries come from annex repositories other than this one
    ensures forall d :: d in ds && d.name.None? ==>
              annex.Some? && exists a :: a in annex.value && !a.here && d == Distribution(None, None, Some(a.uuid))
    ensures annex.Some? ==> ds == RemoteDistributions(remotes) + AnnexDistributions(annex.value, KnownUuids(remotes))
    ensures annex.Some? ==>
              forall a :: (a in annex.value && !a.here && a.uuid !in RESERVED_UUIDS && a.uuid !in KnownUuids(remotes))
                ==> Distribution(None, None, Some(a.uuid)) in ds
    ensures annex.None? ==> ds == RemoteDistributions(remotes)
  {
    var fromRemotes := RemoteDistributions(remotes);
    if annex.None? then fromRemotes
    else
      var fromAnnex := AnnexDistributions(annex.value, KnownUuids(remotes));
      assert forall d :: d in fromRemotes ==> d.name.Some?;
      fromRemotes + fromAnnex
  }

  // ---------------------------------------------------------------------
  // _get_contentmeta and the dataset size

  /** One content record: the file and its metadata. */
  datatype FileMeta = FileMeta(path: Path, identifier: Value, size: Value)

  /** `contentbytesize`: the recorded size, else the size on disk. */
  function SizeOf(e: Record, getsize: Path -> int): Value
    requires IsEntry(e)
  {
    if BYTESIZE in e then e[BYTESIZE] else Int(getsize(PathOf(e)))
  }

  /** `_get_contentmeta(status)` with `_describe_file` for each record:
      one record per entry that is not a subdataset, in status order. */
  function ContentMeta(status: seq<Record>, getsize: Path -> int): (res: Result<seq<FileMeta>, Error>)
    requires forall i :: 0 <= i < |status| ==> IsEntry(status[i])
    ensures res.Failure? <==> exists i :: 0 <= i < |status| && !IsType(status[i], DATASET) && FileKey(status[i]).Failure?
    ensures res.Success? ==> |res.value| + CountDatasets(status) == |status|
    ensures res.Success? ==> forall m :: m in res.value <==>
              exists i :: 0 <= i < |status| && !IsType(status[i], DATASET)
                && m == FileMeta(PathOf(status[i]), FileKey(status[i]).value, SizeOf(status[i], getsize))
    decreases |status|
  {
    if |status| == 0 then Success([])
    else
      var e := status[0];
      var tail := status[1..];
      assert forall i :: 0 <= i < |tail| ==> tail[i] == status[i + 1];
      assert forall i :: 0 <= i < |status| ==> i == 0 || status[i] == tail[i - 1];
      if IsType(e, DATASET) then ContentMeta(tail, getsize)
      else
        var id :- FileKey(e);
        var rest :- ContentMeta(tail, getsize);
        Success([FileMeta(PathOf(e), id, SizeOf(e, getsize))] + rest)
  }

  /** The sizes of the records, all integers. */
  ghost predicate IntegerSizes(metas: seq<FileMeta>)
  {
    forall k :: 0 <= k < |metas| ==> metas[k].size.Int?
  }

  /** `total_content_bytesize`, accumulated over the content records. */
  function TotalSize(metas: seq<FileMeta>): int
    requires IntegerSizes(metas)
  {
    if |metas| == 0 then 0 else TotalSize(metas[..|metas| - 1]) + metas[|metas| - 1].size.i
  }

  /** The sum of the sizes of the entries that are not subdatasets, taken
      over the status directly. */
  function StatusSize(status: seq<Record>, getsize: Path -> int): int
    requires forall i :: 0 <= i < |status| ==> IsEntry(status[i])
    requires forall i :: 0 <= i < |status| ==> SizeOf(status[i], getsize).Int?
  {
    if |status| == 0 then 0
    else (if IsType(status[0], DATASET) then 0 else SizeOf(status[0], getsize).i) + StatusSize(status[1..], getsize)
  }

  lemma {:induction false} TotalSizeCons(m: FileMeta, rest: seq<FileMeta>)
    requires m.size.Int? && IntegerSizes(rest)
    ensures IntegerSizes([m] + rest)
    ensures TotalSize([m] + rest) == m.size.i + TotalSize(rest)
    decreases |rest|
  {
    var all := [m] + rest;
    if |rest| > 0 {
      assert all[..|all| - 1] == [m] + rest[..|rest| - 1];
      TotalSizeCons(m, rest[..|rest| - 1]);
    }
  }

  /** The dataset size accumulated over the content records is the sum of
      the sizes of the files in the status. */
  lemma {:induction false} TotalSizeIsStatusSize(status: seq<Record>, getsize: Path -> int)
    requires forall i :: 0 <= i < |status| ==> IsEntry(status[i])
    requires forall i :: 0 <= i < |status| ==> SizeOf(status[i], getsize).Int?
    requires ContentMeta(status, getsize).Success?
    ensures IntegerSizes(ContentMeta(status, getsize).value)
    ensures TotalSize(ContentMeta(status, getsize).value) == StatusSize(status, getsize)
    decreases |status|
  {
    if |status| > 0 {
      var tail := status[1..];
      assert forall i :: 0 <= i < |tail| ==> tail[i] == status[i + 1];
      TotalSizeIsStatusSize(tail, getsize);
      if !IsType(status[0], DATASET) {
        var metas := ContentMeta(status, getsize).value;
        var m := FileMeta(PathOf(status[0]), FileKey(status[0]).value, SizeOf(status[0], getsize));
        assert metas == [m] + ContentMeta(tail, getsize).value;
        TotalSizeCons(m, ContentMeta(tail, getsize).value);
      }
    }
  }

  // ---------------------------------------------------------------------
  // The extractor

  /** The dataset-level metadata. */
  datatype DatasetMeta = DatasetMeta(
    identifier: Value,
    commit: CommitMeta,
    hasPart: Option<seq<Part>>,
    distribution: Option<seq<Distribution>>,
    contentbytesize: Option<int>)

  /** What one extraction reports: the content records (none unless the
      content is processed) and the dataset record (if the dataset is). */
  datatype Extraction = Extraction(content: seq<FileMeta>, dataset: Option<DatasetMeta>)

  /** The repository facts the extractor consults. */
  datatype Sources = Sources(
    root: Path,
    datasetId: Value,                 // ds.id
    refcommit: string,                // the last commit touching the content
    commits: seq<LogEntry>,           // git log up to it, newest first
    ids: Path -> Option<Value>,       // valid repositories and their dataset ids
    getsize: Path -> int,             // op.getsize
    remotes: seq<Remote>,
    annex: Option<seq<AnnexRemote>>)  // repo_info of an annex repository

  predicate ProcessesContent(processType: string)
  {
    processType == "all" || processType == "content"
  }

  predicate ProcessesDataset(processType: string)
  {
    processType == "all" || processType == "dataset"
  }

  /** `_get_dsmeta`. */
  function DsMeta(src: Sources, status: seq<Record>, processType: string, sw: Switches): (res: Result<DatasetMeta, Error>)
    requires forall i :: 0 <= i < |status| ==> IsEntry(status[i])
    // fails exactly when the commit record or the `hasPart` list cannot be built
    ensures res.Failure? <==>
              CommitInfo(src.refcommit, src.commits, sw).Failure? || HasPart(src.root, status, processType, src.ids).Failure?
    ensures res.Success? ==> res.value.contentbytesize.None?
    ensures res.Success? ==> res.value.identifier == src.datasetId
    ensures res.Success? ==> CommitInfo(src.refcommit, src.commits, sw) == Success(res.value.commit)
    // `hasPart` and `distribution` are only present when non-empty
    ensures res.Success? ==> (res.value.hasPart.Some? ==> |res.value.hasPart.value| > 0)
    ensures res.Success? ==> (res.value.hasPart.None? <==> HasPart(src.root, status, processType, src.ids) == Success([]))
    ensures res.Success? && res.value.hasPart.Some? ==>
              HasPart(src.root, status, processType, src.ids) == Success(res.value.hasPart.value)
    ensures res.Success? ==> (res.value.distribution.Some? ==> sw.reportRemotes && |res.value.distribution.value| > 0)
    ensures res.Success? && sw.reportRemotes ==>
              var ds := Distributions(src.remotes, src.annex);
              res.value.distribution == if |ds| > 0 then Some(ds) else None
  {
    var commit :- CommitInfo(src.refcommit, src.commits, sw);
    var parts :- HasPart(src.root, status, processType, src.ids);
    var dists := if sw.reportRemotes then Distributions(src.remotes, src.annex) else [];
    Success(DatasetMeta(
      src.datasetId, commit,
      if |parts| > 0 then Some(parts) else None,
      if |dists| > 0 then Some(dists) else None,
      None))
  }

  /** The extractor's `__call__`: content records, then the dataset record
      with the content size attached when it is not zero. */
  function Extract(src: Sources, status: seq<Record>, processType: string, sw: Switches): (res: Result<Extraction, Error>)
    requires forall i :: 0 <= i < |status| ==> IsEntry(status[i])
    // only the content loop adds the sizes up
    requires ProcessesContent(processType) ==> forall i :: 0 <= i < |status| ==> SizeOf(status[i], src.getsize).Int?
    ensures res.Failure? <==>
              || (ProcessesContent(processType) && ContentMeta(status, src.getsize).Failure?)
              || (ProcessesDataset(processType) && DsMeta(src, status, processType, sw).Failure?)
    // the content records are those of `_get_contentmeta`, and none unless the content is processed
    ensures res.Success? ==>
              res.value.content == if ProcessesContent(processType) then ContentMeta(status, src.getsize).value else []
    ensures res.Success? ==> (res.value.dataset.Some? <==> ProcessesDataset(processType))
    // the dataset record is that of `_get_dsmeta` apart from the size
    ensures res.Success? && res.value.dataset.Some? ==>
              res.value.dataset.value.(contentbytesize := None) == DsMeta(src, status, processType, sw).value
    // the size is attached exactly when the content was processed and adds up to non-zero
    ensures res.Success? && res.value.dataset.Some? ==>
              var total := if ProcessesContent(processType) then StatusSize(status, src.getsize) else 0;
              res.value.dataset.value.contentbytesize == if total != 0 then Some(total) else None
  {
    var content :- if ProcessesContent(processType) then ContentMeta(status, src.getsize) else Success([]);
    assert IntegerSizes(content) && TotalSize(content) == (if ProcessesContent(processType) then StatusSize(status, src.getsize) else 0) by {
      if ProcessesContent(processType) {
        TotalSizeIsStatusSize(status, src.getsize);
      }
    }
    var total := TotalSize(content);
    if !ProcessesDataset(processType) then Success(Extraction(content, None))
    else
      var meta :- DsMeta(src, status, processType, sw);
      Success(Extraction(content, Some(meta.(contentbytesize := if total != 0 then Some(total) else None))))
  }

  /** Processing only the dataset never reports a content size: the
      content loop that accumulates it does not run, so whatever the
      records' sizes, the run succeeds exactly when `_get_dsmeta` does. */
  lemma DatasetOnlyHasNoSize(src: Sources, status: seq<Record>, sw: Switches)
    requires forall i :: 0 <= i < |status| ==> IsEntry(status[i])
    ensures Extract(src, status, "dataset", sw).Success? <==> DsMeta(src, status, "dataset", sw).Success?
    ensures Extract(src, status, "dataset", sw).Success? ==>
              && Extract(src, status, "dataset", sw).value.content == []
              && Extract(src, status, "dataset", sw).value.dataset.value.contentbytesize.None?
  {
  }
}
