# datalad-revolution status, save and core-metadata model

A Dafny model of the core of `datalad-revolution`, an extension of DataLad.
The model covers four parts:

- **Status engine of `RevolutionGitRepo`.**
  - `get_content_info` turns a `git ls-files` / `git ls-tree` listing into an ordered map from path to record.
  - `diffstatus` reconciles a `from` snapshot with the worktree or a second snapshot and assigns each path one of `added`, `untracked`, `clean`, `modified` or `deleted`.
  - Its submodule loop reports a clean subdataset as modified when its nested repository differs, recursing through a tree of nested repositories.
  - `status`, `diff` and `dirty` are thin views over `diffstatus`.
- **Save planning.**
  - `_save_pre` keeps the non-clean entries.
  - `save_` probes untracked directories for nested repositories, adds `.gitmodules` once one is registered, and splits the entries into paths to add and paths to remove.
  - `_save_post` builds the commit.
- **Annex layer of `RevolutionAnnexRepo`.**
  - `_mark_content_availability` probes the two object-store layouts.
  - `get_content_annexinfo` merges `git annex find` JSON records into the content info.
  - `annexstatus` overlays the status.
  - `_save_add` builds the `git annex add` options.
- **Core metadata extractor (`metadata/extractors/core.py`).**
  - The file key string.
  - `ri2url`.
  - Version, author and date derivation from the commit log.
  - `hasPart`.
  - Distribution collection from remotes and annex repositories.
  - Per-file content metadata and the total content byte size.

Python dictionaries are `map<string, Value>` records, so `dict.update` is map union. An `OrderedDict` keyed by path is a `PathMap`, which holds an iteration order and a map. The model treats git, git-annex, the filesystem and configuration as inputs:

- listings and JSON records are sequences;
- filesystem facts are a `FileSystem` value;
- configuration switches are a `Switches` value;
- nested repositories form a `Repo` tree.

Modules, one per file:

| module | file | covers |
|---|---|---|
| `Wrappers` | `wrappers.dfy` | `Option` and `Result` |
| `Records` | `records.dfy` | paths, records, `PathMap`, states, errors, filesystem facts |
| `Text` | `text.dfy` | string helpers: decimal rendering and parsing, ordering, sorted sets |
| `ContentInfo` | `content_info.dfy` | `get_content_info` |
| `Classification` | `classification.dfy` | the two classification loops of `diffstatus` |
| `Submodules` | `submodules.dfy` | the submodule loop |
| `DiffStatus` | `diff_status.dfy` | `diffstatus`, `status`, `diff`, `dirty` over nested repositories |
| `Annex` | `annex.dfy` | availability marking, annex record merging, `annexstatus`, `_save_add` |
| `SavePlan` | `save_plan.dfy` | `_save_pre`, `save_`, `_save_post` |
| `Metadata` | `metadata.dfy` | the core extractor |

Where the code and its written description differ, the model follows the code:

- **Probe hints.** The availability probe drops the `hashdirmixed`/`hashdirlower` hints only when it finds the content. When nothing is found, it only adds `has_content: False`.
- **Empty path list.** `get_content_info` treats an empty path list like "no paths", so it lists everything (gitrepo.py:119).
- **Deleted entries.** An entry known only to `from` is reported `deleted` whether or not it still exists on disk.
- **Untracked modes.** A `Repo` holds listings made with a known `untracked` mode. An unknown mode fails wherever a worktree is listed: at once when comparing with the worktree, and otherwise as soon as the submodule loop recurses into a nested repository.
- **Live filesystem.** `diffstatus` asks the live filesystem whether a path exists even when it compares two recorded trees, so comparing a snapshot with itself reports a path gone from disk as `deleted`. The model does the same: the classification takes the `FileSystem` value for either kind of `to` side.

## Model

| member | source | states |
|---|---|---|
| ContentInfo.TypeOfModeNamesKnownCodesOnly | datalad_revolution/gitrepo.py:88-144 | A mode code gets a logical type exactly when it is one of the four known codes. 100644 and 100755 give `file`, 120000 gives `symlink`, 160000 gives `dataset`. Any other code is kept as the type itself. |
| ContentInfo.LineRecord | datalad_revolution/gitrepo.py:133-166 | A listing line yields exactly `gitshasum` and `type`. A bare line is untracked: null shasum, type from the filesystem. A listed entry takes the shasum from the second field for the worktree and the third for a ref. A symlink resolving into the annex object store is reported as `file`. |
| ContentInfo.AnnexLinksBecomeFiles | datalad_revolution/gitrepo.py:143-157 | A 120000 entry is reported `file` exactly when its realpath contains `.git/annex/objects`. A `file` type comes only from a regular or executable mode or from such an annex link. |
| ContentInfo.Collect | datalad_revolution/gitrepo.py:130-167 | The listing loop produces a well-formed ordered map whose keys are exactly the joined paths of the non-empty lines. |
| ContentInfo.LastLineWins | datalad_revolution/gitrepo.py:167 | For a repeated path, the record of its last listing line is the one kept. |
| ContentInfo.GetContentInfo | datalad_revolution/gitrepo.py:44-179 | Fails with the unknown-`untracked` error exactly when listing the worktree with a mode other than all, normal or no. Without both paths and a ref, every listed path is reported. With both, an entry is kept exactly when it was requested or is not a dataset. Kept records are unchanged. |
| ContentInfo.UnknownModeFailsBeforeListing | datalad_revolution/gitrepo.py:104-112 | The unknown-mode error is raised before git runs: it does not depend on the listing. |
| Classification.ToSideRecord | datalad_revolution/gitrepo.py:308-342 | Per `to` entry: a path new to `to` is added if it has a shasum, untracked otherwise. An unchanged record is clean, or deleted if gone from disk. A changed record, or one modified on disk, is modified, or deleted if gone. Props stay unset exactly for an unchanged dataset under `all`. The type comes from `to`. The shasum is kept exactly for clean and added. |
| Classification.CollectProps | datalad_revolution/gitrepo.py:308-342 | The loop fails exactly when some entry's props are unset, and it names the first such path. Otherwise the status lists the `to` paths in order with their props. |
| Classification.AddVanished | datalad_revolution/gitrepo.py:344-355 | Paths known only to `from` are appended as deleted, with `from`'s type and shasum. Earlier entries and their order are kept. |
| Classification.VanishedIsDeleted | datalad_revolution/gitrepo.py:344-355 | A path known only to `from` is reported `deleted`, never `clean`. |
| Classification.ToSideProps | datalad_revolution/gitrepo.py:308-339 | One props value per `to` entry, in `to`'s order. |
| Classification.CollectPropsByPath | datalad_revolution/gitrepo.py:308-342 | The positional result of the loop, restated per path: failure iff some `to` entry has unset props. On success, the keys are those of `to` and each record is that entry's props. |
| Classification.Classify | datalad_revolution/gitrepo.py:308-355 | Both classification loops. Fails iff some `to` entry has unset props. On success, the keys are the union of both sides, the `to` paths come first in order, `to` entries are classified per entry, and `from`-only entries are deleted with the recorded shasum. |
| Submodules.SubmodulePass | datalad_revolution/gitrepo.py:360-395 | The submodule loop never adds, removes or reorders entries. |
| Submodules.UpgradeKeepsOthers | datalad_revolution/gitrepo.py:369-391 | Marking one subdataset modified changes only that record, and it does change it. |
| Submodules.SubmodulePassOnlyUpgrades | datalad_revolution/gitrepo.py:360-395 | Every entry is unchanged or is a clean subdataset whose nested repository differs, now relabelled `modified`. |
| Submodules.SubmodulePassExhaustive | datalad_revolution/gitrepo.py:360-395 | With `no`, every clean subdataset whose nested repository differs is relabelled `modified`. |
| Submodules.SubmodulePassStopsEarly | datalad_revolution/gitrepo.py:392-395 | With `other`, at most one entry changes, and one does whenever some clean subdataset differs. |
| Submodules.OtherUpgradesFirst | datalad_revolution/gitrepo.py:361-395 | With `other`, the entry relabelled `modified` is the first changed clean subdataset in status order. |
| Submodules.SubmodulePassKeepsNonCandidates | datalad_revolution/gitrepo.py:361-366 | The loop keeps the key set, and every entry that is not a clean subdataset keeps its record. |
| DiffStatus.DiffStatus | datalad_revolution/gitrepo.py:254-396 | `diffstatus` yields a well-formed ordered map and cannot fail unless the mode is `all`. |
| DiffStatus.Classified | datalad_revolution/gitrepo.py:267-355 | Classifying against the worktree, with its modified set, or against a given snapshot cannot fail outside `all`. Every clean entry carries the shasum the submodule loop compares. |
| DiffStatus.ClassifiedCarriesSha | datalad_revolution/gitrepo.py:340-355 | Clean entries of a classification carry a `gitshasum`, so the loop's `st['gitshasum']` lookup cannot fail. |
| DiffStatus.DiffStatusRefinesClassify | datalad_revolution/gitrepo.py:357-396 | With `all`, `diffstatus` is exactly the classification. Otherwise it succeeds with the same paths, and each entry is either unchanged or a changed clean subdataset relabelled `modified`. |
| DiffStatus.DiffStatusUpgradesAllChanged | datalad_revolution/gitrepo.py:360-391 | With `no`, every clean subdataset that is a valid nested repository whose HEAD or recursive status differs is reported `modified`. |
| DiffStatus.SelfComparisonIsClean | datalad_revolution/gitrepo.py:308-355 | Classifying a snapshot against itself gives exactly its paths, each `clean`, or `deleted` when gone from disk. Under `all` this is the whole of `diffstatus`. |
| DiffStatus.SelfComparisonSeesMovedSubdataset | datalad_revolution/gitrepo.py:361-373 | Counterexample to "a snapshot compared with itself is clean" outside `all`: with `no`, a clean subdataset on disk whose checked-out commit differs from the recorded one is reported `modified`. |
| DiffStatus.MovedSubdatasetIsChanged | datalad_revolution/gitrepo.py:361-373 | The classification half of `SelfComparisonSeesMovedSubdataset`: in a self-comparison, a dataset present on disk whose checked-out commit moved is a clean candidate that the loop finds changed. |
| DiffStatus.SubdatasetChanged | datalad_revolution/gitrepo.py:362-391 | An entry whose path is not a valid repository is never changed. A valid nested repository whose checked-out commit differs from the recorded one is changed. |
| DiffStatus.NestedChanged | datalad_revolution/gitrepo.py:369-391 | A nested repository whose commit moved is changed without consulting its own status. |
| DiffStatus.NestedChangedIsMovedOrDirty | datalad_revolution/gitrepo.py:369-391 | A nested repository is changed iff its commit moved or it is dirty, i.e. its own status under `other` has a non-clean entry. |
| DiffStatus.Status | datalad_revolution/gitrepo.py:181-214 | `status` with a known `untracked` mode compares the worktree listing with `HEAD`: it cannot fail outside `all`, reports exactly the paths of `HEAD` and of the worktree, and reports a `HEAD` path missing from the worktree listing as `deleted`. |
| DiffStatus.Diff | datalad_revolution/gitrepo.py:216-252 | `diff` fails iff `diffstatus` does. It keeps exactly the non-clean entries, unchanged and in their order. |
| DiffStatus.Dirty | datalad_revolution/gitrepo.py:580-585 | `dirty` holds iff the worktree status under `other` has a non-clean entry. It asks with `normal`, a known mode, so that status cannot fail. |
| DiffStatus.RecursesFromNo | datalad_revolution/gitrepo.py:361-383 | With `no`, the submodule loop recurses into a nested repository iff some clean subdataset at a valid repository still has its recorded commit. |
| DiffStatus.RecursesFromOther | datalad_revolution/gitrepo.py:361-395 | With `other`, the loop recurses iff the first clean subdataset at a valid repository still has its recorded commit; a moved one ends the loop first. |
| DiffStatus.DiffStatusUnder | datalad_revolution/gitrepo.py:254-395 | With a known `untracked` mode, `diffstatus` is `DiffStatus`. An unknown mode only adds failures: at once when `to` is the worktree (the listing raises ValueError), never under `all` between two trees, and otherwise iff the submodule loop recurses, since the recursion lists the nested worktree with the same mode. |
| DiffStatus.UnknownModeFailsInRecursion | datalad_revolution/gitrepo.py:361-395 | Between two recorded trees with an unknown mode, `diffstatus` fails with the `untracked` ValueError: under `no` iff some clean subdataset at a valid repository kept its recorded commit, under `other` iff the first such subdataset did. |
| DiffStatus.StatusUnder | datalad_revolution/gitrepo.py:181-214 | `status` with an unknown `untracked` mode fails with the ValueError of gitrepo.py:104-112; with a known one it is `Status`. |
| DiffStatus.DiffUnder | datalad_revolution/gitrepo.py:216-252 | `diff` fails iff `diffstatus` fails for the same `untracked` mode, and is otherwise `Diff`. |
| Annex.MarkRecord | datalad_revolution/annexrepo.py:33-62 | A record without a key, or already marked, is untouched. Otherwise `has_content` is true iff the mixed or the lower object path exists. The mixed path wins for `objloc`. The hints are dropped on success only. No other field changes. |
| Annex.MarkRecordIdempotent | datalad_revolution/annexrepo.py:37-39 | Marking a marked record changes nothing. |
| Annex.MarkAll | datalad_revolution/annexrepo.py:36-62 | Every record is marked and the paths and their order are kept. |
| Annex.MarkAllIdempotent | datalad_revolution/annexrepo.py:36-39 | Marking a marked map changes nothing. |
| Annex.MarkContentAvailability | datalad_revolution/annexrepo.py:33-62 | The loop over the ordered map computes the per-record marking of every entry. |
| Annex.Merge | datalad_revolution/annexrepo.py:126-129 | One JSON record updates, or creates, the entry of its path. Fields from the record override. Other entries are unchanged. |
| Annex.MergeAll | datalad_revolution/annexrepo.py:125-129 | The keys after merging are the prior keys plus every mentioned path. Unmentioned entries are unchanged. |
| Annex.MergeAllSingle | datalad_revolution/annexrepo.py:125-129 | A path mentioned once ends up as its prior record updated with that record's fields. |
| Annex.MergeAllLastWins | datalad_revolution/annexrepo.py:127-129 | For a path mentioned several times, the fields of its last record win. |
| Annex.UpdateOf | datalad_revolution/annexrepo.py:126-128 | A JSON record contributes all its fields except `file`, at the joined `file` path. |
| Annex.MentionedNames | datalad_revolution/annexrepo.py:125-129 | The paths mentioned by the updates are exactly those named by the JSON records. |
| Annex.MergeKeepsProbeable | datalad_revolution/annexrepo.py:127-128 | Merging a find record keeps a record fit for the availability probe. |
| Annex.AnnexStep | datalad_revolution/annexrepo.py:125-134 | One iteration merges the record and, with availability evaluation, marks every entry. |
| Annex.AnnexFold | datalad_revolution/annexrepo.py:125-134 | The keys are the initial ones plus the named paths. With evaluation and at least one record, all entries are marked. |
| Annex.AnnexFoldWithoutMarking | datalad_revolution/annexrepo.py:130-133 | Without evaluation, the loop is exactly the merge of all records. |
| Annex.AnnexFoldLastRecordWins | datalad_revolution/annexrepo.py:125-129 | The last record naming a path supplies all its fields to that path. |
| Annex.AnnexFoldKeepsUnnamed | datalad_revolution/annexrepo.py:125-129 | Entries no record names are unchanged. |
| Annex.AnnexFoldKeepsProbeable | datalad_revolution/annexrepo.py:125-133 | Without evaluation, records stay fit for a later probe. |
| Annex.GetContentAnnexInfo | datalad_revolution/annexrepo.py:111-135 | The keys are those of `init`, or none for `None`, plus the named paths. With evaluation and records, all are marked. With no records, `init` comes back unmarked. |
| Annex.MergeKeepsAllProbeable | datalad_revolution/annexrepo.py:127-133 | Merging a find record into a map keeps every record fit for the availability probe that follows. |
| Annex.AnnexFoldMarksOnlyProbeFields | datalad_revolution/annexrepo.py:125-134 | With availability evaluation, the loop yields the same paths in the same order, and every field other than `has_content`, `objloc` and the two hash directory hints has the value it has without evaluation. |
| Annex.GetContentAnnexInfoMarksOnlyProbeFields | datalad_revolution/annexrepo.py:111-135 | `get_content_annexinfo` with `eval_availability` differs from the call without it only in the probe's own fields. With `AnnexFoldLastRecordWins` and `AnnexFoldKeepsUnnamed`, the last record's fields win and unnamed paths keep their record, apart from those fields. |
| Annex.StatusUpdates | datalad_revolution/annexrepo.py:146-149 | The status entries as updates, in order, mentioning exactly the status paths. |
| Annex.Overlay | datalad_revolution/annexrepo.py:146-149 | Each status record is laid over the annex record of its path, with status fields winning. Other entries are unchanged. |
| Annex.AnnexStatus | datalad_revolution/annexrepo.py:137-151 | The keys are the union of HEAD info, both find outputs and the status. Status fields win. Every annexed entry the status does not mention carries `has_content`. |
| Annex.SaveAddAsWritten | datalad_revolution/annexrepo.py:154-255 | As written, any call with `update` fails. Otherwise it runs `git annex add` with the computed options. |
| Annex.SaveAdd | datalad_revolution/annexrepo.py:154-255 | Fails iff `update` is given without `git`. `git` with `update` runs `git add`. Otherwise the caller's options come first, followed by the largefiles rule for `git` true, false or unset. |
| Annex.SaveAddUpdateRouteFails | datalad_revolution/annexrepo.py:231-240 | The two agree without `update`. With `git` and `update`, the written code fails on the undefined `git_options` where the intended one runs `git add`. |
| SavePlan.SavePre | datalad_revolution/gitrepo.py:398-417 | Nothing is returned iff paths is an empty list and the given status is missing or empty. Otherwise the result is the given or computed status restricted to non-clean entries, in order and unchanged. It fails only when the computed status fails. |
| SavePlan.SavePreIdempotent | datalad_revolution/gitrepo.py:409-416 | Feeding the result back in as `_status` returns it unchanged. |
| SavePlan.SavePost | datalad_revolution/gitrepo.py:419-440 | The default message is used iff the message is missing or empty. The commit lists every status path. |
| SavePlan.Listing | datalad_revolution/gitrepo.py:118-119 | An empty path list lists the whole worktree. Otherwise only paths under a requested path are listed. |
| SavePlan.UntrackedDirs | datalad_revolution/gitrepo.py:502-504 | The probe paths are exactly the untracked directories of the status. |
| SavePlan.Directories | datalad_revolution/gitrepo.py:499-509 | The candidates are exactly the listed entries still typed `directory`, without repeats. |
| SavePlan.CandidatesAsWritten | datalad_revolution/gitrepo.py:499-509 | As written: a path is a candidate iff it is a worktree directory and either it lies under an untracked directory of the status or the status has no untracked directory at all. There are no repeats. |
| SavePlan.CandidatesAsWrittenReachOutside | datalad_revolution/gitrepo.py:499-509 | Counterexample: a status with one modified file and a worktree with an unrelated nested repository. As written, that repository is offered to `add_submodule`. The corrected probe offers nothing. |
| SavePlan.Candidates | datalad_revolution/gitrepo.py:499-509 | Corrected: a path is a candidate iff it is a worktree directory under one of the status's untracked directories. With an untracked directory in the status, this is the probe as written. |
| SavePlan.WithGitmodules | datalad_revolution/gitrepo.py:527-530 | `.gitmodules` is added as a modified file iff some candidate was registered. Other entries are unchanged. |
| SavePlan.PlanFor | datalad_revolution/gitrepo.py:510-576 | Given the candidates: `.gitmodules` joins the status as modified iff a candidate was registered. The add list holds exactly the modified and untracked entries. The remove list holds exactly the deleted entries without a shasum. Both keep status order. The commit covers the status, `.gitmodules` included, with the default message iff none was given. |
| SavePlan.PlanSave | datalad_revolution/gitrepo.py:485-576 | As written: the candidates are every worktree directory under an untracked directory of the status, or every worktree directory when there is none. The plan is `PlanFor` those candidates. |
| SavePlan.PlanSaveCorrected | datalad_revolution/gitrepo.py:485-576 | Corrected: the candidates are the worktree directories under an untracked directory of the status, and the plan is `PlanFor` those. With an untracked directory in the status it equals `PlanSave`. |
| SavePlan.PlanSaveRegistersOutside | datalad_revolution/gitrepo.py:499-530 | Counterexample, for any status without an untracked directory: a worktree directory that `add_submodule` accepts becomes a candidate as written, and `.gitmodules` joins the status as modified. The corrected plan offers no candidate and keeps the prepared status. |
| SavePlan.Save | datalad_revolution/gitrepo.py:485-491 | `save_` fails iff `_save_pre` fails. It does nothing iff nothing was requested or nothing is non-clean. Otherwise it follows `PlanSave`, the plan as written. |
| SavePlan.PlanAddsAndRemovesApart | datalad_revolution/gitrepo.py:531-565 | For any candidates, so for both plans: no path is both added and removed, and every added or removed path is committed. |
| SavePlan.AddExcludesRemove | datalad_revolution/gitrepo.py:531-565 | The add and remove selections exclude each other. |
| SavePlan.PlanCommitsChanges | datalad_revolution/gitrepo.py:527-574 | For any candidates: when there is something to save, the commit is non-empty and names only non-clean paths. |
| SavePlan.GitmodulesKeepsChanges | datalad_revolution/gitrepo.py:527-530 | Adding `.gitmodules` keeps every entry non-clean. |
| Metadata.FileKey | datalad_revolution/metadata/extractors/core.py:198-204 | The annex key is used verbatim when present. Otherwise `bytesize`, then `gitshasum`, is required (KeyError). The generated key starts with `SHA1-s` and has the length of size, `--` and shasum. |
| Metadata.GeneratedKeyTail | datalad_revolution/metadata/extractors/core.py:202-204 | After `SHA1-s`, the generated key is the decimal size, `--` and the shasum. |
| Metadata.FileKeyDeterminesSizeAndSha | datalad_revolution/metadata/extractors/core.py:202-204 | Two records without annex key and with natural sizes get the same key only if their sizes and shasums agree. |
| Metadata.Version | datalad_revolution/metadata/extractors/core.py:238-242 | The version is `0-N-gH`: N reads back as the number of commits, and H is the first seven characters of the newest shasum. |
| Metadata.Authors | datalad_revolution/metadata/extractors/core.py:248-252 | The authors are strictly sorted and contain exactly the `name <email>` of some commit. |
| Metadata.AuthorsIgnoreOrder | datalad_revolution/metadata/extractors/core.py:252 | The author list depends only on which commits there are. |
| Metadata.CommitInfo | datalad_revolution/metadata/extractors/core.py:207-260 | Fails (IndexError) iff there are no commits. It reports the refcommit and the version. Authors and dates are reported per switch: creation is the oldest commit's date, modification the newest's. |
| Metadata.SshPath | datalad_revolution/metadata/extractors/core.py:276-278 | An absolute path is kept, a `~` path gets `/` in front, and any other path gets `/~/`. The result always starts with `/`. |
| Metadata.Ri2Url | datalad_revolution/metadata/extractors/core.py:264-283 | Only URLs and SSH RIs give a URL. A URL is returned as is; an SSH RI becomes `ssh://` plus authority plus path. |
| Metadata.SshUrlSeparators | datalad_revolution/metadata/extractors/core.py:268-279 | The authority contains `@` iff there is a user and `:` iff there is a port. |
| Metadata.RelativeTo | datalad_revolution/metadata/extractors/core.py:91 | `relative_to` fails iff the path is not the root or under it. The root itself is `.`. |
| Metadata.RelativeToJoin | datalad_revolution/metadata/extractors/core.py:91 | Joining and then relativising gives back the relative path. |
| Metadata.PartOf | datalad_revolution/metadata/extractors/core.py:87-99 | A part is a `Dataset` iff its entry is a dataset. Its name is the relative path. Its identifier is the file key for files, and otherwise the nested dataset's id, or `None` when there is none. It fails iff relativising or the file key fails. |
| Metadata.HasPart | datalad_revolution/metadata/extractors/core.py:87-108 | Fails iff some listed entry fails. For `dataset` there is one part per entry. Otherwise there is one part per subdataset, each a `Dataset`. |
| Metadata.HasPartDescribesListed | datalad_revolution/metadata/extractors/core.py:87-106 | Every part is the part of some listed entry. |
| Metadata.HasPartListsEveryListed | datalad_revolution/metadata/extractors/core.py:87-106 | Every listed entry's part is in the list. With `HasPartDescribesListed` and the counts of `HasPart`, the list holds exactly the listed entries' parts. |
| Metadata.RemoteUrl | datalad_revolution/metadata/extractors/core.py:116-123 | A remote is skipped iff its URL is empty or converts to no URL or to an empty one. |
| Metadata.RemoteDistributions | datalad_revolution/metadata/extractors/core.py:116-136 | There are as many distributions as remotes with a usable URL. Each remote with a usable URL has its distribution, with its name, URL and annex UUID, and every distribution is such a remote's. |
| Metadata.KnownUuids | datalad_revolution/metadata/extractors/core.py:130-135 | The known UUIDs are exactly the annex UUIDs of remotes with a usable URL. |
| Metadata.AnnexDistributions | datalad_revolution/metadata/extractors/core.py:138-153 | Annex repositories other than `here`, the two reserved UUIDs and known UUIDs become identifier-only distributions. |
| Metadata.Distributions | datalad_revolution/metadata/extractors/core.py:109-155 | The remote distributions come first, then the annex ones, and no remote with a usable URL is dropped. Unnamed entries come from annex repositories other than `here`, with a UUID that is neither known nor reserved, and each such repository appears. Without `repo_info`, only the remotes are listed. |
| Metadata.ContentMeta | datalad_revolution/metadata/extractors/core.py:158-195 | Fails iff some non-dataset entry has no file key. Otherwise there is one report per non-dataset entry, with its path, key and size. |
| Metadata.TotalSizeIsStatusSize | datalad_revolution/metadata/extractors/core.py:49-53 | The summed `contentbytesize` of the reports equals the sum of the entries' sizes. |
| Metadata.DsMeta | datalad_revolution/metadata/extractors/core.py:80-156 | Fails iff the commit info or the `hasPart` list fails. Reports the dataset id and the commit info. `hasPart` is the `HasPart` list, present iff non-empty. `distribution` is the `Distributions` list, present iff remotes are reported and it is non-empty. |
| Metadata.Extract | datalad_revolution/metadata/extractors/core.py:37-78 | Fails iff processing content and `_get_contentmeta` fails, or processing the dataset and `_get_dsmeta` fails. The file reports are those of `ContentMeta` when processing content, and none otherwise. A dataset report is present iff processing the dataset; it is the `DsMeta` record with `contentbytesize` set to the non-zero total of the processed content, and absent otherwise. |
| Metadata.DatasetOnlyHasNoSize | datalad_revolution/metadata/extractors/core.py:50-68 | Processing only the dataset succeeds iff `_get_dsmeta` does, whatever the records' sizes, and gives no file reports and no content size. |
| Text.SortedSet | datalad_revolution/metadata/extractors/core.py:252 | `sorted(set(...))`: strictly sorted, with exactly the given elements. |

## Left out

- Running git and git-annex: `ls-files`/`ls-tree` output, `git ls-files -m`, `git annex find` JSON, `add_submodule` outcomes, the nested repositories' HEADs and the commit log are inputs. `add_`, `remove` and `commit` are not executed; the plan lists what they would receive.
- Regular-expression parsing of listing lines: a line is given already split into mode, the two shasum fields and the path, or as a bare untracked path.
- The `_cache` argument of `diffstatus`. It only avoids repeated queries, but it writes `to_state` under the `from` key (gitrepo.py:306), which a later lookup with the same key would see. The model queries afresh each time.
- The `paths` argument of `status`, `diff` and `diffstatus`: it only shapes the listings, which are inputs. A known `untracked` mode also only shapes the listings, the nested repositories' included. An unknown mode makes every worktree listing raise ValueError, including the one in the submodule loop's recursion. `DiffStatusUnder`, `StatusUnder` and `DiffUnder` model that failure, while `DiffStatus`, `Status`, `Diff` and `Dirty` take listings already made with a known mode.
- Path normalisation by `pathlib`: paths are POSIX strings joined with `/`, and listings are assumed normalised. `git ls-files -o --directory` reports an untracked directory as `dir/`, which `pathlib` shortens to `dir`. `Join` keeps the slash, so a listing holding `/ds/dir/` would never be found as the parent of its contents by `Under`.
- Logging, progress reports and the "not yet implemented" warnings of `_save_add`.
- The dry-run `git add` of `_save_add`: it only sizes the progress bar.
- The result records that `save_` yields, including error records from `add_submodule`. Registration outcomes are the input set `registered`.
- Configuration lookups: they are the `Switches` parameter and the remotes' URLs and UUIDs.
- `Dataset.id`, `is_valid_repo` and `op.getsize`: these are oracle parameters of the metadata extractor.
- The refcommit: `get_last_commit_hash` over the top-level paths is a parameter, so its `relative_to` failure is not modelled.
- The `@context` constant of the dataset metadata.
- The three `repo_info` trust categories: they are one concatenated list.
- Partial output: where the source yields some reports before a KeyError, the model fails as a whole.
- `InsufficientArgumentsError` is not imported by `annexrepo.py`, so `update` without `git` raises a NameError. The model reports it as `UpdateRequiresGit`.
- Nested repositories share the parent's filesystem facts.
- DiffStatus.DiffStatus: under `all`, an unchanged dataset leaves `props` unset and the source then fails on `props['state']`. The model reports this as `NoStatusProps` and states no more than success outside `all`.
- SavePlan.PlanSave: the order in which `save_` yields results and the `.gitmodules` position are not stated beyond "status order".
- Annex.GetContentAnnexInfo: with `eval_availability`, the values of `has_content`, `objloc` and the hash directory hints are stated per record by `MarkRecord` and as "every annexed record is marked", not for the loop as a whole. A record marked early is not probed again after a later record for its path brings a new key.
- Metadata.Extract: when content is processed, requires every reported size to be an integer. In the source, a non-integer `bytesize` then makes the total a type error, which is not modelled. Processing only the dataset takes no sum and accepts any size.
- Metadata.HasPart: requires every status entry to carry `path` and `type`, as every status record does.

## Findings

| source | as written | input that shows it | evidently intended | confidence | as-written member | corrected member |
|---|---|---|---|---|---|---|
| datalad_revolution/annexrepo.py:234-240 | the `git add --update` route passes `git_options=git_options`, but the parameter is named `git_opts` and `git_options` is never bound | `_save_add(files, git=True, update=True)` | stage the files with `git add --update` | high, not executed | Annex.SaveAddAsWritten (shown by Annex.SaveAddUpdateRouteFails) | Annex.SaveAdd |
| datalad_revolution/gitrepo.py:499-509 | the probe for nested repositories passes the list of untracked directories to `get_content_info`, which treats an empty list like no list and lists the whole worktree | a status holding one modified file `/ds/file`, with an untracked nested repository `/ds/sub` outside the saved paths that `add_submodule` accepts: it is registered and `.gitmodules` is committed | probe only inside the untracked directories, and nothing when there are none | medium, not executed | SavePlan.PlanSave (shown by SavePlan.PlanSaveRegistersOutside and SavePlan.CandidatesAsWrittenReachOutside) | SavePlan.PlanSaveCorrected |
