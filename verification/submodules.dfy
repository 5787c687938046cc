/** The submodule loop of `diffstatus`: clean subdataset entries whose
    nested repository differs from the recorded commit are reported as
    modified. Whether a nested repository differs is decided by a function
    the caller supplies, so that the loop's properties hold whatever the
    nested repositories contain. */
module Submodules {
  import opened Records

  /** A clean subdataset entry: what the submodule pass looks into. */
  predicate Candidate(status: PathMap, f: Path)
  {
    && f in status.recs
    && IsType(status.recs[f], DATASET)
    && HasState(status.recs[f], Clean)
  }

  /** Every clean record carries the shasum the submodule pass compares. */
  ghost predicate CleanCarriesSha(status: PathMap)
  {
    forall f :: f in status.recs && HasState(status.recs[f], Clean) ==> GITSHASUM in status.recs[f]
  }

  /** `any(v['state'] != 'clean' for v in rstatus.values())`. */
  predicate AnyUnclean(status: PathMap)
  {
    exists f :: f in status.recs && !HasState(status.recs[f], Clean)
  }

  function Upgrade(r: Record): Record
  {
    r[STATE := Str(Modified.Label())]
  }

  /** The submodule loop of `diffstatus` (gitrepo.py:360-395), from position
      `i`; `changed(f, recorded)` decides whether the nested repository at `f`
      differs from the recorded shasum. */
  function SubmodulePass(
    status: PathMap, i: nat, mode: IgnoreSubmodules, changed: (Path, Value) -> bool): (r: PathMap)
    requires status.Valid() && CleanCarriesSha(status)
    requires i <= |status.paths| && mode != All
    ensures r.Valid() && r.paths == status.paths
    decreases |status.paths| - i
  {
    if i == |status.paths| then status
    else
      var f := status.paths[i];
      if !Candidate(status, f) then
        SubmodulePass(status, i + 1, mode, changed)
      else
        var st := status.recs[f];
        if changed(f, st[GITSHASUM]) then
          var next := status.Put(f, Upgrade(st));
          if mode == Other then next  // one modified subdataset is all 'other' needs to know
          else SubmodulePass(next, i + 1, mode, changed)
        else
          SubmodulePass(status, i + 1, mode, changed)
  }

  /** A clean subdataset whose nested repository differs from its record. */
  predicate ChangedSubdataset(status: PathMap, changed: (Path, Value) -> bool, f: Path)
    requires CleanCarriesSha(status)
  {
    Candidate(status, f) && changed(f, status.recs[f][GITSHASUM])
  }

  /** An upgraded entry keeps its shasum. */
  lemma UpgradeCarriesSha(status: PathMap, f: Path)
    requires status.Valid() && CleanCarriesSha(status) && Candidate(status, f)
    ensures CleanCarriesSha(status.Put(f, Upgrade(status.recs[f])))
  {
    assert GITSHASUM in Upgrade(status.recs[f]);
  }

  /** Upgrading the entry at position `i` leaves the others as they were. */
  lemma UpgradeKeepsOthers(status: PathMap, i: nat)
    requires status.Valid() && CleanCarriesSha(status) && i < |status.paths|
    requires Candidate(status, status.paths[i])
    ensures var next := status.Put(status.paths[i], Upgrade(status.recs[status.paths[i]]));
            && CleanCarriesSha(next)
            && next.paths == status.paths
            && next.recs[status.paths[i]] != status.recs[status.paths[i]]
            && (forall j :: 0 <= j < |status.paths| && j != i ==>
                  next.recs[status.paths[j]] == status.recs[status.paths[j]])
            && (forall g :: g in status.recs && g != status.paths[i] ==>
                  next.recs[g] == status.recs[g] && (Candidate(next, g) <==> Candidate(status, g)))
  {
    var f := status.paths[i];
    LabelsDiffer(Modified, Clean);
    assert Upgrade(status.recs[f])[STATE] == Str(Modified.Label());
  }

  /** The submodule pass never adds or removes entries, and only turns clean
      subdatasets whose nested repository differs into modified ones. */
  lemma {:induction false} SubmodulePassOnlyUpgrades(
    status: PathMap, i: nat, mode: IgnoreSubmodules, changed: (Path, Value) -> bool)
    requires status.Valid() && CleanCarriesSha(status)
    requires i <= |status.paths| && mode != All
    ensures var r := SubmodulePass(status, i, mode, changed);
            forall f :: f in status.recs ==>
              || r.recs[f] == status.recs[f]
              || (ChangedSubdataset(status, changed, f) && r.recs[f] == Upgrade(status.recs[f]))
    decreases |status.paths| - i, 1
  {
    if i < |status.paths| {
      var r := SubmodulePass(status, i, mode, changed);
      if !ChangedSubdataset(status, changed, status.paths[i]) {
        assert r == SubmodulePass(status, i + 1, mode, changed);
        SubmodulePassOnlyUpgrades(status, i + 1, mode, changed);
      } else if mode == Other {
        // the scan stops at the first upgrade
        var f := status.paths[i];
        assert r == status.Put(f, Upgrade(status.recs[f]));
        UpgradeKeepsOthers(status, i);
      } else {
        OnlyUpgradesAfterUpgrade(status, i, changed);
      }
    } else {
      assert SubmodulePass(status, i, mode, changed) == status;
    }
  }

  /** The step of `SubmodulePassOnlyUpgrades` that upgrades position `i`
      and carries on scanning. */
  lemma {:induction false} OnlyUpgradesAfterUpgrade(
    status: PathMap, i: nat, changed: (Path, Value) -> bool)
    requires status.Valid() && CleanCarriesSha(status)
    requires i < |status.paths|
    requires ChangedSubdataset(status, changed, status.paths[i])
    ensures var r := SubmodulePass(status, i, No, changed);
            forall f :: f in status.recs ==>
              || r.recs[f] == status.recs[f]
              || (ChangedSubdataset(status, changed, f) && r.recs[f] == Upgrade(status.recs[f]))
    decreases |status.paths| - i, 0
  {
    var f := status.paths[i];
    UpgradeCarriesSha(status, f);
    var next := status.Put(f, Upgrade(status.recs[f]));
    var r := SubmodulePass(status, i, No, changed);
    assert r == SubmodulePass(next, i + 1, No, changed);
    SubmodulePassOnlyUpgrades(next, i + 1, No, changed);
    UpgradeThenOnlyUpgrades(status, f, r, changed);
  }

  /** Upgrading `f` and then only upgrading changed subdatasets only
      upgrades changed subdatasets: the upgraded `f` is no longer clean, so
      it is left as it is. */
  lemma UpgradeThenOnlyUpgrades(status: PathMap, f: Path, r: PathMap, changed: (Path, Value) -> bool)
    requires status.Valid() && CleanCarriesSha(status) && ChangedSubdataset(status, changed, f)
    requires status.recs.Keys <= r.recs.Keys
    requires var next := status.Put(f, Upgrade(status.recs[f]));
             && CleanCarriesSha(next)
             && forall g :: g in next.recs ==>
                  || r.recs[g] == next.recs[g]
                  || (ChangedSubdataset(next, changed, g) && r.recs[g] == Upgrade(next.recs[g]))
    ensures forall g :: g in status.recs ==>
              || r.recs[g] == status.recs[g]
              || (ChangedSubdataset(status, changed, g) && r.recs[g] == Upgrade(status.recs[g]))
  {
    var next := status.Put(f, Upgrade(status.recs[f]));
    LabelsDiffer(Modified, Clean);
    assert !Candidate(next, f);
    forall g | g in status.recs && g != f
      ensures ChangedSubdataset(next, changed, g) <==> ChangedSubdataset(status, changed, g)
    {
      assert next.recs[g] == status.recs[g];
    }
  }

  /** With 'no', every clean subdataset from position `i` on whose nested
      repository differs is reported modified. */
  lemma {:induction false} SubmodulePassExhaustive(
    status: PathMap, i: nat, changed: (Path, Value) -> bool)
    requires status.Valid() && CleanCarriesSha(status) && i <= |status.paths|
    ensures var r := SubmodulePass(status, i, No, changed);
            forall j :: i <= j < |status.paths| && ChangedSubdataset(status, changed, status.paths[j]) ==>
              r.recs[status.paths[j]] == Upgrade(status.recs[status.paths[j]])
    decreases |status.paths| - i, 1
  {
    if i < |status.paths| {
      if !ChangedSubdataset(status, changed, status.paths[i]) {
        assert SubmodulePass(status, i, No, changed) == SubmodulePass(status, i + 1, No, changed);
        SubmodulePassExhaustive(status, i + 1, changed);
      } else {
        ExhaustiveAfterUpgrade(status, i, changed);
      }
    }
  }

  /** The step of `SubmodulePassExhaustive` that upgrades position `i`. */
  lemma {:induction false} ExhaustiveAfterUpgrade(
    status: PathMap, i: nat, changed: (Path, Value) -> bool)
    requires status.Valid() && CleanCarriesSha(status) && i < |status.paths|
    requires ChangedSubdataset(status, changed, status.paths[i])
    ensures var r := SubmodulePass(status, i, No, changed);
            forall j :: i <= j < |status.paths| && ChangedSubdataset(status, changed, status.paths[j]) ==>
              r.recs[status.paths[j]] == Upgrade(status.recs[status.paths[j]])
    decreases |status.paths| - i, 0
  {
    var f := status.paths[i];
    UpgradeKeepsOthers(status, i);
    var next := status.Put(f, Upgrade(status.recs[f]));
    var r := SubmodulePass(status, i, No, changed);
    assert r == SubmodulePass(next, i + 1, No, changed);
    SubmodulePassExhaustive(next, i + 1, changed);
    // an upgraded entry is no longer clean, so the rest of the pass leaves it alone
    assert !Candidate(next, f);
    SubmodulePassOnlyUpgrades(next, i + 1, No, changed);
    forall j | i <= j < |status.paths| && ChangedSubdataset(status, changed, status.paths[j])
      ensures r.recs[status.paths[j]] == Upgrade(status.recs[status.paths[j]])
    {
      var g := status.paths[j];
      if j == i {
        assert r.recs[g] == next.recs[g];
      } else {
        assert g != f;
        assert next.paths[j] == g && next.recs[g] == status.recs[g];
        assert ChangedSubdataset(next, changed, g);
      }
    }
  }

  /** With 'other', the scan upgrades at most one subdataset, and it upgrades
      one whenever some clean subdataset from position `i` on differs. */
  lemma {:induction false} SubmodulePassStopsEarly(
    status: PathMap, i: nat, changed: (Path, Value) -> bool)
    requires status.Valid() && CleanCarriesSha(status) && i <= |status.paths|
    ensures var r := SubmodulePass(status, i, Other, changed);
            forall f, g :: (f in status.recs && g in status.recs
                            && r.recs[f] != status.recs[f] && r.recs[g] != status.recs[g]) ==> f == g
    ensures var r := SubmodulePass(status, i, Other, changed);
            (exists j :: i <= j < |status.paths| && ChangedSubdataset(status, changed, status.paths[j]))
            ==> exists f :: f in status.recs && r.recs[f] != status.recs[f]
    decreases |status.paths| - i
  {
    if i < |status.paths| {
      if ChangedSubdataset(status, changed, status.paths[i]) {
        UpgradeKeepsOthers(status, i);
      } else {
        SubmodulePassStopsEarly(status, i + 1, changed);
      }
    }
  }

  /** With 'other', the upgraded subdataset is the first changed one in
      status order from position `i` on. */
  lemma {:induction false} OtherUpgradesFirst(
    status: PathMap, i: nat, j: nat, changed: (Path, Value) -> bool)
    requires status.Valid() && CleanCarriesSha(status) && i <= j < |status.paths|
    requires ChangedSubdataset(status, changed, status.paths[j])
    requires forall k :: i <= k < j ==> !ChangedSubdataset(status, changed, status.paths[k])
    ensures SubmodulePass(status, i, Other, changed).recs[status.paths[j]] == Upgrade(status.recs[status.paths[j]])
    decreases j - i
  {
    var f := status.paths[i];
    if i < j {
      assert !ChangedSubdataset(status, changed, f);
      assert SubmodulePass(status, i, Other, changed) == SubmodulePass(status, i + 1, Other, changed);
      OtherUpgradesFirst(status, i + 1, j, changed);
    } else {
      var st := status.recs[f];
      assert SubmodulePass(status, i, Other, changed) == status.Put(f, Upgrade(st));
    }
  }

  /** The pass changes no entry but a clean subdataset. */
  lemma SubmodulePassKeepsNonCandidates(status: PathMap, mode: IgnoreSubmodules, changed: (Path, Value) -> bool)
    requires status.Valid() && CleanCarriesSha(status) && mode != All
    ensures var r := SubmodulePass(status, 0, mode, changed);
            && r.recs.Keys == status.recs.Keys
            && forall f :: f in status.recs && !Candidate(status, f) ==> r.recs[f] == status.recs[f]
  {
    SubmodulePassOnlyUpgrades(status, 0, mode, changed);
    var r := SubmodulePass(status, 0, mode, changed);
    assert forall f :: f in r.recs <==> f in status.recs by {
      assert r.paths == status.paths;
    }
  }
}
