/** What session construction writes into the snapshot before the first op: tier-aware
    defaults for packages and configs, and rows for orphan full-shadow units. */
module Normalize {
  import opened Types
  import opened Strings
  import opened Classify

  predicate IsInstallerReason(reason: Reason) {
    reason.PlatformPlumbing? || reason.InstallerDefault? || reason.InstallerPromotedService?
    || reason.InstallerPromotedConfig? || reason.InstallerAmbiguous? || reason.InstallerEvidenceUnavailable?
  }

  // ----- Leaf packages -----

  /** A dependency listed by some leaf that is not a leaf with a tree of its own. */
  ghost predicate IsPureDependency(tree: map<string, seq<string>>, name: string) {
    name !in tree && exists leaf :: leaf in tree && name in tree[leaf]
  }

  method CollectDepTreeNames(tree: map<string, seq<string>>) returns (deps: set<string>)
    ensures forall name :: name in deps <==> IsPureDependency(tree, name)
  {
    deps := {};
    var rest := tree.Keys;
    while rest != {}
      invariant rest <= tree.Keys
      invariant forall name :: name in deps <==> exists leaf :: leaf in tree.Keys - rest && name in tree[leaf]
      decreases rest
    {
      var leaf :| leaf in rest;
      var listed := set name | name in tree[leaf];
      deps := deps + listed;
      forall name
        ensures name in deps <==> exists l :: l in tree.Keys - (rest - {leaf}) && name in tree[l]
      {
        if name in tree[leaf] {
          assert leaf in tree.Keys - (rest - {leaf});
        }
      }
      rest := rest - {leaf};
    }
    deps := set name | name in deps && name !in tree;
  }

  /** Leaf data is available and `id` is a leaf no other leaf pulls in, or there is no leaf data. */
  ghost predicate CountsAsLeaf(facts: Facts, id: string) {
    facts.leafPackages.Some? ==> id in facts.leafPackages.value && !IsPureDependency(facts.leafDepTree, id)
  }

  // ----- Packages -----

  function TierDefault(bucket: Bucket, leaf: bool): FindingKind {
    match bucket
    case BaselineBucket => Actionable(true)
    case SiteBucket => Actionable(leaf)
    case InvestigateBucket => Actionable(false)
  }

  predicate IsPartialPrevalence(p: Package) {
    p.aggregate.Some? && p.aggregate.value.count < p.aggregate.value.total
  }

  function DefaultedPackage(p: Package, r: Refined, leaf: bool): Package {
    var tiered :=
      if IsInstallerReason(r.triage.reason) then p.(disposition := r.entry.disposition, locked := r.entry.locked)
      else p.(disposition := TierDefault(r.triage.bucket, leaf));
    if IsPartialPrevalence(p) || p.repolessAnnotation != "" then tiered.(disposition := Actionable(false)) else tiered
  }

  ghost function NormalizedPackages(snap: Snapshot): (r: seq<Package>)
    ensures |r| == |snap.packages|
  {
    seq(|snap.packages|, i requires 0 <= i < |snap.packages| =>
      var p := snap.packages[i];
      DefaultedPackage(p, Classified(snap, p), CountsAsLeaf(snap.facts, CanonicalId(p.name, p.arch))))
  }

  method NormalizePackageDefaults(snap: Snapshot, refined: seq<Refined>) returns (packages: seq<Package>)
    requires |refined| == |snap.packages|
    requires forall i :: 0 <= i < |refined| ==> refined[i] == Classified(snap, snap.packages[i])
    ensures packages == NormalizedPackages(snap)
  {
    var deps := {};
    if snap.facts.leafPackages.Some? {
      deps := CollectDepTreeNames(snap.facts.leafDepTree);
    }
    packages := snap.packages;
    for i := 0 to |packages|
      invariant |packages| == |snap.packages|
      invariant forall j :: 0 <= j < i ==> packages[j] == NormalizedPackages(snap)[j]
      invariant forall j :: i <= j < |packages| ==> packages[j] == snap.packages[j]
    {
      var p := packages[i];
      var id := CanonicalId(p.name, p.arch);
      if IsInstallerReason(refined[i].triage.reason) {
        p := p.(disposition := refined[i].entry.disposition, locked := refined[i].entry.locked);
      } else {
        var leaf := snap.facts.leafPackages.None? || (id in snap.facts.leafPackages.value && id !in deps);
        assert leaf <==> CountsAsLeaf(snap.facts, id);
        p := p.(disposition := TierDefault(refined[i].triage.bucket, leaf));
      }
      if IsPartialPrevalence(p) {
        p := p.(disposition := Actionable(false));
      }
      if p.repolessAnnotation != "" {
        p := p.(disposition := Actionable(false));
      }
      packages := packages[i := p];
    }
  }

  /** Construction leaves every package actionable, whatever the scan recorded; a repo-less or
      partially prevalent package starts excluded; and only installer plumbing gains a lock. */
  lemma NormalizedPackageFacts(snap: Snapshot, i: nat)
    requires i < |snap.packages|
    ensures var p := snap.packages[i];
            var q := NormalizedPackages(snap)[i];
            && q.disposition.Actionable?
            && q == p.(disposition := q.disposition, locked := q.locked)
            && (q.locked <==> p.locked || (p.sourceRepo == "anaconda" && IsPlumbing(p.name)))
            && (p.repolessAnnotation != "" || IsPartialPrevalence(p) ==> q.disposition == Actionable(false))
  {
    ClassifiedKeepsIdentity(snap, snap.packages[i]);
    InstallerVerdictIsActionable(MainPass(snap, snap.packages[i]), EvidenceFor(snap, snap.packages[i].name));
  }

  lemma InstallerVerdictIsActionable(r: Refined, e: Evidence)
    requires !IsInstallerReason(r.triage.reason)
    ensures IsInstallerReason(PostPass(r, e).triage.reason) ==> PostPass(r, e).entry.disposition.Actionable?
  {
  }

  // ----- Configs and repo files -----

  function LastSegmentFrom(path: string, i: nat): string
    requires i <= |path|
  {
    if i == 0 || path[i - 1] == '/' then path[i..] else LastSegmentFrom(path, i - 1)
  }

  predicate IsOwnRepoFile(path: string) {
    var file := LastSegmentFrom(path, |path|);
    StartsWith(path, "/etc/yum.repos.d/") && StartsWith(file, "_copr") && Contains(file, "inspectah")
  }

  function KindBucket(kind: ConfigKind): Bucket {
    if kind.RpmOwnedDefault? || kind.BaselineMatch? then BaselineBucket else SiteBucket
  }

  /** An unresolved redaction hint sends the first file at its path to investigation. */
  ghost function ConfigBucket(snap: Snapshot, i: nat): Bucket
    requires i < |snap.configs|
  {
    var c := snap.configs[i];
    if c.path in snap.facts.unresolvedHints && IsFirst(snap.configs, ConfigKey(c.path), i) then InvestigateBucket
    else KindBucket(c.kind)
  }

  function DefaultedConfig(c: ConfigFile, bucket: Bucket): ConfigFile {
    if IsOwnRepoFile(c.path) then c.(disposition := Actionable(false), locked := true)
    else if !c.disposition.Actionable? then c
    else c.(disposition :=
        match bucket
        case BaselineBucket => Actionable(false)
        case SiteBucket => Actionable(!c.kind.Orphaned?)
        case InvestigateBucket => Actionable(true))
  }

  ghost function NormalizedConfigs(snap: Snapshot): (r: seq<ConfigFile>)
    ensures |r| == |snap.configs|
  {
    seq(|snap.configs|, i requires 0 <= i < |snap.configs| => DefaultedConfig(snap.configs[i], ConfigBucket(snap, i)))
  }

  method ClassifyConfigs(snap: Snapshot) returns (buckets: seq<Bucket>)
    ensures |buckets| == |snap.configs|
    ensures forall i :: 0 <= i < |buckets| ==> buckets[i] == ConfigBucket(snap, i)
  {
    buckets := seq(|snap.configs|, i requires 0 <= i < |snap.configs| => KindBucket(snap.configs[i].kind));
    var hints := snap.facts.unresolvedHints;
    while hints != {}
      invariant hints <= snap.facts.unresolvedHints
      invariant |buckets| == |snap.configs|
      invariant forall i :: 0 <= i < |buckets| ==>
                  buckets[i] == if snap.configs[i].path in hints then KindBucket(snap.configs[i].kind)
                    else ConfigBucket(snap, i)
      decreases hints
    {
      var path :| path in hints;
      var hit := Find(snap.configs, ConfigKey(path));
      if hit.Some? {
        buckets := buckets[hit.value := InvestigateBucket];
      }
      forall i | 0 <= i < |buckets| && snap.configs[i].path == path
        ensures buckets[i] == ConfigBucket(snap, i)
      {
        assert ConfigKey(path)(snap.configs[i]);
        if IsFirst(snap.configs, ConfigKey(path), i) {
          assert hit.Some? && hit.value == i;
        }
      }
      hints := hints - {path};
    }
  }

  method NormalizeConfigDefaults(snap: Snapshot, buckets: seq<Bucket>) returns (configs: seq<ConfigFile>)
    requires |buckets| == |snap.configs|
    requires forall i :: 0 <= i < |buckets| ==> buckets[i] == ConfigBucket(snap, i)
    ensures configs == NormalizedConfigs(snap)
  {
    configs := snap.configs;
    for i := 0 to |configs|
      invariant |configs| == |snap.configs|
      invariant forall j :: 0 <= j < i ==> configs[j] == NormalizedConfigs(snap)[j]
      invariant forall j :: i <= j < |configs| ==> configs[j] == snap.configs[j]
    {
      var c := configs[i];
      if IsOwnRepoFile(c.path) {
        c := c.(disposition := Actionable(false), locked := true);
      } else if c.disposition.Actionable? {
        match buckets[i] {
          case BaselineBucket => c := c.(disposition := Actionable(false));
          case SiteBucket => c := c.(disposition := Actionable(!c.kind.Orphaned?));
          case InvestigateBucket => c := c.(disposition := Actionable(true));
        }
      }
      configs := configs[i := c];
    }
  }

  /** The first file at a path with an unresolved redaction hint. */
  ghost predicate IsHinted(snap: Snapshot, i: nat)
    requires i < |snap.configs|
  {
    snap.configs[i].path in snap.facts.unresolvedHints && IsFirst(snap.configs, ConfigKey(snap.configs[i].path), i)
  }

  /** Construction keeps every config's identity; it locks the tool's own repo file only, and
      excludes it; advisories and inventory come back as they were; any other file stays
      actionable and starts included exactly when it is hinted, or modified by hand, or owned by
      nothing. */
  lemma NormalizedConfigFacts(snap: Snapshot, i: nat)
    requires i < |snap.configs|
    ensures var c, d := snap.configs[i], NormalizedConfigs(snap)[i];
            && d == c.(disposition := d.disposition, locked := d.locked)
            && (d.locked <==> c.locked || IsOwnRepoFile(c.path))
            && (IsOwnRepoFile(c.path) ==> d.disposition == Actionable(false))
            && (!IsOwnRepoFile(c.path) && !c.disposition.Actionable? ==> d == c)
            && (!IsOwnRepoFile(c.path) && c.disposition.Actionable? ==>
                  d.disposition == Actionable(IsHinted(snap, i) || c.kind.RpmOwnedModified? || c.kind.Unowned?))
  {
  }

  function NormalizedRepoFiles(files: seq<RepoFile>): (r: seq<RepoFile>)
    ensures |r| == |files|
  {
    seq(|files|, i requires 0 <= i < |files| =>
      if IsOwnRepoFile(files[i].path) then files[i].(disposition := Actionable(false)) else files[i])
  }

  // ----- Orphan full-shadow units -----

  predicate HasRow(rows: seq<ServiceRow>, unit: string) {
    exists i :: 0 <= i < |rows| && rows[i].unit == unit
  }

  /** A full-shadow file whose unit has no row, and whose enable state the host knows. */
  predicate IsOrphanShadow(snap: Snapshot, d: DropIn) {
    d.fullShadow && !HasRow(snap.rows, d.unit)
      && (d.unit in snap.facts.disabledUnits || d.unit in snap.facts.enabledUnits)
  }

  function SyntheticRow(snap: Snapshot, unit: string): ServiceRow {
    var state := if unit in snap.facts.disabledUnits then UnitDisabled else UnitEnabled;
    ServiceRow(unit, state, None, None, Actionable(true), false)
  }

  function SyntheticRows(snap: Snapshot, dropIns: seq<DropIn>): seq<ServiceRow> {
    if dropIns == [] then []
    else
      var d := dropIns[|dropIns| - 1];
      var before := SyntheticRows(snap, dropIns[..|dropIns| - 1]);
      if IsOrphanShadow(snap, d) then before + [SyntheticRow(snap, d.unit)] else before
  }

  method SynthesizeOrphanShadows(snap: Snapshot) returns (rows: seq<ServiceRow>)
    ensures rows == snap.rows + SyntheticRows(snap, snap.dropIns)
  {
    var synthetics := [];
    for i := 0 to |snap.dropIns|
      invariant synthetics == SyntheticRows(snap, snap.dropIns[..i])
    {
      var d := snap.dropIns[i];
      if d.fullShadow && !HasRow(snap.rows, d.unit) {
        if d.unit in snap.facts.disabledUnits {
          synthetics := synthetics + [ServiceRow(d.unit, UnitDisabled, None, None, Actionable(true), false)];
        } else if d.unit in snap.facts.enabledUnits {
          synthetics := synthetics + [ServiceRow(d.unit, UnitEnabled, None, None, Actionable(true), false)];
        }
      }
      assert snap.dropIns[..i + 1][..i] == snap.dropIns[..i];
    }
    assert snap.dropIns[..|snap.dropIns|] == snap.dropIns;
    rows := snap.rows + synthetics;
  }

  lemma {:induction false} SyntheticRowFacts(snap: Snapshot, dropIns: seq<DropIn>)
    ensures var rows := SyntheticRows(snap, dropIns);
            && (forall r :: r in rows ==> r == SyntheticRow(snap, r.unit) && !HasRow(snap.rows, r.unit))
            && (rows != [] <==> exists d :: d in dropIns && IsOrphanShadow(snap, d))
            && (forall d :: d in dropIns && IsOrphanShadow(snap, d) ==> HasRow(rows, d.unit))
  {
    if dropIns != [] {
      var n := |dropIns| - 1;
      var before := SyntheticRows(snap, dropIns[..n]);
      var rows := SyntheticRows(snap, dropIns);
      SyntheticRowFacts(snap, dropIns[..n]);
      assert dropIns == dropIns[..n] + [dropIns[n]];
      forall d | d in dropIns && IsOrphanShadow(snap, d)
        ensures HasRow(rows, d.unit)
      {
        if d in dropIns[..n] {
          var i :| 0 <= i < |before| && before[i].unit == d.unit;
          assert rows[i].unit == d.unit;
        } else {
          assert rows[|before|].unit == d.unit;
        }
      }
    }
  }

  // ----- Construction as a whole -----

  /** The session's own snapshot: classify, write defaults, then synthesize rows. */
  ghost function Normalized(snap: Snapshot): Snapshot {
    snap.(
      packages := NormalizedPackages(snap),
      configs := NormalizedConfigs(snap),
      repoFiles := NormalizedRepoFiles(snap.repoFiles),
      rows := snap.rows + SyntheticRows(snap, snap.dropIns))
  }

  method NormalizeSnapshot(snap: Snapshot) returns (r: Snapshot)
    ensures r == Normalized(snap)
  {
    var refined := ClassifyPackages(snap);
    var buckets := ClassifyConfigs(snap);
    var packages := NormalizePackageDefaults(snap, refined);
    var configs := NormalizeConfigDefaults(snap, buckets);
    var rows := SynthesizeOrphanShadows(snap);
    r := snap.(packages := packages, configs := configs, repoFiles := NormalizedRepoFiles(snap.repoFiles),
      rows := rows);
  }

  /** What construction calls installer noise, on the scan alone: an installer-sourced package
      with a noise name that is no boot-chain plumbing, new against the baseline, whose services
      and configs are all accounted for and do not promote it. */
  ghost predicate IsInstallerNoise(snap: Snapshot, p: Package) {
    var id := CanonicalId(p.name, p.arch);
    && p.sourceRepo == "anaconda" && IsNoise(p.name) && !IsPlumbing(p.name)
    && id !in snap.facts.suppressed && !p.state.LocalInstall? && !p.state.NoRepo?
    && (snap.facts.baseline.Some? ==> !p.state.Modified? && id !in snap.facts.baseline.value)
    && HasEvidence(snap) && !EvidenceDegraded(snap)
    && !(IsUserEnabled(snap, p.name) && HasModifiedConfig(snap, p.name))
    && !(p.name in CONFIG_ONLY_PROMOTION && HasModifiedConfig(snap, p.name))
  }

  lemma InstallerNoiseIs(snap: Snapshot, p: Package)
    ensures Classified(snap, p).triage.reason == InstallerDefault <==> IsInstallerNoise(snap, p)
  {
    hide IsNoise, IsPlumbing, HasEvidence, EvidenceDegraded, IsUserEnabled, HasModifiedConfig, AllFilesCaptured;
    assert p.sourceRepo == "anaconda" ==> !IsCommandline(p.sourceRepo) by { AnacondaIsARepo(); }
  }

  lemma AnacondaIsARepo()
    ensures !IsCommandline("anaconda")
  {
    assert |Fold("anaconda")| != |"@commandline"|;
  }

  /** Rows are synthesized after defaults are chosen, and a synthesized row has no owning
      package, so the session classifies with degraded evidence that construction did not see.
      A package's triage in the session differs from the one its default was chosen by if and
      only if it is installer noise and some row was synthesized; it then needs investigation
      for want of evidence. */
  lemma SynthesisShiftsClassification(snap: Snapshot, i: nat)
    requires i < |snap.packages|
    ensures var before := Classified(snap, snap.packages[i]).triage;
            var after := Classified(Normalized(snap), Normalized(snap).packages[i]).triage;
            && (before != after <==>
                  IsInstallerNoise(snap, snap.packages[i])
                  && exists d :: d in snap.dropIns && IsOrphanShadow(snap, d))
            && (before != after ==> before == Triage(BaselineBucket, InstallerDefault)
                                    && after == Triage(InvestigateBucket, InstallerEvidenceUnavailable))
  {
    hide Classified, IsInstallerNoise, SameEvidence, IsOrphanShadow, NormalizedPackages, NormalizedConfigs;
    NormalizationKeepsEvidence(snap);
    ClassificationIsStable(Normalized(snap), WithSyntheticRows(snap), i);
    SynthesisShiftsTriage(snap, snap.packages[i]);
  }

  ghost function WithSyntheticRows(snap: Snapshot): Snapshot {
    snap.(rows := snap.rows + SyntheticRows(snap, snap.dropIns))
  }

  lemma SynthesisShiftsTriage(snap: Snapshot, p: Package)
    ensures var before, after := Classified(snap, p).triage, Classified(WithSyntheticRows(snap), p).triage;
            && (before != after <==>
                  IsInstallerNoise(snap, p) && exists d :: d in snap.dropIns && IsOrphanShadow(snap, d))
            && (before != after ==> before == Triage(BaselineBucket, InstallerDefault)
                                    && after == Triage(InvestigateBucket, InstallerEvidenceUnavailable))
  {
    var mid := WithSyntheticRows(snap);
    SynthesisEvidence(snap, p.name);
    InstallerNoiseIs(snap, p);
    assert AllFilesCaptured(mid, p.name) == AllFilesCaptured(snap, p.name);
    assert MainPass(mid, p) == MainPass(snap, p);
    MainPassReason(snap, p);
    hide MainPass, PostPass, EvidenceFor, IsInstallerNoise, IsOrphanShadow;
    PostPassDegraded(MainPass(snap, p), EvidenceFor(snap, p.name), EvidenceFor(mid, p.name));
    NoiseNeedsEvidence(snap, p);
  }

  lemma NoiseNeedsEvidence(snap: Snapshot, p: Package)
    ensures IsInstallerNoise(snap, p) ==> snap.facts.hasServices && !EvidenceFor(snap, p.name).degraded
  {
  }

  lemma MainPassReason(snap: Snapshot, p: Package)
    ensures !IsInstallerReason(MainPass(snap, p).triage.reason)
  {
  }

  lemma PostPassDegraded(r: Refined, e: Evidence, e': Evidence)
    requires !IsInstallerReason(r.triage.reason)
    requires e' == e.(degraded := e'.degraded) && (e.degraded ==> e'.degraded)
    ensures PostPass(r, e).triage != PostPass(r, e').triage <==>
            PostPass(r, e).triage.reason == InstallerDefault && !e.degraded && e'.degraded
    ensures PostPass(r, e).triage != PostPass(r, e').triage ==>
              PostPass(r, e).triage == Triage(BaselineBucket, InstallerDefault)
              && PostPass(r, e').triage == Triage(InvestigateBucket, InstallerEvidenceUnavailable)
  {
  }

  lemma NormalizationKeepsEvidence(snap: Snapshot)
    ensures SameEvidence(Normalized(snap), WithSyntheticRows(snap))
  {
    forall i | 0 <= i < |snap.packages|
      ensures SameIdentity(Normalized(snap).packages[i], snap.packages[i])
    {
      NormalizedPackageFacts(snap, i);
    }
  }

  lemma SynthesisEvidence(snap: Snapshot, name: string)
    ensures EvidenceFor(WithSyntheticRows(snap), name) ==
            EvidenceFor(snap, name).(degraded := EvidenceDegraded(snap)
              || (snap.facts.hasServices && exists d :: d in snap.dropIns && IsOrphanShadow(snap, d)))
  {
    var added := SyntheticRows(snap, snap.dropIns);
    var mid := WithSyntheticRows(snap);
    SyntheticRowFacts(snap, snap.dropIns);
    assert forall i :: 0 <= i < |snap.rows| ==> mid.rows[i] == snap.rows[i];
    assert forall i :: |snap.rows| <= i < |mid.rows| ==> mid.rows[i] in added;
    if added != [] {
      assert mid.rows[|snap.rows|] in added;
      assert snap.facts.hasServices ==> HasUnattributedService(mid);
    }
    assert HasUnattributedService(snap) ==> HasUnattributedService(mid) by {
      if HasUnattributedService(snap) {
        var i :| 0 <= i < |snap.rows| && snap.rows[i].owningPackage.None?;
        assert mid.rows[i].owningPackage.None?;
      }
    }
    assert IsUserEnabled(snap, name) <==> IsUserEnabled(mid, name) by {
      if IsUserEnabled(snap, name) {
        var i :| 0 <= i < |snap.rows| && EnablesFor(snap.rows[i], name);
        assert EnablesFor(mid.rows[i], name);
      }
    }
    assert HasModifiedConfig(snap, name) <==> HasModifiedConfig(mid, name);
  }

  /** A scan with one noise package and one orphan full-shadow unit: the package starts excluded
      as installer noise and the session shows it as one to investigate. */
  lemma SynthesisCanShift()
    ensures var snap := NoiseAndOrphan();
            && Classified(snap, snap.packages[0]).triage == Triage(BaselineBucket, InstallerDefault)
            && Classified(Normalized(snap), Normalized(snap).packages[0]).triage
               == Triage(InvestigateBucket, InstallerEvidenceUnavailable)
            && Normalized(snap).packages[0].disposition == Actionable(false)
  {
    hide Classified, IsInstallerNoise, IsOrphanShadow, NormalizedPackages, NormalizedConfigs, IsPartialPrevalence;
    var snap := NoiseAndOrphan();
    NoiseIsNoise();
    InstallerNoiseIs(snap, snap.packages[0]);
    SynthesisShiftsClassification(snap, 0);
    NoiseStartsExcluded();
  }

  lemma NoiseIsNoise()
    ensures var snap := NoiseAndOrphan();
            IsInstallerNoise(snap, snap.packages[0]) && IsOrphanShadow(snap, snap.dropIns[0])
  {
    LshwIsNoise();
  }

  lemma NoiseStartsExcluded()
    ensures NormalizedPackages(NoiseAndOrphan())[0].disposition == Actionable(false)
  {
    hide EvidenceFor, IsNoise, IsPlumbing, MainPass;
    var snap := NoiseAndOrphan();
    NoiseIsNoise();
    InstallerNoiseIs(snap, snap.packages[0]);
    MainPassReason(snap, snap.packages[0]);
    InstallerDefaultIsExcluded(MainPass(snap, snap.packages[0]), EvidenceFor(snap, "lshw"));
  }

  lemma InstallerDefaultIsExcluded(r: Refined, e: Evidence)
    requires !IsInstallerReason(r.triage.reason) && PostPass(r, e).triage.reason == InstallerDefault
    ensures PostPass(r, e).entry.disposition == Actionable(false)
  {
  }

  lemma LshwIsNoise()
    ensures IsNoise("lshw") && !IsPlumbing("lshw")
  {
    assert "lshw" in NOISE_PATTERNS && MatchesNoise("lshw", "lshw");
  }

  function NoiseAndOrphan(): Snapshot {
    Snapshot(
      [Package("lshw", "1", "1", "x86_64", Added, Actionable(true), false, "anaconda", "", false, false, None, None,
        None)],
      [], [], [], [], [],
      [DropIn("/etc/systemd/system/a.service", "a.service", true, Actionable(true), false)],
      Facts(None, {}, [], [Ownership("lshw", [])], None, map[], true, true, {"a.service"}, {}, {}))
  }
}
