/** Triage of packages: the per-package classifier, and the post-pass over packages the
    installer brought in. */
module Classify {
  import opened Types
  import opened Strings

  datatype Bucket = BaselineBucket | SiteBucket | InvestigateBucket

  datatype Reason =
    | BaselineMatchReason
    | UserAdded
    | VersionChanged
    | ProvenanceUnavailable
    | LocalInstallReason
    | NoRepoSource
    | ConfigCaptured
    | PlatformPlumbing
    | InstallerDefault
    | InstallerPromotedService
    | InstallerPromotedConfig
    | InstallerAmbiguous
    | InstallerEvidenceUnavailable

  datatype Triage = Triage(bucket: Bucket, reason: Reason)

  datatype Refined = Refined(entry: Package, triage: Triage)

  const PLUMBING_PREFIXES: seq<string> := ["grub2-", "grubby", "shim-", "efibootmgr"]

  const NOISE_PATTERNS: seq<string> := [
    "-fonts", "-fonts-common", "fonts-filesystem", "default-fonts-", "lshw", "lsscsi", "libsysfs",
    "initscripts-", "prefixdevname", "rootfiles", "kernel-tools", "dracut-config-rescue", "mtools", "biosdevname"]

  const CONFIG_ONLY_PROMOTION: seq<string> := ["sudo", "logrotate", "chrony", "sssd", "pam"]

  predicate IsPlumbing(name: string) {
    exists p :: p in PLUMBING_PREFIXES && StartsWith(name, p)
  }

  predicate MatchesNoise(name: string, pattern: string)
    requires pattern != ""
  {
    if pattern[0] == '-' then EndsWith(name, pattern)
    else if pattern[|pattern| - 1] == '-' then StartsWith(name, pattern)
    else name == pattern || StartsWith(name, pattern + "-")
  }

  predicate IsNoise(name: string) {
    exists p :: p in NOISE_PATTERNS && p != "" && MatchesNoise(name, p)
  }

  // ----- The main pass -----

  predicate IsCommandline(repo: string) {
    Fold(repo) == "@commandline"
  }

  predicate IsDowngraded(changes: seq<VersionChange>, p: Package) {
    exists c :: c in changes && c.name == p.name && c.arch == p.arch && c.downgrade
  }

  function ClassifyPackage(p: Package, baseline: Option<set<string>>, changes: seq<VersionChange>): Triage {
    if p.state.LocalInstall? then Triage(InvestigateBucket, LocalInstallReason)
    else if p.state.NoRepo? then Triage(InvestigateBucket, NoRepoSource)
    else if p.sourceRepo == "" || IsCommandline(p.sourceRepo) then Triage(InvestigateBucket, NoRepoSource)
    else if baseline.None? then Triage(InvestigateBucket, ProvenanceUnavailable)
    else if p.state.Modified? then
      Triage(if IsDowngraded(changes, p) then InvestigateBucket else SiteBucket, VersionChanged)
    else if CanonicalId(p.name, p.arch) in baseline.value then Triage(BaselineBucket, BaselineMatchReason)
    else Triage(SiteBucket, UserAdded)
  }

  /** Paths owned by a package: the last ownership record of that name counts. */
  function OwnedPaths(ownership: seq<Ownership>, name: string): seq<string> {
    if ownership == [] then []
    else if ownership[|ownership| - 1].package == name then ownership[|ownership| - 1].paths
    else OwnedPaths(ownership[..|ownership| - 1], name)
  }

  predicate IsConfigPath(configs: seq<ConfigFile>, path: string) {
    exists i :: 0 <= i < |configs| && configs[i].path == path
  }

  /** Every file of the package lies under /etc and is captured as a config file. */
  predicate AllFilesCaptured(snap: Snapshot, name: string) {
    var paths := OwnedPaths(snap.facts.ownership, name);
    paths != [] && forall i :: 0 <= i < |paths| ==>
      StartsWith(paths[i], "/etc/") && IsConfigPath(snap.configs, paths[i])
  }

  function MainPass(snap: Snapshot, p: Package): Refined {
    if CanonicalId(p.name, p.arch) in snap.facts.suppressed then
      Refined(p, Triage(BaselineBucket, BaselineMatchReason))
    else if IsCommandline(p.sourceRepo) && AllFilesCaptured(snap, p.name) then
      Refined(p.(disposition := Actionable(false)), Triage(SiteBucket, ConfigCaptured))
    else
      Refined(p, ClassifyPackage(p, snap.facts.baseline, snap.facts.versionChanges))
  }

  // ----- Evidence for the installer post-pass -----

  ghost predicate IsUserEnabled(snap: Snapshot, name: string) {
    snap.facts.hasServices && exists i :: 0 <= i < |snap.rows| && EnablesFor(snap.rows[i], name)
  }

  predicate EnablesFor(row: ServiceRow, name: string) {
    row.currentState.UnitEnabled? && row.defaultState != Some(PresetEnable) && row.owningPackage == Some(name)
  }

  predicate IsModifiedConfig(configs: seq<ConfigFile>, path: string) {
    exists i :: 0 <= i < |configs| && configs[i].kind.RpmOwnedModified? && configs[i].path == path
  }

  predicate OwnsModified(configs: seq<ConfigFile>, own: Ownership) {
    exists i :: 0 <= i < |own.paths| && IsModifiedConfig(configs, own.paths[i])
  }

  ghost predicate HasModifiedConfig(snap: Snapshot, name: string) {
    snap.facts.hasConfig
    && exists j ::
        0 <= j < |snap.facts.ownership| && snap.facts.ownership[j].package == name
        && OwnsModified(snap.configs, snap.facts.ownership[j])
  }

  predicate HasEvidence(snap: Snapshot) {
    snap.facts.hasServices && snap.facts.hasConfig && snap.facts.ownership != []
  }

  predicate HasUnattributedService(snap: Snapshot) {
    snap.facts.hasServices && exists i :: 0 <= i < |snap.rows| && snap.rows[i].owningPackage.None?
  }

  predicate IsOwned(ownership: seq<Ownership>, path: string) {
    exists j :: 0 <= j < |ownership| && path in ownership[j].paths
  }

  predicate HasOrphanedModifiedConfig(snap: Snapshot) {
    snap.facts.hasConfig && snap.facts.ownership != []
    && exists i ::
        0 <= i < |snap.configs| && snap.configs[i].kind.RpmOwnedModified?
        && !IsOwned(snap.facts.ownership, snap.configs[i].path)
  }

  predicate EvidenceDegraded(snap: Snapshot) {
    HasUnattributedService(snap) || HasOrphanedModifiedConfig(snap)
  }

  // ----- The installer post-pass -----

  datatype Evidence = Evidence(complete: bool, degraded: bool, userEnabled: bool, modifiedConfig: bool)

  function PostPass(r: Refined, e: Evidence): Refined {
    var name := r.entry.name;
    if r.entry.sourceRepo != "anaconda" then r
    else if IsPlumbing(name) then
      Refined(r.entry.(disposition := Actionable(false), locked := true), Triage(BaselineBucket, PlatformPlumbing))
    else if !(r.triage.reason.UserAdded? || r.triage.reason.ProvenanceUnavailable?) || !e.complete then r
    else if e.userEnabled && e.modifiedConfig then
      Refined(r.entry.(disposition := Actionable(true)), Triage(SiteBucket, InstallerPromotedService))
    else if name in CONFIG_ONLY_PROMOTION && e.modifiedConfig then
      Refined(r.entry.(disposition := Actionable(true)), Triage(SiteBucket, InstallerPromotedConfig))
    else if IsNoise(name) && !e.degraded then
      Refined(r.entry.(disposition := Actionable(false)), Triage(BaselineBucket, InstallerDefault))
    else
      Refined(r.entry.(disposition := Actionable(true)),
              Triage(InvestigateBucket,
                     if e.degraded && IsNoise(name) then InstallerEvidenceUnavailable else InstallerAmbiguous))
  }

  ghost function EvidenceFor(snap: Snapshot, name: string): Evidence {
    Evidence(HasEvidence(snap), EvidenceDegraded(snap), IsUserEnabled(snap, name), HasModifiedConfig(snap, name))
  }

  /** The classifier's verdict on one package of the snapshot. */
  ghost function Classified(snap: Snapshot, p: Package): Refined {
    PostPass(MainPass(snap, p), EvidenceFor(snap, p.name))
  }

  method UserEnabledServicePackages(snap: Snapshot) returns (names: set<string>)
    ensures forall name :: name in names <==> IsUserEnabled(snap, name)
  {
    names := {};
    if snap.facts.hasServices {
      for i := 0 to |snap.rows|
        invariant forall name :: name in names <==> exists j :: 0 <= j < i && EnablesFor(snap.rows[j], name)
      {
        var row := snap.rows[i];
        if row.currentState.UnitEnabled? && row.defaultState != Some(PresetEnable) && row.owningPackage.Some? {
          names := names + {row.owningPackage.value};
        }
      }
    }
  }

  method ModifiedConfigPackages(snap: Snapshot) returns (names: set<string>)
    ensures forall name :: name in names <==> HasModifiedConfig(snap, name)
  {
    names := {};
    if snap.facts.hasConfig {
      var ownership := snap.facts.ownership;
      for j := 0 to |ownership|
        invariant forall name :: name in names <==>
                    exists k :: 0 <= k < j && ownership[k].package == name && OwnsModified(snap.configs, ownership[k])
      {
        ghost var before := names;
        for c := 0 to |snap.configs|
          invariant names == before || names == before + {ownership[j].package}
          invariant ownership[j].package in names <==>
                    ownership[j].package in before || HitsUpTo(snap.configs, c, ownership[j])
        {
          if snap.configs[c].kind.RpmOwnedModified? && snap.configs[c].path in ownership[j].paths {
            names := names + {ownership[j].package};
          }
        }
        HitsMeaning(snap.configs, ownership[j]);
      }
    }
  }

  ghost predicate HitsUpTo(configs: seq<ConfigFile>, c: int, own: Ownership) {
    exists i :: 0 <= i < c && i < |configs| && configs[i].kind.RpmOwnedModified? && configs[i].path in own.paths
  }

  lemma HitsMeaning(configs: seq<ConfigFile>, own: Ownership)
    ensures HitsUpTo(configs, |configs|, own) <==> OwnsModified(configs, own)
  {
    if HitsUpTo(configs, |configs|, own) {
      var i :| 0 <= i < |configs| && configs[i].kind.RpmOwnedModified? && configs[i].path in own.paths;
      var k :| 0 <= k < |own.paths| && own.paths[k] == configs[i].path;
      assert IsModifiedConfig(configs, own.paths[k]);
    }
  }

  method ClassifyPackages(snap: Snapshot) returns (rs: seq<Refined>)
    ensures |rs| == |snap.packages|
    ensures forall i :: 0 <= i < |rs| ==> rs[i] == Classified(snap, snap.packages[i])
  {
    rs := seq(|snap.packages|, i requires 0 <= i < |snap.packages| => MainPass(snap, snap.packages[i]));
    var enabled := UserEnabledServicePackages(snap);
    var modified := ModifiedConfigPackages(snap);
    for i := 0 to |rs|
      invariant |rs| == |snap.packages|
      invariant forall j :: 0 <= j < i ==> rs[j] == Classified(snap, snap.packages[j])
      invariant forall j :: i <= j < |rs| ==> rs[j] == MainPass(snap, snap.packages[j])
    {
      var name := rs[i].entry.name;
      var e := Evidence(HasEvidence(snap), EvidenceDegraded(snap), name in enabled, name in modified);
      rs := rs[i := PostPass(rs[i], e)];
    }
  }

  // ----- What classification keeps -----

  /** The classifier touches a package's disposition and lock and nothing else, and the only
      package that gains a lock is boot-chain plumbing the installer brought in. */
  lemma ClassifiedKeepsIdentity(snap: Snapshot, p: Package)
    ensures var e := Classified(snap, p).entry; e == p.(disposition := e.disposition, locked := e.locked)
    ensures Classified(snap, p).entry.locked <==> p.locked || (p.sourceRepo == "anaconda" && IsPlumbing(p.name))
    ensures Classified(snap, p).triage.reason == PlatformPlumbing <==> p.sourceRepo == "anaconda" && IsPlumbing(p.name)
  {
  }

  /** Stronger evidence for a package, or evidence known to have gaps, never turns an included
      installer package into an excluded one. */
  lemma EvidenceNeverExcludes(r: Refined, e: Evidence, e': Evidence)
    requires e.complete == e'.complete && (e.degraded ==> e'.degraded)
    requires (e.userEnabled ==> e'.userEnabled) && (e.modifiedConfig ==> e'.modifiedConfig)
    ensures PostPass(r, e).entry.disposition.IsIncluded() ==> PostPass(r, e').entry.disposition.IsIncluded()
  {
  }

  /** Two snapshots that agree on every field a timeline or an upload leaves alone. */
  ghost predicate SameEvidence(a: Snapshot, b: Snapshot) {
    && a.facts == b.facts
    && |a.packages| == |b.packages|
    && (forall i :: 0 <= i < |a.packages| ==> SameIdentity(a.packages[i], b.packages[i]))
    && |a.configs| == |b.configs|
    && (forall i :: 0 <= i < |a.configs| ==>
          a.configs[i].path == b.configs[i].path && a.configs[i].kind == b.configs[i].kind)
    && |a.rows| == |b.rows|
    && (forall i :: 0 <= i < |a.rows| ==> SameRow(a.rows[i], b.rows[i]))
  }

  ghost predicate SameIdentity(p: Package, q: Package) {
    p.name == q.name && p.arch == q.arch && p.state == q.state && p.sourceRepo == q.sourceRepo
  }

  ghost predicate SameRow(r: ServiceRow, s: ServiceRow) {
    r.currentState == s.currentState && r.defaultState == s.defaultState && r.owningPackage == s.owningPackage
  }

  lemma SameEvidencePerPath(a: Snapshot, b: Snapshot)
    requires SameEvidence(a, b)
    ensures forall path :: IsConfigPath(a.configs, path) <==> IsConfigPath(b.configs, path)
    ensures forall path :: IsModifiedConfig(a.configs, path) <==> IsModifiedConfig(b.configs, path)
    ensures forall own :: OwnsModified(a.configs, own) <==> OwnsModified(b.configs, own)
  {
    SameConfigs(a.configs, b.configs);
    SameConfigs(b.configs, a.configs);
  }

  lemma SameConfigs(a: seq<ConfigFile>, b: seq<ConfigFile>)
    requires |a| == |b|
    requires forall i :: 0 <= i < |a| ==> a[i].path == b[i].path && a[i].kind == b[i].kind
    ensures forall path :: IsConfigPath(a, path) ==> IsConfigPath(b, path)
    ensures forall path :: IsModifiedConfig(a, path) ==> IsModifiedConfig(b, path)
  {
    forall path | IsConfigPath(a, path)
      ensures IsConfigPath(b, path)
    {
      var i :| 0 <= i < |a| && a[i].path == path;
      assert b[i].path == path;
    }
    forall path | IsModifiedConfig(a, path)
      ensures IsModifiedConfig(b, path)
    {
      var i :| 0 <= i < |a| && a[i].kind.RpmOwnedModified? && a[i].path == path;
      assert b[i].path == path;
    }
  }

  lemma SameEvidenceFor(a: Snapshot, b: Snapshot, name: string)
    requires SameEvidence(a, b)
    ensures EvidenceFor(a, name) == EvidenceFor(b, name)
  {
    SameEvidencePerPath(a, b);
    EvidenceImplies(a, b, name);
    EvidenceImplies(b, a, name);
  }

  lemma EvidenceImplies(a: Snapshot, b: Snapshot, name: string)
    requires SameEvidence(a, b)
    requires forall own :: OwnsModified(a.configs, own) <==> OwnsModified(b.configs, own)
    ensures IsUserEnabled(a, name) ==> IsUserEnabled(b, name)
    ensures HasModifiedConfig(a, name) ==> HasModifiedConfig(b, name)
    ensures HasUnattributedService(a) ==> HasUnattributedService(b)
    ensures HasOrphanedModifiedConfig(a) ==> HasOrphanedModifiedConfig(b)
  {
    if IsUserEnabled(a, name) {
      var i :| 0 <= i < |a.rows| && EnablesFor(a.rows[i], name);
      assert SameRow(a.rows[i], b.rows[i]) && EnablesFor(b.rows[i], name);
    }
    if HasUnattributedService(a) {
      var i :| 0 <= i < |a.rows| && a.rows[i].owningPackage.None?;
      assert SameRow(a.rows[i], b.rows[i]) && b.rows[i].owningPackage.None?;
    }
    if HasOrphanedModifiedConfig(a) {
      var i :| 0 <= i < |a.configs| && a.configs[i].kind.RpmOwnedModified?
        && !IsOwned(a.facts.ownership, a.configs[i].path);
      assert b.configs[i].kind.RpmOwnedModified? && !IsOwned(b.facts.ownership, b.configs[i].path);
    }
    if HasModifiedConfig(a, name) {
      var j :| 0 <= j < |a.facts.ownership| && a.facts.ownership[j].package == name
        && OwnsModified(a.configs, a.facts.ownership[j]);
      assert OwnsModified(b.configs, b.facts.ownership[j]);
    }
  }

  /** Classification reads nothing a timeline or an upload writes: over snapshots that agree
      on the evidence, every package gets the same bucket and reason. */
  lemma ClassificationIsStable(a: Snapshot, b: Snapshot, i: nat)
    requires SameEvidence(a, b) && i < |a.packages|
    ensures Classified(a, a.packages[i]).triage == Classified(b, b.packages[i]).triage
  {
    var p, q := a.packages[i], b.packages[i];
    assert SameIdentity(p, q);
    SameEvidenceFor(a, b, p.name);
    MainPassIsStable(a, b, p, q);
    PostPassIsStable(MainPass(a, p), MainPass(b, q), EvidenceFor(a, p.name));
  }

  lemma MainPassIsStable(a: Snapshot, b: Snapshot, p: Package, q: Package)
    requires SameEvidence(a, b) && SameIdentity(p, q)
    ensures MainPass(a, p).triage == MainPass(b, q).triage
  {
    SameEvidencePerPath(a, b);
    assert AllFilesCaptured(a, p.name) == AllFilesCaptured(b, q.name);
  }

  lemma PostPassIsStable(r: Refined, s: Refined, e: Evidence)
    requires r.triage == s.triage && r.entry.name == s.entry.name && r.entry.sourceRepo == s.entry.sourceRepo
    ensures PostPass(r, e).triage == PostPass(s, e).triage
  {
  }
}
