/** Triage and starting decisions of packages, said over the scan alone. */
module TriageLaws {
  import opened Types
  import opened Strings
  import opened Classify
  import opened Normalize
  import opened ReplayLaws

  // ----- Names -----

  /** Boot-chain packages. */
  predicate IsBootChain(name: string) {
    "grub2-" <= name || "grubby" <= name || "shim-" <= name || "efibootmgr" <= name
  }

  lemma PlumbingIsBootChain(name: string)
    ensures IsPlumbing(name) <==> IsBootChain(name)
  {
    hide StartsWith;
    var ps := PLUMBING_PREFIXES;
    forall p | p in ps
      ensures StartsWith(name, p) <==> p <= name
    {
      StartIsPrefix(name, p);
    }
    forall p | p in ps && p <= name
      ensures IsBootChain(name)
    {
      var k :| 0 <= k < |ps| && ps[k] == p;
    }
    assert ps[0] in ps && ps[1] in ps && ps[2] in ps && ps[3] in ps;
    assert ps[0] == "grub2-" && ps[1] == "grubby" && ps[2] == "shim-" && ps[3] == "efibootmgr";
  }

  lemma StartIsPrefix(s: string, t: string)
    ensures StartsWith(s, t) <==> t <= s
  {
    if |t| <= |s| {
      assert s[0..0 + |t|] == s[..|t|];
    }
  }

  /** The name itself, or the name with a dash and more. */
  predicate IsFamily(name: string, word: string) {
    name == word || word + "-" <= name
  }

  predicate IsFontPackage(name: string) {
    EndsWith(name, "-fonts") || EndsWith(name, "-fonts-common") || IsFamily(name, "fonts-filesystem")
    || "default-fonts-" <= name
  }

  /** Packages an installer brings in that nobody picks: fonts, hardware listers, boot leftovers. */
  predicate IsInstallerName(name: string) {
    || IsFontPackage(name) || IsFamily(name, "lshw") || IsFamily(name, "lsscsi") || IsFamily(name, "libsysfs")
    || "initscripts-" <= name || IsFamily(name, "prefixdevname") || IsFamily(name, "rootfiles")
    || IsFamily(name, "kernel-tools") || IsFamily(name, "dracut-config-rescue") || IsFamily(name, "mtools")
    || IsFamily(name, "biosdevname")
  }

  lemma PatternMatches(name: string, p: string)
    requires p != ""
    ensures p[0] == '-' ==> MatchesNoise(name, p) == EndsWith(name, p)
    ensures p[0] != '-' && p[|p| - 1] == '-' ==> MatchesNoise(name, p) == (p <= name)
    ensures p[0] != '-' && p[|p| - 1] != '-' ==> MatchesNoise(name, p) == IsFamily(name, p)
  {
    StartIsPrefix(name, p);
    StartIsPrefix(name, p + "-");
  }

  predicate MatchesAs(name: string, p: string)
    requires p != ""
  {
    if p[0] == '-' then EndsWith(name, p) else if p[|p| - 1] == '-' then p <= name else IsFamily(name, p)
  }

  lemma NoiseIsInstallerName(name: string)
    ensures IsNoise(name) <==> IsInstallerName(name)
  {
    hide MatchesNoise, MatchesAs, IsInstallerName;
    forall p | p in NOISE_PATTERNS
      ensures p != "" && MatchesNoise(name, p) == MatchesAs(name, p)
    {
      MatchIsSpelled(name, p);
    }
    PatternsAreSpelled(name);
  }

  lemma MatchIsSpelled(name: string, p: string)
    requires p in NOISE_PATTERNS
    ensures p != "" && MatchesNoise(name, p) == MatchesAs(name, p)
  {
    assert p != "";
    PatternMatches(name, p);
  }

  lemma PatternsAreSpelled(name: string)
    ensures (exists p :: p in NOISE_PATTERNS && p != "" && MatchesAs(name, p)) <==> IsInstallerName(name)
  {
    hide EndsWith, IsFamily;
    var ps := NOISE_PATTERNS;
    forall p | p in ps && p != "" && MatchesAs(name, p)
      ensures IsInstallerName(name)
    {
      var k :| 0 <= k < |ps| && ps[k] == p;
      PatternIsSpelled(name, k);
    }
    if IsInstallerName(name) {
      var k := SomePattern(name);
      assert ps[k] in ps;
    }
  }

  lemma PatternIsSpelled(name: string, k: nat)
    requires k < |NOISE_PATTERNS| && NOISE_PATTERNS[k] != "" && MatchesAs(name, NOISE_PATTERNS[k])
    ensures IsInstallerName(name)
  {
    hide EndsWith, IsFamily;
  }

  lemma SomePattern(name: string) returns (k: nat)
    requires IsInstallerName(name)
    ensures k < |NOISE_PATTERNS| && NOISE_PATTERNS[k] != "" && MatchesAs(name, NOISE_PATTERNS[k])
  {
    hide EndsWith, IsFamily;
    k := if EndsWith(name, "-fonts") then 0
         else if EndsWith(name, "-fonts-common") then 1
         else if IsFamily(name, "fonts-filesystem") then 2
         else if "default-fonts-" <= name then 3
         else if IsFamily(name, "lshw") then 4
         else if IsFamily(name, "lsscsi") then 5
         else if IsFamily(name, "libsysfs") then 6
         else if "initscripts-" <= name then 7
         else if IsFamily(name, "prefixdevname") then 8
         else if IsFamily(name, "rootfiles") then 9
         else if IsFamily(name, "kernel-tools") then 10
         else if IsFamily(name, "dracut-config-rescue") then 11
         else if IsFamily(name, "mtools") then 12
         else 13;
  }

  // ----- Ordinary packages -----

  /** The last ownership record of the package lists files, all under /etc and all captured. */
  ghost predicate IsCaptured(snap: Snapshot, p: Package) {
    && SameUpToCase(p.sourceRepo, "@commandline")
    && exists j ::
         IsLastRecord(snap.facts.ownership, p.name, j) && |snap.facts.ownership[j].paths| > 0
         && forall path :: path in snap.facts.ownership[j].paths ==>
              "/etc/" <= path && exists c :: c in snap.configs && c.path == path
  }

  lemma CommandlineIsSpelled(repo: string)
    ensures IsCommandline(repo) <==> SameUpToCase(repo, "@commandline")
  {
    FoldIsUpToCase(repo, "@commandline");
    assert Fold("@commandline") == "@commandline";
  }

  ghost predicate IsLastRecord(ownership: seq<Ownership>, name: string, j: int) {
    && 0 <= j < |ownership| && ownership[j].package == name
    && forall k :: j < k < |ownership| ==> ownership[k].package != name
  }

  lemma {:induction false} LastRecord(ownership: seq<Ownership>, name: string) returns (j: Option<nat>)
    ensures j.Some? ==>
              IsLastRecord(ownership, name, j.value) && OwnedPaths(ownership, name) == ownership[j.value].paths
    ensures j.None? ==>
              OwnedPaths(ownership, name) == []
              && forall k :: 0 <= k < |ownership| ==> ownership[k].package != name
  {
    if ownership == [] {
      j := None;
    } else if ownership[|ownership| - 1].package == name {
      j := Some(|ownership| - 1);
    } else {
      var n := |ownership| - 1;
      j := LastRecord(ownership[..n], name);
      assert forall k :: 0 <= k < n ==> ownership[..n][k] == ownership[k];
    }
  }

  lemma CapturedIsSpelled(snap: Snapshot, p: Package)
    ensures IsCaptured(snap, p) <==> IsCommandline(p.sourceRepo) && AllFilesCaptured(snap, p.name)
  {
    hide IsCommandline, SameUpToCase;
    CommandlineIsSpelled(p.sourceRepo);
    var ownership := snap.facts.ownership;
    var last := LastRecord(ownership, p.name);
    assert forall j :: IsLastRecord(ownership, p.name, j) ==> last == Some(j);
    forall path
      ensures StartsWith(path, "/etc/") <==> "/etc/" <= path
      ensures IsConfigPath(snap.configs, path) <==> exists c :: c in snap.configs && c.path == path
    {
      StartIsPrefix(path, "/etc/");
      ConfigPathIsSpelled(snap.configs, path);
    }
    AllCapturedIs(snap, p.name);
  }

  lemma ConfigPathIsSpelled(configs: seq<ConfigFile>, path: string)
    ensures IsConfigPath(configs, path) <==> exists c :: c in configs && c.path == path
  {
    if i :| 0 <= i < |configs| && configs[i].path == path {
      assert configs[i] in configs;
    }
  }

  lemma AllCapturedIs(snap: Snapshot, name: string)
    ensures var paths := OwnedPaths(snap.facts.ownership, name);
            AllFilesCaptured(snap, name) <==>
              paths != []
              && forall path :: path in paths ==> StartsWith(path, "/etc/") && IsConfigPath(snap.configs, path)
  {
    hide StartsWith, IsConfigPath;
    var paths := OwnedPaths(snap.facts.ownership, name);
    if forall path :: path in paths ==> StartsWith(path, "/etc/") && IsConfigPath(snap.configs, path) {
      assert forall i :: 0 <= i < |paths| ==> paths[i] in paths;
    }
  }

  predicate IsDowngrade(snap: Snapshot, p: Package) {
    exists c :: c in snap.facts.versionChanges && c.name == p.name && c.arch == p.arch && c.downgrade
  }

  /** No repo is known to serve the package. */
  predicate IsSourceless(p: Package) {
    p.state == LocalInstall || p.state == NoRepo || p.sourceRepo == "" || SameUpToCase(p.sourceRepo, "@commandline")
  }

  /** A package against the baseline: in it, changed from it, or new to it. */
  predicate IsNewToBaseline(snap: Snapshot, p: Package) {
    var id := p.name + "." + p.arch;
    && id !in snap.facts.suppressed && p.state != LocalInstall && p.state != NoRepo
    && (snap.facts.baseline == None || (p.state != Modified && id !in snap.facts.baseline.value))
  }

  predicate HasFullEvidence(snap: Snapshot) {
    snap.facts.hasServices && snap.facts.hasConfig && |snap.facts.ownership| > 0
  }

  /** The installer's rules decide: plumbing always, others when new and fully evidenced. */
  predicate IsInstallers(snap: Snapshot, p: Package) {
    p.sourceRepo == "anaconda" && (IsBootChain(p.name) || (IsNewToBaseline(snap, p) && HasFullEvidence(snap)))
  }

  /** Triage of every package the installer's rules do not decide. Baseline: suppressed, or listed
      in the baseline, unmodified and of a known repo. Investigate: without a known repo, without a
      baseline, or downgraded. Site: the rest, and local packages whose files are all captured as
      configs, which are excluded; no other disposition changes. */
  lemma TriageIsExact(snap: Snapshot, p: Package)
    requires !IsInstallers(snap, p)
    ensures var id := p.name + "." + p.arch;
            var r := Classified(snap, p);
            var t := r.triage;
            if id in snap.facts.suppressed then t == Triage(BaselineBucket, BaselineMatchReason)
            else if IsCaptured(snap, p) then t == Triage(SiteBucket, ConfigCaptured)
            else
              && (t.bucket == InvestigateBucket <==>
                    IsSourceless(p) || snap.facts.baseline == None || (p.state == Modified && IsDowngrade(snap, p)))
              && (t.bucket == BaselineBucket <==>
                    !IsSourceless(p) && snap.facts.baseline.Some? && id in snap.facts.baseline.value
                      && p.state != Modified)
              && (t.reason == LocalInstallReason <==> p.state == LocalInstall)
              && (t.reason == NoRepoSource <==> p.state != LocalInstall && IsSourceless(p))
              && (t.reason == ProvenanceUnavailable <==> !IsSourceless(p) && snap.facts.baseline == None)
              && (t.reason == VersionChanged <==> !IsSourceless(p) && snap.facts.baseline.Some? && p.state == Modified)
              && (t.reason == UserAdded <==> t.bucket == SiteBucket && p.state != Modified)
              && (t.reason == BaselineMatchReason <==> t.bucket == BaselineBucket)
    ensures var r := Classified(snap, p);
            r.entry == if p.name + "." + p.arch !in snap.facts.suppressed && IsCaptured(snap, p)
                       then p.(disposition := Actionable(false)) else p
  {
    hide IsCommandline, SameUpToCase, AllFilesCaptured, IsCaptured, IsNoise, IsBootChain, IsPlumbing;
    CapturedIsSpelled(snap, p);
    CommandlineIsSpelled(p.sourceRepo);
    PlumbingIsBootChain(p.name);
    if p.sourceRepo == "anaconda" {
      AnacondaIsARepo();
    }
    hide PostPass;
    assert PostPass(MainPass(snap, p), EvidenceFor(snap, p.name)) == MainPass(snap, p) by {
      NotInstallersIsMainPass(snap, p);
    }
  }

  lemma NotInstallersIsMainPass(snap: Snapshot, p: Package)
    requires !IsInstallers(snap, p)
    ensures PostPass(MainPass(snap, p), EvidenceFor(snap, p.name)) == MainPass(snap, p)
  {
    hide SameUpToCase, AllFilesCaptured, IsNoise, IsBootChain, IsPlumbing, IsCommandline, EvidenceDegraded;
    PlumbingIsBootChain(p.name);
    if p.sourceRepo == "anaconda" {
      AnacondaIsARepo();
    }
  }

  // ----- Packages the installer brought in -----

  /** A unit of the package is enabled though its preset is not to enable it. */
  predicate HasEnabledUnit(snap: Snapshot, name: string) {
    exists r :: r in snap.rows && r.currentState == UnitEnabled && r.defaultState != Some(PresetEnable)
      && r.owningPackage == Some(name)
  }

  predicate IsModified(snap: Snapshot, path: string) {
    exists c :: c in snap.configs && c.kind == RpmOwnedModified && c.path == path
  }

  /** A config file some record gives to the package is modified. */
  predicate HasModifiedFile(snap: Snapshot, name: string) {
    exists o, path :: o in snap.facts.ownership && o.package == name && path in o.paths && IsModified(snap, path)
  }

  /** A unit nobody owns, or a modified file nobody owns: the package might be behind it. */
  predicate HasGaps(snap: Snapshot) {
    || (exists r :: r in snap.rows && r.owningPackage == None)
    || (exists c :: c in snap.configs && c.kind == RpmOwnedModified
          && forall o :: o in snap.facts.ownership ==> c.path !in o.paths)
  }

  lemma EvidenceIsSpelled(snap: Snapshot, name: string)
    ensures EvidenceFor(snap, name).complete == HasFullEvidence(snap)
    ensures HasFullEvidence(snap) ==>
              EvidenceFor(snap, name) == Evidence(true, HasGaps(snap), HasEnabledUnit(snap, name),
                HasModifiedFile(snap, name))
  {
    if HasFullEvidence(snap) {
      EnabledIsSpelled(snap, name);
      ModifiedIsSpelled(snap, name);
      GapsAreSpelled(snap);
    }
  }

  lemma EnabledIsSpelled(snap: Snapshot, name: string)
    requires HasFullEvidence(snap)
    ensures IsUserEnabled(snap, name) <==> HasEnabledUnit(snap, name)
  {
    if i :| 0 <= i < |snap.rows| && EnablesFor(snap.rows[i], name) {
      assert snap.rows[i] in snap.rows;
    }
    if HasEnabledUnit(snap, name) {
      var r :| r in snap.rows && r.currentState == UnitEnabled && r.defaultState != Some(PresetEnable)
        && r.owningPackage == Some(name);
      var i :| 0 <= i < |snap.rows| && snap.rows[i] == r;
      assert EnablesFor(snap.rows[i], name);
    }
  }

  lemma PathModifiedIsSpelled(snap: Snapshot, path: string)
    ensures IsModifiedConfig(snap.configs, path) <==> IsModified(snap, path)
  {
    if i :| 0 <= i < |snap.configs| && snap.configs[i].kind.RpmOwnedModified? && snap.configs[i].path == path {
      assert snap.configs[i] in snap.configs;
    }
  }

  lemma ModifiedIsSpelled(snap: Snapshot, name: string)
    requires HasFullEvidence(snap)
    ensures HasModifiedConfig(snap, name) <==> HasModifiedFile(snap, name)
  {
    hide IsModifiedConfig, IsModified;
    forall path
      ensures IsModifiedConfig(snap.configs, path) <==> IsModified(snap, path)
    {
      PathModifiedIsSpelled(snap, path);
    }
    if HasModifiedConfig(snap, name) {
      var j :| 0 <= j < |snap.facts.ownership| && snap.facts.ownership[j].package == name
        && OwnsModified(snap.configs, snap.facts.ownership[j]);
      var o := snap.facts.ownership[j];
      var i :| 0 <= i < |o.paths| && IsModifiedConfig(snap.configs, o.paths[i]);
      assert o in snap.facts.ownership && o.paths[i] in o.paths;
    }
    if HasModifiedFile(snap, name) {
      var o, path :| o in snap.facts.ownership && o.package == name && path in o.paths && IsModified(snap, path);
      var i :| 0 <= i < |o.paths| && o.paths[i] == path;
      var j :| 0 <= j < |snap.facts.ownership| && snap.facts.ownership[j] == o;
      assert OwnsModified(snap.configs, snap.facts.ownership[j]);
    }
  }

  lemma GapsAreSpelled(snap: Snapshot)
    requires HasFullEvidence(snap)
    ensures EvidenceDegraded(snap) <==> HasGaps(snap)
  {
    forall path
      ensures IsOwned(snap.facts.ownership, path) <==> exists o :: o in snap.facts.ownership && path in o.paths
    {
      OwnedIsSpelled(snap.facts.ownership, path);
    }
    if i :| 0 <= i < |snap.rows| && snap.rows[i].owningPackage.None? {
      assert snap.rows[i] in snap.rows;
    }
    if i :| 0 <= i < |snap.configs| && snap.configs[i].kind.RpmOwnedModified?
            && !IsOwned(snap.facts.ownership, snap.configs[i].path) {
      assert snap.configs[i] in snap.configs;
    }
  }

  lemma OwnedIsSpelled(ownership: seq<Ownership>, path: string)
    ensures IsOwned(ownership, path) <==> exists o :: o in ownership && path in o.paths
  {
    if j :| 0 <= j < |ownership| && path in ownership[j].paths {
      assert ownership[j] in ownership;
    }
  }

  /** Of five packages a modified config alone is signal enough. */
  predicate IsConfigDriven(name: string) {
    name == "sudo" || name == "logrotate" || name == "chrony" || name == "sssd" || name == "pam"
  }

  /** Triage of the packages the installer's rules decide. Plumbing is excluded and locked. Of the
      others, an enabled unit with a modified file promotes; of five names a modified file alone
      does; an installer name without gaps in the evidence is excluded; all else stays included and
      needs investigation. */
  lemma InstallerTriageIsExact(snap: Snapshot, p: Package)
    requires IsInstallers(snap, p)
    ensures var r := Classified(snap, p);
            r ==
            if IsBootChain(p.name)
            then Refined(p.(disposition := Actionable(false), locked := true), Triage(BaselineBucket, PlatformPlumbing))
            else if HasModifiedFile(snap, p.name) && HasEnabledUnit(snap, p.name)
            then Refined(p.(disposition := Actionable(true)), Triage(SiteBucket, InstallerPromotedService))
            else if HasModifiedFile(snap, p.name) && IsConfigDriven(p.name)
            then Refined(p.(disposition := Actionable(true)), Triage(SiteBucket, InstallerPromotedConfig))
            else if IsInstallerName(p.name) && !HasGaps(snap)
            then Refined(p.(disposition := Actionable(false)), Triage(BaselineBucket, InstallerDefault))
            else Refined(p.(disposition := Actionable(true)),
                         Triage(InvestigateBucket,
                                if IsInstallerName(p.name) then InstallerEvidenceUnavailable else InstallerAmbiguous))
  {
    hide IsNoise, IsPlumbing, IsBootChain, IsInstallerName, EvidenceFor, HasGaps, HasEnabledUnit, HasModifiedFile;
    hide AllFilesCaptured, IsCommandline;
    PlumbingIsBootChain(p.name);
    NoiseIsInstallerName(p.name);
    EvidenceIsSpelled(snap, p.name);
    AnacondaIsARepo();
    assert MainPass(snap, p).entry == p;
    assert IsConfigDriven(p.name) <==> p.name in CONFIG_ONLY_PROMOTION by { ConfigDrivenIs(p.name); }
  }

  lemma ConfigDrivenIs(name: string)
    ensures IsConfigDriven(name) <==> name in CONFIG_ONLY_PROMOTION
  {
    assert CONFIG_ONLY_PROMOTION[0] == "sudo" && CONFIG_ONLY_PROMOTION[1] == "logrotate";
    assert CONFIG_ONLY_PROMOTION[2] == "chrony" && CONFIG_ONLY_PROMOTION[3] == "sssd"
      && CONFIG_ONLY_PROMOTION[4] == "pam";
  }

  // ----- Starting decisions -----

  /** No leaf data, or a leaf that no other leaf pulls in. */
  ghost predicate IsTrueLeaf(snap: Snapshot, id: string) {
    snap.facts.leafPackages == None
    || (id in snap.facts.leafPackages.value
        && (id in snap.facts.leafDepTree || forall l :: l in snap.facts.leafDepTree ==>
          id !in snap.facts.leafDepTree[l]))
  }

  /** Every package starts actionable. A repo-less one, and one not on all hosts, starts excluded.
      Of the rest, those the installer's rules decide start as decided, and the others start
      included when the baseline has them, or when they are site packages and true leaves. */
  lemma StartIsExact(snap: Snapshot, i: nat)
    requires i < |snap.packages|
    ensures var p := snap.packages[i];
            var r := Classified(snap, p);
            var gated := p.repolessAnnotation != ""
              || (p.aggregate.Some? && p.aggregate.value.count < p.aggregate.value.total);
            NormalizedPackages(snap)[i].disposition ==
            if gated then Actionable(false)
            else if IsInstallers(snap, p) then r.entry.disposition
            else Actionable(r.triage.bucket == BaselineBucket
                            || (r.triage.bucket == SiteBucket && IsTrueLeaf(snap, p.name + "." + p.arch)))
  {
    hide Classified, IsInstallers, CountsAsLeaf, IsTrueLeaf;
    var p := snap.packages[i];
    var id := p.name + "." + p.arch;
    assert CountsAsLeaf(snap.facts, id) <==> IsTrueLeaf(snap, id) by { LeafIsSpelled(snap, id); }
    assert CanonicalId(p.name, p.arch) == id;
    InstallerReasonIs(snap, p);
  }

  lemma LeafIsSpelled(snap: Snapshot, id: string)
    ensures CountsAsLeaf(snap.facts, id) <==> IsTrueLeaf(snap, id)
  {
  }

  lemma InstallerReasonIs(snap: Snapshot, p: Package)
    ensures IsInstallerReason(Classified(snap, p).triage.reason) <==> IsInstallers(snap, p)
  {
    hide IsNoise, IsPlumbing, IsBootChain, EvidenceDegraded, IsUserEnabled, HasModifiedConfig, AllFilesCaptured,
      IsCommandline;
    PlumbingIsBootChain(p.name);
    if IsInstallers(snap, p) {
      AnacondaIsARepo();
    } else {
      NotInstallersIsMainPass(snap, p);
      MainPassReason(snap, p);
    }
  }

  // ----- Configs and rows -----

  /** A repo file under the yum directory whose last path segment starts with `_copr` and names
      the tool. */
  predicate IsToolRepoFile(path: string) {
    "/etc/yum.repos.d/" <= path
    && exists k :: 0 < k <= |path| && path[k - 1] == '/' && '/' !in path[k..] && "_copr" <= path[k..]
         && exists m :: 0 <= m <= |path[k..]| && "inspectah" <= path[k..][m..]
  }

  lemma {:induction false} SegmentStart(path: string, i: nat) returns (k: nat)
    requires i <= |path| && '/' !in path[i..]
    ensures k <= i && (k == 0 || path[k - 1] == '/') && '/' !in path[k..] && LastSegmentFrom(path, i) == path[k..]
  {
    if i == 0 || path[i - 1] == '/' {
      k := i;
    } else {
      assert path[i - 1..] == [path[i - 1]] + path[i..];
      k := SegmentStart(path, i - 1);
    }
  }

  lemma ToolRepoFileIsSpelled(path: string)
    ensures IsOwnRepoFile(path) <==> IsToolRepoFile(path)
  {
    hide LastSegmentFrom, Contains, StartsWith;
    assert path[|path|..] == [];
    var k := SegmentStart(path, |path|);
    StartIsPrefix(path, "/etc/yum.repos.d/");
    StartIsPrefix(path[k..], "_copr");
    ContainsIsSpelled(path[k..], "inspectah");
    forall j | 0 < j <= |path| && path[j - 1] == '/' && '/' !in path[j..]
      ensures j == k
    {
      OneLastSlash(path, j, k);
    }
    if "/etc/yum.repos.d/" <= path {
      assert path[0] == '/';
      NoSlashNoStart(path);
    }
  }

  lemma NoSlashNoStart(path: string)
    requires path != "" && path[0] == '/'
    ensures '/' in path[0..]
  {
    assert path[0..][0] == '/';
  }

  lemma OneLastSlash(path: string, j: nat, k: nat)
    requires 0 < j <= |path| && path[j - 1] == '/' && '/' !in path[j..]
    requires k <= |path| && (k == 0 || path[k - 1] == '/') && '/' !in path[k..]
    ensures j == k
  {
    assert forall m :: j <= m < |path| ==> path[m] == path[j..][m - j];
    assert forall m :: k <= m < |path| ==> path[m] == path[k..][m - k];
  }

  lemma ContainsIsSpelled(s: string, t: string)
    ensures Contains(s, t) <==> exists m :: 0 <= m <= |s| && t <= s[m..]
  {
    if Contains(s, t) {
      var m := IndexOf(s, t).value;
      assert s[m..][..|t|] == s[m..m + |t|];
      assert t <= s[m..];
    }
    if m :| 0 <= m <= |s| && t <= s[m..] {
      assert s[m..m + |t|] == s[m..][..|t|];
      assert OccursAt(s, t, m);
    }
  }

  /** A full-shadow drop-in of a unit without a row whose enable state is known. */
  predicate IsOrphan(snap: Snapshot, d: DropIn) {
    && d.fullShadow && (forall r :: r in snap.rows ==> r.unit != d.unit)
    && (d.unit in snap.facts.disabledUnits || d.unit in snap.facts.enabledUnits)
  }

  /** The synthesized rows, in order, are one for each orphan drop-in: disabled if the unit is
      listed as disabled and enabled otherwise, owned by nobody, included and unlocked. */
  lemma {:induction false} SyntheticRowsAreExact(snap: Snapshot, dropIns: seq<DropIn>)
    ensures var orphans := Filter(dropIns, (d: DropIn) => IsOrphan(snap, d));
            var rows := SyntheticRows(snap, dropIns);
            && |rows| == |orphans|
            && forall k :: 0 <= k < |rows| ==>
                 rows[k] == ServiceRow(orphans[k].unit,
                                       if orphans[k].unit in snap.facts.disabledUnits then UnitDisabled
                                         else UnitEnabled,
                                       None, None, Actionable(true), false)
  {
    if dropIns != [] {
      var n := |dropIns| - 1;
      SyntheticRowsAreExact(snap, dropIns[..n]);
      assert IsOrphan(snap, dropIns[n]) <==> IsOrphanShadow(snap, dropIns[n]);
    }
  }

  /** Where every config starts. Only the tool's own repo file gains a lock, and it is excluded;
      advisories and inventory entries are as found; any other starts included exactly when it is
      modified by hand, owned by nothing, or the first at a path with an unresolved hint. */
  lemma ConfigStartIsExact(snap: Snapshot, i: nat)
    requires i < |snap.configs|
    ensures var c := snap.configs[i];
            var hinted := c.path in snap.facts.unresolvedHints && forall j :: 0 <= j < i ==>
              snap.configs[j].path != c.path;
            NormalizedConfigs(snap)[i] ==
            if IsToolRepoFile(c.path) then c.(disposition := Actionable(false), locked := true)
            else if !c.disposition.Actionable? then c
            else c.(disposition := Actionable(c.kind == RpmOwnedModified || c.kind == Unowned || hinted))
  {
    hide IsOwnRepoFile, IsToolRepoFile;
    ToolRepoFileIsSpelled(snap.configs[i].path);
    NormalizedConfigFacts(snap, i);
    assert forall j :: 0 <= j < |snap.configs| ==>
      (ConfigKey(snap.configs[i].path)(snap.configs[j]) <==> snap.configs[j].path == snap.configs[i].path);
  }

  /** Construction leaves all else in the scan alone: of repo files it excludes the tool's own,
      the scan's rows stay in front of the synthesized ones, and keys, drop-ins, groups and facts
      are as found. */
  lemma ConstructionKeepsTheRest(snap: Snapshot)
    ensures var n := Normalized(snap);
            && n == snap.(packages := n.packages, configs := n.configs, repoFiles := n.repoFiles, rows := n.rows)
            && |n.repoFiles| == |snap.repoFiles|
            && (forall i :: 0 <= i < |snap.repoFiles| ==>
                  n.repoFiles[i] == if IsToolRepoFile(snap.repoFiles[i].path)
                                    then snap.repoFiles[i].(disposition := Actionable(false)) else snap.repoFiles[i])
            && |snap.rows| <= |n.rows| && n.rows[..|snap.rows|] == snap.rows
  {
    hide IsOwnRepoFile, IsToolRepoFile;
    forall i | 0 <= i < |snap.repoFiles|
      ensures IsOwnRepoFile(snap.repoFiles[i].path) <==> IsToolRepoFile(snap.repoFiles[i].path)
    {
      ToolRepoFileIsSpelled(snap.repoFiles[i].path);
    }
  }
}
