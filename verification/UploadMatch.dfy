/** Finding the repo-less package an uploaded RPM file belongs to. */
module UploadMatch {
  import opened Types
  import opened Strings
  import opened RpmFilename
  import opened SessionState
  import opened Views

  datatype MatchKind = Exact | VersionDiffers

  datatype Match = Match(canonical: string, kind: MatchKind, hostVersion: string, uploadedVersion: Option<string>)

  predicate IsRepoless(p: Package) {
    p.repolessAnnotation != ""
  }

  function HostVersion(p: Package): string {
    p.version + "-" + p.release
  }

  function FilenameOf(p: Package): string {
    NevraFilename(p.name, p.version, p.release, p.arch)
  }

  function FilenameKey(filename: string): Package -> bool {
    (p: Package) => IsRepoless(p) && FilenameOf(p) == filename
  }

  function RepolessKey(name: string, arch: string): Package -> bool {
    (p: Package) => IsRepoless(p) && p.name == name && p.arch == arch
  }

  // ----- What a match is -----

  /** `c` is `name` cut before one of its dashes, or all of it, and not empty. */
  predicate IsDashPrefix(c: string, name: string) {
    c != "" && c <= name && (|c| == |name| || name[|c|] == '-')
  }

  /** No dash prefix longer than `n` names a repo-less package of that arch. */
  ghost predicate NoneLonger(packages: seq<Package>, name: string, arch: string, n: nat) {
    forall d :: IsDashPrefix(d, name) && |d| > n ==> NoMatch(packages, RepolessKey(d, arch))
  }

  function MatchOf(p: Package, version: Option<string>): Match {
    var differs := version.Some? && version.value != HostVersion(p);
    var kind := if differs then VersionDiffers else Exact;
    Match(CanonicalId(p.name, p.arch), kind, HostVersion(p), if differs then version else None)
  }

  /** The longest dash prefix of the name read out of the file that a repo-less package of
      that arch carries decides; without one there is no match. */
  ghost predicate IsRelaxedMatch(packages: seq<Package>, p: Parsed, r: Option<Match>) {
    && (forall c, i ::
          IsDashPrefix(c, p.name) && IsFirst(packages, RepolessKey(c, p.arch), i)
          && NoneLonger(packages, p.name, p.arch, |c|)
          ==> r == Some(MatchOf(packages[i], p.versionRelease)))
    && (NoneLonger(packages, p.name, p.arch, 0) ==> r == None)
  }

  ghost predicate IsMatch(packages: seq<Package>, filename: string, r: Option<Match>) {
    && (forall i :: IsFirst(packages, FilenameKey(filename), i) ==> r == Some(MatchOf(packages[i], None)))
    && (NoMatch(packages, FilenameKey(filename)) ==>
          && (forall p :: Reads(filename, p) ==> IsRelaxedMatch(packages, p, r))
          && ((forall p :: !Reads(filename, p)) ==> r == None))
  }

  // ----- Matching -----

  function LastDash(s: string): (r: Option<nat>)
    ensures r.Some? ==> r.value < |s| && s[r.value] == '-' && forall i :: r.value < i < |s| ==> s[i] != '-'
    ensures r.None? ==> '-' !in s
  {
    if s == "" then None
    else if s[|s| - 1] == '-' then Some(|s| - 1)
    else LastDash(s[..|s| - 1])
  }

  /** The name and its dash prefixes, longest first. */
  method Candidates(name: string) returns (candidates: seq<string>)
    requires name != ""
    ensures forall c :: c in candidates <==> IsDashPrefix(c, name)
    ensures forall i, j :: 0 <= i < j < |candidates| ==> |candidates[i]| > |candidates[j]|
  {
    candidates := [name];
    assert forall c :: IsDashPrefix(c, name) && |c| >= |name| ==> c == name;
    var remaining := name;
    var at := LastDash(remaining);
    while at.Some?
      invariant remaining <= name && at == LastDash(remaining)
      invariant forall c :: c in candidates <==> IsDashPrefix(c, name) && |c| >= |remaining|
      invariant forall i, j :: 0 <= i < j < |candidates| ==> |candidates[i]| > |candidates[j]|
      decreases |remaining|
    {
      NextCandidate(name, |remaining|, at.value);
      remaining := remaining[..at.value];
      if remaining != "" {
        candidates := candidates + [remaining];
      }
      at := LastDash(remaining);
    }
    NoMoreCandidates(name, |remaining|);
  }

  lemma NextCandidate(name: string, n: nat, at: nat)
    requires at < n <= |name| && name[at] == '-' && forall i :: at < i < n ==> name[i] != '-'
    ensures forall c :: IsDashPrefix(c, name) && at <= |c| < n ==> c == name[..at]
    ensures at > 0 ==> IsDashPrefix(name[..at], name)
  {
  }

  lemma NoMoreCandidates(name: string, n: nat)
    requires n <= |name| && '-' !in name[..n]
    ensures forall c :: IsDashPrefix(c, name) ==> |c| >= n
  {
    assert forall i :: 0 <= i < n ==> name[..n][i] == name[i];
  }

  method MatchUploadedRpm(packages: seq<Package>, filename: string) returns (r: Option<Match>)
    ensures IsMatch(packages, filename, r)
  {
    hide Reads, IsDashPrefix;
    var exact := Find(packages, FilenameKey(filename));
    if exact.Some? {
      var p := packages[exact.value];
      assert forall i :: IsFirst(packages, FilenameKey(filename), i) ==> i == exact.value;
      return Some(Match(CanonicalId(p.name, p.arch), Exact, HostVersion(p), None));
    }
    var parsed := ParseUntrusted(filename);
    if parsed.None? {
      return None;
    }
    var rpm := parsed.value;
    assert Reads(filename, rpm);
    ReadsKnownArch(filename, rpm);
    r := RelaxedMatch(packages, rpm);
  }

  method RelaxedMatch(packages: seq<Package>, rpm: Parsed) returns (r: Option<Match>)
    requires rpm.name != ""
    ensures IsRelaxedMatch(packages, rpm, r)
  {
    hide IsDashPrefix, IsFirst, NoMatch;
    var candidates := Candidates(rpm.name);
    for k := 0 to |candidates|
      invariant forall j :: 0 <= j < k ==> NoMatch(packages, RepolessKey(candidates[j], rpm.arch))
    {
      var hit := Find(packages, RepolessKey(candidates[k], rpm.arch));
      if hit.Some? {
        FirstCandidateDecides(packages, rpm, candidates, k, hit.value);
        var p := packages[hit.value];
        var differs := rpm.versionRelease.Some? && rpm.versionRelease.value != HostVersion(p);
        return Some(Match(CanonicalId(p.name, p.arch), if differs then VersionDiffers else Exact, HostVersion(p),
                          if differs then rpm.versionRelease else None));
      }
    }
    NoCandidateDecides(packages, rpm, candidates);
    return None;
  }

  lemma FirstCandidateDecides(packages: seq<Package>, rpm: Parsed, candidates: seq<string>, k: nat, hit: nat)
    requires forall c :: c in candidates <==> IsDashPrefix(c, rpm.name)
    requires forall i, j :: 0 <= i < j < |candidates| ==> |candidates[i]| > |candidates[j]|
    requires k < |candidates| && IsFirst(packages, RepolessKey(candidates[k], rpm.arch), hit)
    requires forall j :: 0 <= j < k ==> NoMatch(packages, RepolessKey(candidates[j], rpm.arch))
    ensures IsRelaxedMatch(packages, rpm, Some(MatchOf(packages[hit], rpm.versionRelease)))
  {
    var chosen := candidates[k];
    assert chosen in candidates;
    forall c, i | IsDashPrefix(c, rpm.name) && IsFirst(packages, RepolessKey(c, rpm.arch), i)
      && NoneLonger(packages, rpm.name, rpm.arch, |c|)
      ensures i == hit
    {
      assert !NoMatch(packages, RepolessKey(c, rpm.arch)) && !NoMatch(packages, RepolessKey(chosen, rpm.arch));
      var j :| 0 <= j < |candidates| && candidates[j] == c;
    }
    assert !NoMatch(packages, RepolessKey(chosen, rpm.arch));
  }

  lemma NoCandidateDecides(packages: seq<Package>, rpm: Parsed, candidates: seq<string>)
    requires forall c :: c in candidates <==> IsDashPrefix(c, rpm.name)
    requires forall j :: 0 <= j < |candidates| ==> NoMatch(packages, RepolessKey(candidates[j], rpm.arch))
    ensures IsRelaxedMatch(packages, rpm, None)
  {
    forall c | IsDashPrefix(c, rpm.name)
      ensures NoMatch(packages, RepolessKey(c, rpm.arch))
    {
      var j :| 0 <= j < |candidates| && candidates[j] == c;
    }
  }

  // ----- What matching is good for -----

  /** RPM spells versions and releases without dashes and arches without dots. */
  ghost predicate NevraPackages(packages: seq<Package>) {
    forall i :: 0 <= i < |packages| ==>
      '-' !in packages[i].version && '-' !in packages[i].release && '.' !in packages[i].arch
  }

  /** A repo-less package's own filename matches that package, as `Exact`. */
  lemma OwnFilenameIsExact(packages: seq<Package>, i: nat, r: Option<Match>)
    requires NevraPackages(packages) && i < |packages| && IsRepoless(packages[i])
    requires IsMatch(packages, FilenameOf(packages[i]), r)
    ensures r == Some(Match(CanonicalId(packages[i].name, packages[i].arch), Exact, HostVersion(packages[i]), None))
  {
    hide Reads, NevraFilename;
    var filename := FilenameOf(packages[i]);
    var j := FirstExists(packages, FilenameKey(filename));
    assert FilenameKey(filename)(packages[i]);
    SameFilename(packages[i], packages[j.value]);
  }

  lemma SameFilename(p: Package, q: Package)
    requires '-' !in p.version && '-' !in p.release && '.' !in p.arch
    requires '-' !in q.version && '-' !in q.release && '.' !in q.arch
    requires FilenameOf(p) == FilenameOf(q)
    ensures p.name == q.name && p.version == q.version && p.release == q.release && p.arch == q.arch
  {
    NevraIsUnambiguous(p.name, p.version, p.release, p.arch, q.name, q.version, q.release, q.arch);
  }

  /** What a match names is a repo-less package, and recording an upload under that name
      finds the very package that matched. */
  lemma MatchNamesItsPackage(packages: seq<Package>, filename: string, m: Match)
    requires UniquePackages(packages) && IsMatch(packages, filename, Some(m))
    ensures exists i :: IsFirst(packages, CanonicalKey(m.canonical), i) && packages[i].repolessAnnotation != ""
              && m.hostVersion == packages[i].version + "-" + packages[i].release
  {
    hide Reads;
    var i := MatchedPackage(packages, filename, m);
    CanonicalKeyIsPackageKey(packages, i);
  }

  lemma MatchedPackage(packages: seq<Package>, filename: string, m: Match) returns (i: nat)
    requires IsMatch(packages, filename, Some(m))
    ensures i < |packages| && IsRepoless(packages[i])
    ensures m.canonical == CanonicalId(packages[i].name, packages[i].arch) && m.hostVersion == HostVersion(packages[i])
    ensures NoMatch(packages, FilenameKey(filename)) ==> exists p :: Reads(filename, p) && IsLongestHit(packages, p, i)
  {
    hide Reads, IsRelaxedMatch, FilenameOf, IsLongestHit;
    var exact := FirstExists(packages, FilenameKey(filename));
    if exact.Some? {
      i := exact.value;
    } else {
      var p :| Reads(filename, p);
      i := RelaxedPackage(packages, p, m);
    }
  }

  /** Package `i` carries the longest dash prefix that hits. */
  ghost predicate IsLongestHit(packages: seq<Package>, p: Parsed, i: nat) {
    && i < |packages| && packages[i].arch == p.arch && IsDashPrefix(packages[i].name, p.name)
    && NoneLonger(packages, p.name, p.arch, |packages[i].name|)
  }

  lemma RelaxedPackage(packages: seq<Package>, p: Parsed, m: Match) returns (i: nat)
    requires IsRelaxedMatch(packages, p, Some(m))
    ensures i < |packages| && IsRepoless(packages[i]) && IsLongestHit(packages, p, i)
    ensures m.canonical == CanonicalId(packages[i].name, packages[i].arch) && m.hostVersion == HostVersion(packages[i])
  {
    assert NoneLonger(packages, p.name, p.arch, |p.name|);
    hide IsDashPrefix;
    var c := LongestHit(packages, p.name, p.arch, |p.name|);
    var hit := FirstExists(packages, RepolessKey(c, p.arch));
    i := hit.value;
  }

  /** If some dash prefix of length at most `n` hits and none longer does, there is a longest. */
  lemma LongestHit(packages: seq<Package>, name: string, arch: string, n: nat) returns (c: string)
    requires NoneLonger(packages, name, arch, n) && !NoneLonger(packages, name, arch, 0)
    ensures IsDashPrefix(c, name) && !NoMatch(packages, RepolessKey(c, arch)) && NoneLonger(packages, name, arch, |c|)
  {
    hide IsDashPrefix, NoMatch;
    if d :| IsDashPrefix(d, name) && |d| == n && !NoMatch(packages, RepolessKey(d, arch)) {
      c := d;
    } else {
      c := LongestHit(packages, name, arch, n - 1);
    }
  }

  /** Some repo-less package of that arch carries the name. */
  ghost predicate IsCarried(packages: seq<Package>, name: string, arch: string) {
    !NoMatch(packages, RepolessKey(name, arch))
  }

  ghost predicate NoVersionIn(name: string) {
    forall k :: !VersionAt(name, k)
  }

  /** A file of `version` and `release` leads to package `p`: its arch is known, its name holds
      no dash before a digit, and where the version does not start with a digit no other
      repo-less package carries a name that swallows it. */
  ghost predicate IsFoundByFile(packages: seq<Package>, p: Package, version: string, release: string) {
    && p.arch in KNOWN_ARCHES && p.name != "" && NoVersionIn(p.name)
    && (StartsWithDigit(version)
        || (!IsCarried(packages, p.name + "-" + version, p.arch)
            && (StartsWithDigit(release) || !IsCarried(packages, p.name + "-" + version + "-" + release, p.arch))))
  }

  /** Without a version read out of the file there is nothing to differ. */
  function KindTold(told: Option<string>): MatchKind {
    if told.Some? then VersionDiffers else Exact
  }

  /** A file of another version of a repo-less package matches that package if and only if
      `IsFoundByFile`, and then it reports the version it read, if it read any. */
  lemma OtherVersionIsExact(packages: seq<Package>, i: nat, version: string, release: string, r: Option<Match>)
    requires UniquePackages(packages) && NevraPackages(packages) && i < |packages| && IsRepoless(packages[i])
    requires '-' !in version && '-' !in release && (version != packages[i].version || release != packages[i].release)
    requires IsMatch(packages, NevraFilename(packages[i].name, version, release, packages[i].arch), r)
    ensures var p := packages[i];
            (r.Some? && r.value.canonical == CanonicalId(p.name, p.arch)) <==>
              IsFoundByFile(packages, p, version, release)
    ensures var p, told := packages[i], ReadVersion(version, release);
            IsFoundByFile(packages, p, version, release) ==>
              r == Some(Match(CanonicalId(p.name, p.arch), KindTold(told), HostVersion(p), told))
  {
    hide Reads, NevraFilename, IsRelaxedMatch, NoVersionIn, StartsWithDigit, ReadVersion, UniquePackages;
    var p := packages[i];
    OnlyItsOwnFilename(packages, i, version, release);
    if IsFoundByFile(packages, p, version, release) {
      FoundFileMatches(packages, i, version, release, r);
    } else if r.Some? && r.value.canonical == CanonicalId(p.name, p.arch) {
      LostFileMatchesNot(packages, i, version, release, r.value);
    }
  }

  lemma FoundFileMatches(packages: seq<Package>, i: nat, version: string, release: string, r: Option<Match>)
    requires UniquePackages(packages) && i < |packages| && IsRepoless(packages[i])
    requires '-' !in packages[i].release && '-' !in version && '-' !in release
    requires version != packages[i].version || release != packages[i].release
    requires IsFoundByFile(packages, packages[i], version, release)
    requires var filename := NevraFilename(packages[i].name, version, release, packages[i].arch);
             IsMatch(packages, filename, r) && NoMatch(packages, FilenameKey(filename))
    ensures var p, told := packages[i], ReadVersion(version, release);
            r == Some(Match(CanonicalId(p.name, p.arch), KindTold(told), HostVersion(p), told))
  {
    hide Reads, NevraFilename, IsMatch, IsRelaxedMatch, ReadVersion, ReadName, NoneLonger, IsDashPrefix, NoVersionIn,
      UniquePackages;
    var p := packages[i];
    var q := Parsed(ReadName(p.name, version, release), p.arch, ReadVersion(version, release));
    FoundFileReads(p, version, release);
    RelaxedDecides(packages, NevraFilename(p.name, version, release, p.arch), q, r);
    LongerNames(p.name, version, release);
    NoCarriedNoneLonger(packages, p, version, release);
    PrefixPackageMatches(packages, i, q, r);
    ReadVersionDiffers(p, version, release);
  }

  lemma FoundFileReads(p: Package, version: string, release: string)
    requires p.name != "" && NoVersionIn(p.name) && p.arch in KNOWN_ARCHES && '-' !in version && '-' !in release
    ensures var q := Parsed(ReadName(p.name, version, release), p.arch, ReadVersion(version, release));
            Reads(NevraFilename(p.name, version, release, p.arch), q)
  {
    hide Reads, NevraFilename, ReadVersion, VersionAt;
    assert ReadName(p.name, version, release) != "";
    NevraReadsBack(p.name, version, release, p.arch);
  }

  lemma RelaxedDecides(packages: seq<Package>, filename: string, q: Parsed, r: Option<Match>)
    requires IsMatch(packages, filename, r) && NoMatch(packages, FilenameKey(filename)) && Reads(filename, q)
    ensures IsRelaxedMatch(packages, q, r)
  {
    hide Reads, IsRelaxedMatch, FilenameOf;
  }

  /** The dash prefixes of what is read as the name that reach past the package's own name. */
  lemma LongerNames(name: string, version: string, release: string)
    requires name != "" && '-' !in version && '-' !in release
    ensures var read := ReadName(name, version, release);
            && IsDashPrefix(name, read)
            && forall d :: IsDashPrefix(d, read) && |d| > |name| ==>
                 !StartsWithDigit(version)
                 && (d == name + "-" + version
                   || (!StartsWithDigit(release) && d == name + "-" + version + "-" + release))
  {
    var read, middle := ReadName(name, version, release), name + "-" + version;
    if !StartsWithDigit(version) {
      assert read == middle || read == middle + ("-" + release);
      assert forall j :: |name| < j < |middle| ==> read[j] == version[j - |name| - 1];
      assert forall j :: |middle| < j < |read| ==> read[j] == release[j - |middle| - 1];
      forall d | IsDashPrefix(d, read) && |d| > |name|
        ensures d == middle || (!StartsWithDigit(release) && d == read)
      {
        assert |d| == |middle| || |d| == |read|;
        assert d == read[..|d|];
      }
    }
  }

  lemma NoCarriedNoneLonger(packages: seq<Package>, p: Package, version: string, release: string)
    requires IsFoundByFile(packages, p, version, release) && '-' !in version && '-' !in release
    ensures NoneLonger(packages, ReadName(p.name, version, release), p.arch, |p.name|)
  {
    hide IsDashPrefix, ReadName, StartsWithDigit, NoVersionIn, NoMatch;
    LongerNames(p.name, version, release);
  }

  lemma ReadVersionDiffers(p: Package, version: string, release: string)
    requires '-' !in p.release && '-' !in release && (version != p.version || release != p.release)
    ensures ReadVersion(version, release) != Some(HostVersion(p))
  {
    DifferentHostVersion(p, version, release);
    assert HostVersion(p)[|p.version|] == '-';
  }

  lemma PrefixPackageMatches(packages: seq<Package>, i: nat, rpm: Parsed, r: Option<Match>)
    requires UniquePackages(packages) && i < |packages| && IsRepoless(packages[i]) && IsRelaxedMatch(packages, rpm, r)
    requires IsDashPrefix(packages[i].name, rpm.name) && rpm.arch == packages[i].arch
    requires NoneLonger(packages, rpm.name, rpm.arch, |packages[i].name|)
    ensures r == Some(MatchOf(packages[i], rpm.versionRelease))
  {
    assert IsFirst(packages, RepolessKey(packages[i].name, rpm.arch), i);
  }

  lemma LostFileMatchesNot(packages: seq<Package>, i: nat, version: string, release: string, m: Match)
    requires UniquePackages(packages) && i < |packages| && IsRepoless(packages[i])
    requires '-' !in version && '-' !in release
    requires var filename := NevraFilename(packages[i].name, version, release, packages[i].arch);
             IsMatch(packages, filename, Some(m)) && NoMatch(packages, FilenameKey(filename))
    requires m.canonical == CanonicalId(packages[i].name, packages[i].arch)
    ensures IsFoundByFile(packages, packages[i], version, release)
  {
    hide Reads, NevraFilename, IsMatch, VersionAt;
    var p := packages[i];
    var filename := NevraFilename(p.name, version, release, p.arch);
    var j := MatchedPackage(packages, filename, m);
    CanonicalKeyIsPackageKey(packages, i);
    assert j == i;
    var q :| Reads(filename, q) && IsLongestHit(packages, q, i);
    ReadsKnownArch(filename, q);
    if k :| VersionAt(p.name, k) {
      NevraNameIsCut(p.name, version, release, p.arch, k, q);
      assert |q.name| < |p.name| by { VersionIsInside(p.name, k); }
    } else {
      NevraReadsBack(p.name, version, release, p.arch);
      LongestIsUncarried(packages, i, version, release);
    }
  }

  lemma VersionIsInside(name: string, k: int)
    requires VersionAt(name, k)
    ensures k < |name|
  {
  }

  lemma LongestIsUncarried(packages: seq<Package>, i: nat, version: string, release: string)
    requires i < |packages| && packages[i].name != "" && packages[i].arch in KNOWN_ARCHES
               && NoVersionIn(packages[i].name)
    requires NoneLonger(packages, ReadName(packages[i].name, version, release), packages[i].arch, |packages[i].name|)
    ensures IsFoundByFile(packages, packages[i], version, release)
  {
    hide NoMatch, NoVersionIn;
    var name := packages[i].name;
    var read := ReadName(name, version, release);
    if !StartsWithDigit(version) {
      assert IsDashPrefix(name + "-" + version, read);
      assert IsDashPrefix(read, read);
    }
  }

  lemma OnlyItsOwnFilename(packages: seq<Package>, i: nat, version: string, release: string)
    requires UniquePackages(packages) && NevraPackages(packages) && i < |packages|
    requires '-' !in version && '-' !in release && (version != packages[i].version || release != packages[i].release)
    ensures NoMatch(packages, FilenameKey(NevraFilename(packages[i].name, version, release, packages[i].arch)))
  {
    hide NevraFilename;
    var p := packages[i];
    forall j | 0 <= j < |packages|
      ensures FilenameOf(packages[j]) != NevraFilename(p.name, version, release, p.arch)
    {
      var q := packages[j];
      if FilenameOf(q) == NevraFilename(p.name, version, release, p.arch) {
        NevraIsUnambiguous(q.name, q.version, q.release, q.arch, p.name, version, release, p.arch);
      }
    }
  }

  lemma DifferentHostVersion(p: Package, version: string, release: string)
    requires '-' !in p.release && '-' !in release && (version != p.version || release != p.release)
    ensures version + "-" + release != HostVersion(p)
  {
    if version + "-" + release == p.version + "-" + p.release {
      LastSplit(version, release, p.version, p.release, '-');
    }
  }

  // ----- Two files the matcher gets wrong -----

  function LonePackage(name: string): Package {
    Package(name, "1", "1", "x86_64", NoRepo, Actionable(false), false, "", "no repo", false, false, None, None, None)
  }

  /** A package with a dash before a digit in its name is not found by a file of its next
      version. */
  lemma DottedNameIsLost(r: Option<Match>)
    requires IsMatch([LonePackage("dotnet-8")], NevraFilename("dotnet-8", "2", "1", "x86_64"), r)
    ensures r.None?
  {
    hide IsMatch, NevraFilename;
    var packages := [LonePackage("dotnet-8")];
    assert VersionAt("dotnet-8", 6);
    OtherVersionIsExact(packages, 0, "2", "1", r);
    if r.Some? {
      var j := MatchedPackage(packages, NevraFilename("dotnet-8", "2", "1", "x86_64"), r.value);
    }
  }

  /** A file whose version and release start with letters is taken for the version the host
      has. */
  lemma LetterVersionIsTakenForTheHosts(r: Option<Match>)
    requires IsMatch([LonePackage("tool")], NevraFilename("tool", "v2", "rc", "x86_64"), r)
    ensures r == Some(Match("tool.x86_64", Exact, "1-1", None))
  {
    hide IsMatch, NevraFilename;
    var packages := [LonePackage("tool")];
    assert HostVersion(packages[0]) == "1-1" && CanonicalId("tool", "x86_64") == "tool.x86_64";
    assert !IsCarried(packages, "tool" + "-" + "v2", "x86_64")
      && !IsCarried(packages, "tool" + "-" + "v2" + "-" + "rc", "x86_64");
    OtherVersionIsExact(packages, 0, "v2", "rc", r);
  }
}
