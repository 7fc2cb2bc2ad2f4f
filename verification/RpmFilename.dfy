/** RPM filenames: reading name, version and arch out of one, and the staged-name allowlist.
    A character stands for one byte of the filename. */
module RpmFilename {
  import opened Types
  import opened Strings

  const KNOWN_ARCHES := ["x86_64", "aarch64", "ppc64le", "s390x", "i686", "i386", "armv7hl", "noarch", "src"]

  const MAX_UPLOAD_FILENAME_LEN := 200

  // ----- The suffix -----

  predicate IsRpmSuffix(suffix: string) {
    Fold(suffix) == ".rpm"
  }

  function StripRpmSuffix(s: string): (r: Option<string>)
    ensures r.Some? ==> r.value <= s && IsRpmSuffix(s[|r.value|..])
    ensures r.None? ==> forall stem, suffix :: s == stem + suffix ==> !IsRpmSuffix(suffix)
  {
    if |s| < 4 || !IsRpmSuffix(s[|s| - 4..]) then None else Some(s[..|s| - 4])
  }

  // ----- What a filename says -----

  datatype Parsed = Parsed(name: string, arch: string, versionRelease: Option<string>)

  /** A version starts at a dash that a digit follows. */
  predicate VersionAt(s: string, i: int) {
    0 <= i < |s| - 1 && s[i] == '-' && IsDigit(s[i + 1])
  }

  ghost predicate IsParsed(p: Parsed) {
    && p.arch in KNOWN_ARCHES
    && p.name != ""
    && (forall i :: !VersionAt(p.name, i))
    && (p.versionRelease.Some? ==> p.versionRelease.value != "" && IsDigit(p.versionRelease.value[0]))
  }

  function Body(p: Parsed): string {
    if p.versionRelease.Some? then p.name + "-" + p.versionRelease.value else p.name
  }

  ghost predicate ReadsStem(stem: string, p: Parsed) {
    IsParsed(p) && (stem == Body(p) + ("." + p.arch) || stem == Body(p) + ("_" + p.arch))
  }

  /** The filename is `p` written out: name, dash and version if there is one, a dot or an
      underscore, the arch, and `.rpm` in any case. */
  ghost predicate Reads(filename: string, p: Parsed) {
    exists stem, suffix :: filename == stem + suffix && IsRpmSuffix(suffix) && ReadsStem(stem, p)
  }

  // ----- Parsing -----

  predicate HasArch(stem: string, arch: string) {
    EndsWith(stem, "." + arch) || EndsWith(stem, "_" + arch)
  }

  method FindArch(stem: string) returns (r: Option<string>)
    ensures r.Some? ==> r.value in KNOWN_ARCHES && HasArch(stem, r.value)
    ensures r.None? ==> forall a :: a in KNOWN_ARCHES ==> !HasArch(stem, a)
  {
    for i := 0 to |KNOWN_ARCHES|
      invariant forall j :: 0 <= j < i ==> !HasArch(stem, KNOWN_ARCHES[j])
    {
      if HasArch(stem, KNOWN_ARCHES[i]) {
        return Some(KNOWN_ARCHES[i]);
      }
    }
    return None;
  }

  method FindVersion(s: string) returns (r: Option<nat>)
    ensures r.Some? ==> VersionAt(s, r.value) && forall i :: i < r.value ==> !VersionAt(s, i)
    ensures r.None? ==> forall i :: !VersionAt(s, i)
  {
    for i := 0 to |s|
      invariant forall j :: j < i ==> !VersionAt(s, j)
    {
      if i + 1 < |s| && s[i] == '-' && IsDigit(s[i + 1]) {
        return Some(i);
      }
    }
    return None;
  }

  /** Parsing finds the one reading of a filename, and fails only on a filename with none. */
  method ParseUntrusted(filename: string) returns (r: Option<Parsed>)
    ensures forall p :: r == Some(p) <==> Reads(filename, p)
  {
    hide Reads, ReadsStem, IsRpmSuffix;
    var stripped := StripRpmSuffix(filename);
    if stripped.None? {
      SuffixIsNeeded(filename);
      return None;
    }
    var stem := stripped.value;
    StemDecides(filename, stem);
    var arch := FindArch(stem);
    if arch.None? {
      ArchIsNeeded(stem);
      return None;
    }
    var beforeArch := stem[..|stem| - |arch.value| - 1];
    BodyDecides(stem, arch.value);
    if beforeArch == "" {
      return None;
    }
    var nameEnd := FindVersion(beforeArch);
    if nameEnd.None? {
      NoVersionDecides(beforeArch, arch.value);
      return Some(Parsed(beforeArch, arch.value, None));
    }
    VersionDecides(beforeArch, arch.value, nameEnd.value);
    var name, version := beforeArch[..nameEnd.value], beforeArch[nameEnd.value + 1..];
    if name == "" {
      return None;
    }
    return Some(Parsed(name, arch.value, Some(version)));
  }

  // ----- Why there is at most one reading -----

  lemma SuffixIsNeeded(filename: string)
    requires StripRpmSuffix(filename).None?
    ensures forall p :: !Reads(filename, p)
  {
  }

  lemma StemDecides(filename: string, stem: string)
    requires stem <= filename && IsRpmSuffix(filename[|stem|..])
    ensures forall p :: Reads(filename, p) <==> ReadsStem(stem, p)
  {
    hide ReadsStem;
    forall other, suffix | filename == other + suffix && IsRpmSuffix(suffix)
      ensures other == stem
    {
      assert |suffix| == 4 && |filename[|stem|..]| == 4;
    }
    assert filename == stem + filename[|stem|..];
  }

  lemma ArchIsNeeded(stem: string)
    requires forall a :: a in KNOWN_ARCHES ==> !HasArch(stem, a)
    ensures forall p :: !ReadsStem(stem, p)
  {
  }

  lemma KnownArchFacts(a: string)
    requires a in KNOWN_ARCHES
    ensures |a| >= 3 && '.' !in a && forall i :: 0 <= i < |a| - 3 ==> a[i] != '_'
  {
  }

  lemma ArchIsUnique(stem: string, a: string, b: string)
    requires a in KNOWN_ARCHES && b in KNOWN_ARCHES && HasArch(stem, a) && HasArch(stem, b)
    ensures a == b
  {
    KnownArchFacts(a);
    KnownArchFacts(b);
    if |a| < |b| {
      ShorterArchIsInside(stem, a, b);
    } else if |b| < |a| {
      ShorterArchIsInside(stem, b, a);
    } else {
      assert stem[|stem| - |a|..] == a && stem[|stem| - |b|..] == b;
    }
  }

  lemma ShorterArchIsInside(stem: string, a: string, b: string)
    requires HasArch(stem, a) && HasArch(stem, b) && |a| < |b|
    ensures b[|b| - |a| - 1] == '.' || b[|b| - |a| - 1] == '_'
  {
    assert stem[|stem| - |a| - 1] == '.' || stem[|stem| - |a| - 1] == '_';
    assert stem[|stem| - |b|..] == b;
    assert stem[|stem| - |a| - 1] == stem[|stem| - |b|..][|b| - |a| - 1];
  }

  lemma BodyDecides(stem: string, arch: string)
    requires arch in KNOWN_ARCHES && HasArch(stem, arch)
    ensures forall p :: ReadsStem(stem, p) <==> IsParsed(p) && p.arch == arch && Body(p) == stem[..|stem| - |arch| - 1]
  {
    var before := stem[..|stem| - |arch| - 1];
    assert forall p :: IsParsed(p) ==> p.arch in KNOWN_ARCHES;
    hide IsParsed, Body;
    assert stem == before + ("." + arch) || stem == before + ("_" + arch);
    forall p
      ensures ReadsStem(stem, p) <==> IsParsed(p) && p.arch == arch && Body(p) == before
    {
      if ReadsStem(stem, p) {
        ArchIsUnique(stem, p.arch, arch);
      }
    }
  }

  lemma NoVersionDecides(before: string, arch: string)
    requires before != "" && arch in KNOWN_ARCHES && forall i :: !VersionAt(before, i)
    ensures forall p :: IsParsed(p) && p.arch == arch && Body(p) == before <==> p == Parsed(before, arch, None)
  {
    forall p | IsParsed(p) && p.arch == arch && Body(p) == before
      ensures p == Parsed(before, arch, None)
    {
      if p.versionRelease.Some? {
        VersionIsAfterName(p);
      }
    }
  }

  lemma VersionDecides(before: string, arch: string, at: nat)
    requires arch in KNOWN_ARCHES && VersionAt(before, at) && forall i :: i < at ==> !VersionAt(before, i)
    ensures forall p :: IsParsed(p) && p.arch == arch && Body(p) == before <==>
              at > 0 && p == Parsed(before[..at], arch, Some(before[at + 1..]))
  {
    var name, version := before[..at], before[at + 1..];
    assert before == name + "-" + version;
    assert forall i :: VersionAt(name, i) ==> VersionAt(before, i);
    forall p | IsParsed(p) && p.arch == arch && Body(p) == before
      ensures at > 0 && p == Parsed(name, arch, Some(version))
    {
      if p.versionRelease.Some? {
        VersionIsAfterName(p);
        assert at == |p.name|;
        assert before[..at] == p.name && before[at + 1..] == p.versionRelease.value;
      }
    }
  }

  lemma VersionIsAfterName(p: Parsed)
    requires IsParsed(p) && p.versionRelease.Some?
    ensures VersionAt(Body(p), |p.name|) && forall i :: i < |p.name| ==> !VersionAt(Body(p), i)
  {
    var s := Body(p);
    forall i | i < |p.name|
      ensures !VersionAt(s, i)
    {
      assert !VersionAt(p.name, i);
    }
  }

  // ----- NEVRA filenames -----

  function NevraFilename(name: string, version: string, release: string, arch: string): string {
    name + "-" + version + "-" + release + "." + arch + ".rpm"
  }

  /** `name-version-release.arch.rpm` can be taken apart in one way only. */
  lemma NevraIsUnambiguous(n: string, v: string, r: string, a: string, n': string, v': string, r': string, a': string)
    requires '-' !in v && '-' !in r && '-' !in v' && '-' !in r' && '.' !in a && '.' !in a'
    requires NevraFilename(n, v, r, a) == NevraFilename(n', v', r', a')
    ensures n == n' && v == v' && r == r' && a == a'
  {
    var nv, nv' := n + "-" + v, n' + "-" + v';
    var nvr, nvr' := nv + "-" + r, nv' + "-" + r';
    assert NevraFilename(n, v, r, a) == (nvr + "." + a) + ".rpm";
    assert NevraFilename(n', v', r', a') == (nvr' + "." + a') + ".rpm";
    SameEnd(nvr + "." + a, nvr' + "." + a', ".rpm");
    LastSplit(nvr, a, nvr', a', '.');
    LastSplit(nv, r, nv', r', '-');
    LastSplit(n, v, n', v', '-');
  }

  lemma SameEnd(s: string, t: string, end: string)
    requires s + end == t + end
    ensures s == t
  {
    assert |s| == |t|;
    assert (s + end)[..|s|] == s && (t + end)[..|t|] == t;
  }

  predicate StartsWithDigit(s: string) {
    s != "" && IsDigit(s[0])
  }

  /** What parsing takes for the version-release of a NEVRA filename: it starts at a dash
      before a digit. */
  function ReadVersion(version: string, release: string): Option<string> {
    if StartsWithDigit(version) then Some(version + "-" + release)
    else if StartsWithDigit(release) then Some(release)
    else None
  }

  /** And what it takes for the name. */
  function ReadName(name: string, version: string, release: string): string {
    if StartsWithDigit(version) then name
    else if StartsWithDigit(release) then name + "-" + version
    else name + "-" + version + "-" + release
  }

  lemma NevraBodyDecides(n: string, v: string, r: string, a: string)
    requires a in KNOWN_ARCHES
    ensures forall p :: Reads(NevraFilename(n, v, r, a), p) <==>
              IsParsed(p) && p.arch == a && Body(p) == n + "-" + v + "-" + r
  {
    assert IsRpmSuffix(".rpm");
    hide ReadsStem, IsRpmSuffix, IsParsed, Body;
    var body := n + "-" + v + "-" + r;
    var stem := body + "." + a;
    assert NevraFilename(n, v, r, a) == stem + ".rpm";
    StemDecides(NevraFilename(n, v, r, a), stem);
    assert stem == body + ("." + a);
    assert stem[..|stem| - |a| - 1] == body;
    BodyDecides(stem, a);
  }

  /** Where a version can start when the name holds no dash before a digit. */
  lemma VersionsInNevra(n: string, v: string, r: string, i: int)
    requires (forall k :: !VersionAt(n, k)) && '-' !in v && '-' !in r
    ensures VersionAt(n + "-" + v + "-" + r, i) <==>
            (i == |n| && StartsWithDigit(v)) || (i == |n| + 1 + |v| && StartsWithDigit(r))
  {
    var body := n + "-" + v + "-" + r;
    assert !VersionAt(n, i);
    assert forall j :: 0 <= j < |n| ==> body[j] == n[j];
    assert body[|n|] == '-' && body[|n| + 1 + |v|] == '-';
    assert forall j :: 0 <= j < |v| ==> body[|n| + 1 + j] == v[j];
    assert forall j :: 0 <= j < |r| ==> body[|n| + 1 + |v| + 1 + j] == r[j];
    if |n| < i < |n| + 1 + |v| {
      assert body[i] == v[i - |n| - 1];
    }
    if |n| + 1 + |v| < i < |body| {
      assert body[i] == r[i - |n| - 2 - |v|];
    }
  }

  /** How a NEVRA filename of a known arch reads when the name holds no dash before a digit:
      as its own fields when the version starts with a digit, else the name swallows the
      version, and the release too unless that starts with a digit. */
  lemma NevraReadsBack(n: string, v: string, r: string, a: string)
    requires (forall i :: !VersionAt(n, i)) && '-' !in v && '-' !in r && a in KNOWN_ARCHES
    ensures forall p :: Reads(NevraFilename(n, v, r, a), p) <==>
              ReadName(n, v, r) != "" && p == Parsed(ReadName(n, v, r), a, ReadVersion(v, r))
  {
    hide Reads, NevraFilename, IsParsed, Body, VersionAt;
    NevraBodyDecides(n, v, r, a);
    var body := n + "-" + v + "-" + r;
    forall i
      ensures VersionAt(body, i) <==> (i == |n| && StartsWithDigit(v)) || (i == |n| + 1 + |v| && StartsWithDigit(r))
    {
      VersionsInNevra(n, v, r, i);
    }
    if StartsWithDigit(v) {
      VersionDecides(body, a, |n|);
      assert body[..|n|] == n && body[|n| + 1..] == v + "-" + r;
    } else if StartsWithDigit(r) {
      var at := |n| + 1 + |v|;
      VersionDecides(body, a, at);
      assert body[..at] == n + "-" + v && body[at + 1..] == r;
    } else {
      NoVersionDecides(body, a);
    }
  }

  /** A name with a dash before a digit is cut there. */
  lemma NevraNameIsCut(n: string, v: string, r: string, a: string, k: int, p: Parsed)
    requires VersionAt(n, k) && a in KNOWN_ARCHES && Reads(NevraFilename(n, v, r, a), p)
    ensures |p.name| <= k
  {
    hide Reads, NevraFilename;
    NevraBodyDecides(n, v, r, a);
    assert VersionAt(Body(p), k);
    if p.versionRelease.Some? {
      VersionIsAfterName(p);
    }
  }

  lemma ReadsKnownArch(filename: string, p: Parsed)
    requires Reads(filename, p)
    ensures p.arch in KNOWN_ARCHES && p.name != ""
  {
  }

  // ----- The staged-name allowlist -----

  datatype NameError = Empty | TooLong | BadFirstByte | BadByte(at: nat) | NotRpm

  predicate IsAlphanumeric(c: char) {
    IsDigit(c) || 'a' <= c <= 'z' || 'A' <= c <= 'Z'
  }

  predicate IsAllowedNameByte(c: char) {
    IsAlphanumeric(c) || c == '.' || c == '_' || c == '+' || c == '~' || c == '^' || c == '-'
  }

  /** The allowlist as documented: allowed bytes only, the first a letter or digit, ending in
      `.rpm` in any case, at most 200 bytes. */
  ghost predicate IsStagedName(name: string) {
    && |name| <= MAX_UPLOAD_FILENAME_LEN
    && (forall i :: 0 <= i < |name| ==> IsAllowedNameByte(name[i]))
    && name != "" && IsAlphanumeric(name[0])
    && exists stem, suffix :: name == stem + suffix && IsRpmSuffix(suffix)
  }

  /** Accepts exactly the allowlist, and a bad byte is reported where it first occurs. */
  method ValidateStagedName(name: string) returns (error: Option<NameError>)
    ensures error == None <==> IsStagedName(name)
    ensures error == Some(Empty) <==> name == ""
    ensures error == Some(TooLong) <==> |name| > MAX_UPLOAD_FILENAME_LEN
    ensures error == Some(BadFirstByte) ==> !IsAlphanumeric(name[0])
    ensures forall at: nat :: error == Some(BadByte(at)) ==>
              0 < at < |name| && !IsAllowedNameByte(name[at]) && forall i :: 0 <= i < at ==> IsAllowedNameByte(name[i])
    ensures error == Some(NotRpm) ==> forall stem, suffix :: name == stem + suffix ==> !IsRpmSuffix(suffix)
  {
    hide IsRpmSuffix;
    if name == "" {
      return Some(Empty);
    }
    if |name| > MAX_UPLOAD_FILENAME_LEN {
      return Some(TooLong);
    }
    var stem := StripRpmSuffix(name);
    if stem.None? {
      return Some(NotRpm);
    }
    if !IsAlphanumeric(name[0]) {
      return Some(BadFirstByte);
    }
    for i := 1 to |name|
      invariant forall j :: 0 <= j < i ==> IsAllowedNameByte(name[j])
    {
      if !IsAllowedNameByte(name[i]) {
        return Some(BadByte(i));
      }
    }
    assert name == stem.value + name[|stem.value|..];
    return None;
  }

  /** A name that passes is a plain basename of at least five bytes, however it was spelled. */
  lemma StagedNameIsPlain(name: string)
    requires IsStagedName(name)
    ensures |name| >= 5
    ensures '/' !in name && '\0' !in name && name[0] != '.' && name[0] != '-'
  {
    var stem, suffix :| name == stem + suffix && IsRpmSuffix(suffix);
    assert |suffix| == 4 && AsciiLower(suffix[0]) == '.' by {
      assert Fold(suffix)[0] == AsciiLower(suffix[0]);
    }
    assert name[|stem|] == suffix[0];
  }

  /** The arches a filename can end in. */
  lemma KnownArchesAre(a: string)
    ensures a in KNOWN_ARCHES <==>
              a in ["x86_64", "aarch64", "ppc64le", "s390x", "i686", "i386", "armv7hl", "noarch", "src"]
  {
  }

  predicate IsLetterOrDigit(c: char) {
    'a' <= c <= 'z' || 'A' <= c <= 'Z' || '0' <= c <= '9'
  }

  /** The allowlist in characters. */
  lemma StagedNameIsExact(name: string)
    ensures IsStagedName(name) <==>
              && 5 <= |name| <= 200
              && IsLetterOrDigit(name[0])
              && (forall i :: 0 <= i < |name| ==>
                    IsLetterOrDigit(name[i]) || name[i] == '.' || name[i] == '_' || name[i] == '+' || name[i] == '~'
                    || name[i] == '^' || name[i] == '-')
              && name[|name| - 4] == '.' && (name[|name| - 3] == 'r' || name[|name| - 3] == 'R')
              && (name[|name| - 2] == 'p' || name[|name| - 2] == 'P')
                && (name[|name| - 1] == 'm' || name[|name| - 1] == 'M')
  {
    if |name| >= 4 {
      SuffixIsSpelled(name[|name| - 4..]);
      assert name == name[..|name| - 4] + name[|name| - 4..];
    }
    forall stem, suffix | name == stem + suffix && IsRpmSuffix(suffix)
      ensures |name| >= 4 && suffix == name[|name| - 4..]
    {
      assert |Fold(suffix)| == |suffix|;
    }
    if IsStagedName(name) {
      StagedNameIsPlain(name);
    }
  }

  lemma SuffixIsSpelled(s: string)
    ensures IsRpmSuffix(s) <==>
              |s| == 4 && s[0] == '.' && (s[1] == 'r' || s[1] == 'R') && (s[2] == 'p' || s[2] == 'P')
              && (s[3] == 'm' || s[3] == 'M')
  {
    assert |Fold(s)| == |s|;
    if |s| == 4 {
      assert Fold(s) == [AsciiLower(s[0]), AsciiLower(s[1]), AsciiLower(s[2]), AsciiLower(s[3])];
    }
  }
}
