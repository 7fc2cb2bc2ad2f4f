/** The data the refine session edits: an inspected host reduced to the parts whose
    include/exclude decision a timeline of refinement ops can change. */
module Types {
  datatype Option<+T> = None | Some(value: T)

  // ----- ASCII case folding and repo ids -----

  function AsciiLower(c: char): char {
    if 'A' <= c <= 'Z' then (c as int + 32) as char else c
  }

  function Fold(s: string): string {
    seq(|s|, i requires 0 <= i < |s| => AsciiLower(s[i]))
  }

  /** A repo section id up to ASCII case: ids that compare equal are one folded string. */
  type RepoId = string

  // ----- Dispositions -----

  datatype FindingKind = Actionable(included: bool) | Advisory(rationale: string) | Inventory {
    predicate IsIncluded() {
      this == Actionable(true)
    }

    /** Only an actionable finding takes a new include flag. */
    function WithInclude(keep: bool): FindingKind {
      if Actionable? then Actionable(keep) else this
    }
  }

  // ----- Packages -----

  datatype PackageState = Added | BaseImageOnly | Modified | LocalInstall | NoRepo

  datatype Prevalence = Prevalence(count: int, total: int)

  datatype Package = Package(
    name: string,
    version: string,
    release: string,
    arch: string,
    state: PackageState,
    disposition: FindingKind,
    locked: bool,
    sourceRepo: string,
    repolessAnnotation: string,
    repolessCached: bool,
    uploaded: bool,
    cachePath: Option<string>,
    uploadedVersion: Option<string>,
    aggregate: Option<Prevalence>)

  function CanonicalId(name: string, arch: string): string {
    name + "." + arch
  }

  // ----- Repositories -----

  datatype Section = Section(id: string, enabled: bool, hasSource: bool, gpgKeyPaths: seq<string>)

  datatype RepoFile = RepoFile(path: string, sections: seq<Section>, disposition: FindingKind, locked: bool)

  datatype GpgKey = GpgKey(path: string, disposition: FindingKind)

  // ----- Groups, configs, services -----

  datatype Group = Group(name: string, members: seq<string>)

  datatype ConfigKind = RpmOwnedDefault | RpmOwnedModified | Unowned | Orphaned | BaselineMatch

  datatype ConfigFile = ConfigFile(path: string, kind: ConfigKind, disposition: FindingKind, locked: bool)

  datatype UnitState = UnitEnabled | UnitDisabled | UnitMasked

  datatype PresetDefault = PresetEnable | PresetDisable

  datatype ServiceRow = ServiceRow(
    unit: string,
    currentState: UnitState,
    defaultState: Option<PresetDefault>,
    owningPackage: Option<string>,
    disposition: FindingKind,
    locked: bool)

  datatype DropIn = DropIn(path: string, unit: string, fullShadow: bool, disposition: FindingKind, locked: bool)

  // ----- Facts no op ever writes -----

  datatype Ownership = Ownership(package: string, paths: seq<string>)

  datatype VersionChange = VersionChange(name: string, arch: string, downgrade: bool)

  datatype Facts = Facts(
    baseline: Option<set<string>>,
    suppressed: set<string>,
    versionChanges: seq<VersionChange>,
    ownership: seq<Ownership>,
    leafPackages: Option<set<string>>,
    leafDepTree: map<string, seq<string>>,
    hasServices: bool,
    hasConfig: bool,
    enabledUnits: set<string>,
    disabledUnits: set<string>,
    unresolvedHints: set<string>)

  /** An absent section of the inspected host is an empty list here; the two presence
      bits classification asks for are kept in `Facts`. */
  datatype Snapshot = Snapshot(
    packages: seq<Package>,
    repoFiles: seq<RepoFile>,
    gpgKeys: seq<GpgKey>,
    groups: seq<Group>,
    configs: seq<ConfigFile>,
    rows: seq<ServiceRow>,
    dropIns: seq<DropIn>,
    facts: Facts)

  // ----- Refinement ops and the timeline -----

  datatype ItemId =
    | PackageItem(name: string, arch: string)
    | RepoItem(section: string)
    | ConfigItem(path: string)
    | ServiceItem(unit: string)
    | DropInItem(path: string)
    | GroupItem(group: string)
    | UnreplayedItem(kind: string, key: string)  // accepted and recorded, but replays to nothing

  datatype Op = SetInclude(item: ItemId, keep: bool)

  datatype Entry = Single(op: Op) | Batch(ops: seq<Op>) | Ungroup(group: string)

  function OpsOf(entry: Entry): seq<Op> {
    match entry
    case Single(op) => [op]
    case Batch(ops) => ops
    case Ungroup(_) => []
  }

  /** The ops of a timeline in replay order; view directives carry none. */
  function ActiveOps(entries: seq<Entry>): seq<Op> {
    if entries == [] then [] else ActiveOps(entries[..|entries| - 1]) + OpsOf(entries[|entries| - 1])
  }

  // ----- First-match lookup -----

  /** `i` is where a first-match search for `p` stops. */
  ghost predicate IsFirst<T(!new)>(s: seq<T>, p: T -> bool, i: int) {
    && 0 <= i < |s|
    && p(s[i])
    && forall j :: 0 <= j < i ==> !p(s[j])
  }

  ghost predicate NoMatch<T(!new)>(s: seq<T>, p: T -> bool) {
    forall j :: 0 <= j < |s| ==> !p(s[j])
  }

  lemma FirstExists<T(!new)>(s: seq<T>, p: T -> bool) returns (i: Option<nat>)
    ensures i.None? ==> NoMatch(s, p)
    ensures i.Some? ==> IsFirst(s, p, i.value)
  {
    if s == [] {
      return None;
    }
    i := FirstExists(s[..|s| - 1], p);
    if i.Some? {
      assert forall j :: 0 <= j <= i.value ==> s[..|s| - 1][j] == s[j];
    } else {
      assert forall j :: 0 <= j < |s| - 1 ==> s[..|s| - 1][j] == s[j];
      if p(s[|s| - 1]) {
        i := Some(|s| - 1);
      }
    }
  }

  method Find<T(!new)>(s: seq<T>, p: T -> bool) returns (r: Option<nat>)
    ensures r.Some? ==> IsFirst(s, p, r.value)
    ensures r.None? ==> NoMatch(s, p)
  {
    for i := 0 to |s|
      invariant forall j :: 0 <= j < i ==> !p(s[j])
    {
      if p(s[i]) {
        return Some(i);
      }
    }
    return None;
  }

  // ----- Filtering -----

  function Filter<T>(s: seq<T>, p: T -> bool): seq<T> {
    if s == [] then []
    else
      var rest := Filter(s[..|s| - 1], p);
      if p(s[|s| - 1]) then rest + [s[|s| - 1]] else rest
  }

  method Select<T>(s: seq<T>, p: T -> bool) returns (r: seq<T>)
    ensures r == Filter(s, p)
  {
    r := [];
    for i := 0 to |s|
      invariant r == Filter(s[..i], p)
    {
      if p(s[i]) {
        r := r + [s[i]];
      }
      assert s[..i + 1][..i] == s[..i];
    }
    assert s[..|s|] == s;
  }

  ghost predicate TwoMatch<T(!new)>(s: seq<T>, p: T -> bool) {
    exists i, j :: 0 <= i < j < |s| && p(s[i]) && p(s[j])
  }

  /** What a filtered list says about the list it came from: its members, and whether
      none, one, or several elements passed. */
  lemma FilterFacts<T(!new)>(s: seq<T>, p: T -> bool)
    ensures forall x :: x in Filter(s, p) <==> x in s && p(x)
    ensures Filter(s, p) == [] <==> NoMatch(s, p)
    ensures |Filter(s, p)| > 1 <==> TwoMatch(s, p)
  {
    FilterMembers(s, p);
    FilterNone(s, p);
    FilterTwo(s, p);
  }

  lemma {:induction false} FilterMembers<T(!new)>(s: seq<T>, p: T -> bool)
    ensures forall x :: x in Filter(s, p) <==> x in s && p(x)
  {
    if s != [] {
      var n := |s| - 1;
      FilterMembers(s[..n], p);
      assert s == s[..n] + [s[n]];
    }
  }

  lemma {:induction false} FilterNone<T(!new)>(s: seq<T>, p: T -> bool)
    ensures Filter(s, p) == [] <==> NoMatch(s, p)
  {
    if s != [] {
      var n := |s| - 1;
      FilterNone(s[..n], p);
      assert forall i :: 0 <= i < n ==> s[..n][i] == s[i];
    }
  }

  lemma {:induction false} FilterTwo<T(!new)>(s: seq<T>, p: T -> bool)
    ensures |Filter(s, p)| > 1 <==> TwoMatch(s, p)
  {
    if s != [] {
      var n := |s| - 1;
      var init := s[..n];
      FilterTwo(init, p);
      FilterNone(init, p);
      if TwoMatch(init, p) {
        var i, j :| 0 <= i < j < n && p(init[i]) && p(init[j]);
        assert p(s[i]) && p(s[j]);
      }
      if p(s[n]) && !NoMatch(init, p) {
        var i :| 0 <= i < n && p(init[i]);
        assert p(s[i]) && p(s[n]);
      }
      if TwoMatch(s, p) {
        var i, j :| 0 <= i < j < |s| && p(s[i]) && p(s[j]);
        assert p(init[i]);
        if j < n {
          assert p(init[j]);
        }
      }
    }
  }

  // ----- Keys -----

  function PackageKey(name: string, arch: string): Package -> bool {
    (p: Package) => p.name == name && p.arch == arch
  }

  function RepoFileKey(path: string): RepoFile -> bool {
    (f: RepoFile) => f.path == path
  }

  function GpgKeyKey(path: string): GpgKey -> bool {
    (k: GpgKey) => k.path == path
  }

  function ConfigKey(path: string): ConfigFile -> bool {
    (c: ConfigFile) => c.path == path
  }

  function UnitKey(unit: string): ServiceRow -> bool {
    (r: ServiceRow) => r.unit == unit
  }

  function DropInKey(path: string): DropIn -> bool {
    (d: DropIn) => d.path == path
  }

  function GroupKey(name: string): Group -> bool {
    (g: Group) => g.name == name
  }
}
