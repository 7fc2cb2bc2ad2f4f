/** The refine session as a value: its fields, and what each public call does to them. */
module SessionState {
  import opened Types
  import opened RepoIndex
  import opened Replay
  import opened GroupState

  /** The dnf-cache state an upload displaced. */
  datatype PriorCache = PriorCache(repolessCached: bool, cachePath: Option<string>, uploadedVersion: Option<string>)

  datatype State = State(
    original: Snapshot,
    index: Index,
    timeline: seq<Entry>,
    cursor: nat,
    generation: nat,
    priorCache: map<string, PriorCache>)

  datatype Error =
    | UnknownTarget
    | AdvisoryNotToggleable
    | InventoryNotToggleable
    | BadRequest
    | NoopTarget
    | NothingToUndo
    | NothingToRedo
    | StaleGeneration
    | StagedFileRefused

  datatype Outcome = Done | Rejected(error: Error)

  datatype Removal = Removed | CachedOnly | NotFound | Refused

  // ----- Well-formed sessions -----

  /** `(name, arch)` identifies a package, and `name.arch` spells it unambiguously. */
  ghost predicate UniquePackages(packages: seq<Package>) {
    && (forall i, j :: 0 <= i < j < |packages| ==>
          packages[i].name != packages[j].name || packages[i].arch != packages[j].arch)
    && (forall i :: 0 <= i < |packages| ==> '.' !in packages[i].arch)
  }

  ghost predicate AllActionable(packages: seq<Package>) {
    forall i :: 0 <= i < |packages| ==> packages[i].disposition.Actionable?
  }

  ghost predicate WellFormed(s: State) {
    && s.cursor <= |s.timeline|
    && UniquePackages(s.original.packages)
    && AllActionable(s.original.packages)
    && IndexFor(s.original, s.index)
  }

  function Active(s: State): seq<Entry>
    requires s.cursor <= |s.timeline|
  {
    s.timeline[..s.cursor]
  }

  ghost function Projected(s: State): Snapshot
    requires s.cursor <= |s.timeline|
  {
    Projection(s.original, s.index, Active(s))
  }

  // ----- Recording -----

  /** A recorded entry drops the redo tail, lands at the cursor and bumps the generation. */
  function Record(s: State, entry: Entry): State
    requires s.cursor <= |s.timeline|
  {
    s.(timeline := s.timeline[..s.cursor] + [entry], cursor := s.cursor + 1, generation := s.generation + 1)
  }

  // ----- Validation -----

  ghost predicate ParentExcluded(proj: Snapshot, path: string) {
    exists d, r ::
      IsFirst(proj.dropIns, DropInKey(path), d) && 0 <= r < |proj.rows|
      && proj.rows[r].unit == proj.dropIns[d].unit && proj.rows[r].disposition == Actionable(false)
  }

  ghost function TargetError(s: State, op: Op): Option<Error>
    requires s.cursor <= |s.timeline|
  {
    match op.item
    case PackageItem(n, a) =>
      if NoMatch(s.original.packages, PackageKey(n, a)) then Some(UnknownTarget) else None
    case ConfigItem(p) =>
      if NoMatch(s.original.configs, ConfigKey(p)) then Some(UnknownTarget)
      else if exists i ::
        IsFirst(s.original.configs, ConfigKey(p), i)
        && s.original.configs[i].disposition.Advisory? then Some(AdvisoryNotToggleable)
      else if exists i ::
        IsFirst(s.original.configs, ConfigKey(p), i)
        && s.original.configs[i].disposition.Inventory? then Some(InventoryNotToggleable)
      else None
    case RepoItem(r) =>
      if IsDistroRepo(r) then Some(BadRequest)
      else if !ProvenanceOf(s.index, r).Verified? && !ProvenanceOf(s.index, r).Incomplete? then Some(BadRequest)
      else None
    case ServiceItem(u) =>
      if NoMatch(s.original.rows, UnitKey(u)) then Some(UnknownTarget) else None
    case DropInItem(p) =>
      if NoMatch(s.original.dropIns, DropInKey(p)) then Some(UnknownTarget)
      else if op.keep && ParentExcluded(Projected(s), p) then Some(BadRequest)
      else None
    case GroupItem(g) =>
      if NoMatch(s.original.groups, GroupKey(g)) then Some(UnknownTarget) else None
    case UnreplayedItem(_, _) => None
  }

  // ----- No-op rules -----

  /** `p` is an effective member of the first installed group called `g`. */
  ghost predicate GroupCounts(groups: seq<Group>, g: string, p: Package) {
    IsMember(groups, g, p.name) && IsEffective(p)
  }

  /** `p` is an effective member of repo section `id`. */
  predicate RepoCounts(id: RepoId, p: Package) {
    p.sourceRepo != "" && Fold(p.sourceRepo) == id && IsEffective(p)
  }

  /** Nothing among the counted packages would change: there are none, or all are at `keep`. */
  ghost predicate NothingToDecide(packages: seq<Package>, counts: iset<Package>, keep: bool) {
    forall i :: 0 <= i < |packages| && packages[i] in counts ==> packages[i].disposition.IsIncluded() == keep
  }

  ghost function Counted(s: State, item: ItemId): iset<Package> {
    match item
    case GroupItem(g) => iset p | GroupCounts(s.original.groups, g, p)
    case RepoItem(r) => iset p | RepoCounts(Fold(r), p)
    case _ => iset{}
  }

  ghost predicate RefusedAsNoop(s: State, op: Op)
    requires s.cursor <= |s.timeline|
  {
    (op.item.GroupItem? || op.item.RepoItem?) && NothingToDecide(Projected(s).packages, Counted(s, op.item), op.keep)
  }

  /** The op asks a package or config file for the include state `proj` already shows. */
  ghost predicate AlreadyAt(proj: Snapshot, op: Op) {
    match op.item
    case PackageItem(n, a) => exists i ::
      IsFirst(proj.packages, PackageKey(n, a), i) && proj.packages[i].disposition.IsIncluded() == op.keep
    case ConfigItem(p) => exists i ::
      IsFirst(proj.configs, ConfigKey(p), i) && proj.configs[i].disposition.IsIncluded() == op.keep
    case _ => false
  }

  /** Such an op is dropped silently. */
  ghost predicate DroppedAsNoop(s: State, op: Op)
    requires s.cursor <= |s.timeline|
  {
    AlreadyAt(Projected(s), op)
  }

  // ----- Public calls -----

  ghost function Apply(s: State, op: Op): (State, Outcome)
    requires s.cursor <= |s.timeline|
  {
    var error := TargetError(s, op);
    if error.Some? then (s, Rejected(error.value))
    else if Skipped(s.original, op) then (s, Done)
    else if RefusedAsNoop(s, op) then (s, Rejected(NoopTarget))
    else if DroppedAsNoop(s, op) then (s, Done)
    else (Record(s, Single(op)), Done)
  }

  /** Ops a batch keeps: everything but includes of locked targets. Nothing else is checked. */
  ghost function BatchOps(orig: Snapshot, ops: seq<Op>): seq<Op> {
    if ops == [] then []
    else
      var before := BatchOps(orig, ops[..|ops| - 1]);
      if Skipped(orig, ops[|ops| - 1]) then before else before + [ops[|ops| - 1]]
  }

  ghost function ApplyBatch(s: State, ops: seq<Op>): State
    requires s.cursor <= |s.timeline|
  {
    var kept := BatchOps(s.original, ops);
    if kept == [] then s else Record(s, Batch(kept))
  }

  ghost function ApplyDirective(s: State, group: string): (State, Outcome)
    requires s.cursor <= |s.timeline|
  {
    if NoMatch(s.original.groups, GroupKey(group)) then (s, Rejected(BadRequest))
    else if IsUngrouped(Active(s), group) then (s, Done)
    else (Record(s, Types.Ungroup(group)), Done)
  }

  function Undo(s: State): (State, Outcome) {
    if s.cursor == 0 then (s, Rejected(NothingToUndo))
    else (s.(cursor := s.cursor - 1, generation := s.generation + 1), Done)
  }

  function Redo(s: State): (State, Outcome) {
    if s.cursor >= |s.timeline| then (s, Rejected(NothingToRedo))
    else (s.(cursor := s.cursor + 1, generation := s.generation + 1), Done)
  }

  function Reset(s: State): (State, Outcome) {
    if s.timeline == [] then (s, Rejected(NothingToUndo))
    else (s.(timeline := [], cursor := 0, generation := s.generation + 1), Done)
  }

  // ----- Uploads -----

  function CacheOf(p: Package): PriorCache {
    PriorCache(p.repolessCached, p.cachePath, p.uploadedVersion)
  }

  function WithCache(p: Package, c: PriorCache, uploaded: bool): Package {
    p.(repolessCached := c.repolessCached, cachePath := c.cachePath, uploadedVersion := c.uploadedVersion,
      uploaded := uploaded)
  }

  function CanonicalKey(canonical: string): Package -> bool {
    (p: Package) => CanonicalId(p.name, p.arch) == canonical
  }

  /** A package after its upload is recorded. */
  function Uploaded(p: Package, path: string, version: Option<string>): Package {
    WithCache(p, PriorCache(true, Some(path), version), true)
  }

  function WithPackages(s: State, packages: seq<Package>, prior: map<string, PriorCache>): State {
    s.(original := s.original.(packages := packages), priorCache := prior, generation := s.generation + 1)
  }

  /** Record a staged file on the first package spelled `canonical`; the first upload over a
      host-cached RPM keeps what it displaces. */
  ghost predicate IsUploadRecord(packages: seq<Package>, prior: map<string, PriorCache>, canonical: string,
                                 path: string, version: Option<string>,
                             packages': seq<Package>, prior': map<string, PriorCache>) {
    && (NoMatch(packages, CanonicalKey(canonical)) ==> packages' == packages && prior' == prior)
    && (forall i :: IsFirst(packages, CanonicalKey(canonical), i) ==>
          packages' == packages[i := Uploaded(packages[i], path, version)]
          && prior' == if packages[i].repolessCached && !packages[i].uploaded
                       then prior[canonical := CacheOf(packages[i])] else prior)
  }

  ghost predicate IsSetUploaded(s: State, canonical: string, path: string, version: Option<string>, t: State) {
    t == WithPackages(s, t.original.packages, t.priorCache)
    && IsUploadRecord(s.original.packages, s.priorCache, canonical, path, version, t.original.packages, t.priorCache)
  }

  /** The cache state removal gives back: what was displaced, or nothing. */
  function Restored(prior: map<string, PriorCache>, p: Package): PriorCache {
    var id := CanonicalId(p.name, p.arch);
    if id in prior then prior[id] else PriorCache(false, None, None)
  }

  /** What removing the upload of package `i` finds, before anything changes. */
  function RemovalFor(p: Package, fileOk: bool): Removal {
    if !p.uploaded then (if p.repolessCached then CachedOnly else NotFound)
    else if p.cachePath.Some? && !fileOk then Refused
    else Removed
  }

  /** `fileOk` says whether the recorded path resolved inside the upload directory and the
      staged file is gone; anything but `Removed` changes nothing. */
  ghost predicate IsUnmark(s: State, name: string, arch: string, fileOk: bool, t: State, r: Removal) {
    var key := PackageKey(name, arch);
    var packages := s.original.packages;
    && (NoMatch(packages, key) ==> t == s && r == NotFound)
    && (forall i :: IsFirst(packages, key, i) ==>
          && r == RemovalFor(packages[i], fileOk)
          && t == if r != Removed then s
                  else WithPackages(s,
                                    packages[i := WithCache(packages[i], Restored(s.priorCache, packages[i]), false)],
                                    s.priorCache - {CanonicalId(name, arch)}))
  }
}
