/** What replaying a timeline means: each op writes an include value to some slots of the
    snapshot, and locked slots are clamped at the end. */
module Replay {
  import opened Types
  import opened RepoIndex

  // ----- Slots: the dispositions a timeline can change -----

  datatype Slot =
    | PackageSlot(i: nat)
    | RepoFileSlot(i: nat)
    | GpgKeySlot(i: nat)
    | ConfigSlot(i: nat)
    | RowSlot(i: nat)
    | DropInSlot(i: nat)

  predicate HasSlot(snap: Snapshot, slot: Slot) {
    match slot
    case PackageSlot(i) => i < |snap.packages|
    case RepoFileSlot(i) => i < |snap.repoFiles|
    case GpgKeySlot(i) => i < |snap.gpgKeys|
    case ConfigSlot(i) => i < |snap.configs|
    case RowSlot(i) => i < |snap.rows|
    case DropInSlot(i) => i < |snap.dropIns|
  }

  function Disposition(snap: Snapshot, slot: Slot): FindingKind
    requires HasSlot(snap, slot)
  {
    match slot
    case PackageSlot(i) => snap.packages[i].disposition
    case RepoFileSlot(i) => snap.repoFiles[i].disposition
    case GpgKeySlot(i) => snap.gpgKeys[i].disposition
    case ConfigSlot(i) => snap.configs[i].disposition
    case RowSlot(i) => snap.rows[i].disposition
    case DropInSlot(i) => snap.dropIns[i].disposition
  }

  /** GPG keys carry no lock. */
  predicate Locked(snap: Snapshot, slot: Slot)
    requires HasSlot(snap, slot)
  {
    match slot
    case PackageSlot(i) => snap.packages[i].locked
    case RepoFileSlot(i) => snap.repoFiles[i].locked
    case GpgKeySlot(i) => false
    case ConfigSlot(i) => snap.configs[i].locked
    case RowSlot(i) => snap.rows[i].locked
    case DropInSlot(i) => snap.dropIns[i].locked
  }

  /** The disposition a slot takes when `keep` is written to it. */
  function Write(slot: Slot, d: FindingKind, keep: Option<bool>): FindingKind {
    match keep
    case None => d
    case Some(b) => if slot.ConfigSlot? then d.WithInclude(b) else Actionable(b)
  }

  // ----- Which ops are skipped -----

  /** The op's direct target carries a lock in the session's own snapshot. */
  ghost predicate ItemLocked(orig: Snapshot, item: ItemId) {
    match item
    case PackageItem(n, a) => exists i :: IsFirst(orig.packages, PackageKey(n, a), i) && orig.packages[i].locked
    case ConfigItem(p) => exists i :: IsFirst(orig.configs, ConfigKey(p), i) && orig.configs[i].locked
    case ServiceItem(u) => exists i :: IsFirst(orig.rows, UnitKey(u), i) && orig.rows[i].locked
    case DropInItem(p) => exists i :: IsFirst(orig.dropIns, DropInKey(p), i) && orig.dropIns[i].locked
    case _ => false
  }

  ghost predicate Skipped(orig: Snapshot, op: Op) {
    op.keep && ItemLocked(orig, op.item)
  }

  /** Members of the first installed group called `name`; nothing when there is none. */
  ghost predicate IsMember(groups: seq<Group>, name: string, package: string) {
    exists g :: IsFirst(groups, GroupKey(name), g) && package in groups[g].members
  }

  // ----- What one op writes, slot by slot -----

  ghost function PackageWrite(orig: Snapshot, op: Op, i: nat): Option<bool>
    requires i < |orig.packages|
  {
    var p := orig.packages[i];
    var hit :=
      match op.item
      case PackageItem(n, a) => IsFirst(orig.packages, PackageKey(n, a), i)
      case RepoItem(s) => Fold(p.sourceRepo) == Fold(s) && !p.locked
      case GroupItem(g) => IsMember(orig.groups, g, p.name) && !(op.keep && p.locked)
      case _ => false;
    if hit && !Skipped(orig, op) then Some(op.keep) else None
  }

  /** Every section the index ties to `path` is in `excluded`. */
  ghost predicate AllSectionsExcluded(idx: Index, excluded: set<RepoId>, path: string) {
    forall id :: id in idx.filesBySection && path in idx.filesBySection[id] ==> id in excluded
  }

  ghost function RepoFileWrite(orig: Snapshot, idx: Index, excluded: set<RepoId>, op: Op, i: nat): Option<bool>
    requires i < |orig.repoFiles|
  {
    var path := orig.repoFiles[i].path;
    if op.item.RepoItem? && Lists(idx.filesBySection, Fold(op.item.section), path)
       && IsFirst(orig.repoFiles, RepoFileKey(path), i)
       && (op.keep || AllSectionsExcluded(idx, excluded, path))
    then Some(op.keep) else None
  }

  ghost function GpgKeyWrite(orig: Snapshot, idx: Index, excluded: set<RepoId>, op: Op, i: nat): Option<bool>
    requires i < |orig.gpgKeys|
  {
    var path := orig.gpgKeys[i].path;
    if op.item.RepoItem? && Lists(idx.keysBySection, Fold(op.item.section), path)
       && IsFirst(orig.gpgKeys, GpgKeyKey(path), i)
       && (op.keep || (path in idx.sectionsByKey && idx.sectionsByKey[path] <= excluded))
    then Some(op.keep) else None
  }

  ghost function ConfigWrite(orig: Snapshot, op: Op, i: nat): Option<bool>
    requires i < |orig.configs|
  {
    if op.item.ConfigItem? && IsFirst(orig.configs, ConfigKey(op.item.path), i) && !Skipped(orig, op)
    then Some(op.keep) else None
  }

  ghost function RowWrite(orig: Snapshot, op: Op, i: nat): Option<bool>
    requires i < |orig.rows|
  {
    if op.item.ServiceItem? && IsFirst(orig.rows, UnitKey(op.item.unit), i) && !Skipped(orig, op)
    then Some(op.keep) else None
  }

  /** A service op reaches every drop-in of its unit; a drop-in op the first at its path. */
  ghost function DropInWrite(orig: Snapshot, op: Op, i: nat): Option<bool>
    requires i < |orig.dropIns|
  {
    var hit :=
      match op.item
      case ServiceItem(u) => orig.dropIns[i].unit == u
      case DropInItem(p) => IsFirst(orig.dropIns, DropInKey(p), i)
      case _ => false;
    if hit && !Skipped(orig, op) then Some(op.keep) else None
  }

  ghost function WriteOf(orig: Snapshot, idx: Index, excluded: set<RepoId>, op: Op, slot: Slot): Option<bool>
    requires HasSlot(orig, slot)
  {
    match slot
    case PackageSlot(i) => PackageWrite(orig, op, i)
    case RepoFileSlot(i) => RepoFileWrite(orig, idx, excluded, op, i)
    case GpgKeySlot(i) => GpgKeyWrite(orig, idx, excluded, op, i)
    case ConfigSlot(i) => ConfigWrite(orig, op, i)
    case RowSlot(i) => RowWrite(orig, op, i)
    case DropInSlot(i) => DropInWrite(orig, op, i)
  }

  // ----- Snapshots that differ only in dispositions -----

  ghost predicate SameFrame(a: Snapshot, b: Snapshot) {
    && |a.packages| == |b.packages|
    && (forall i :: 0 <= i < |a.packages| ==> b.packages[i] == a.packages[i].(disposition := b.packages[i].disposition))
    && |a.repoFiles| == |b.repoFiles|
    && (forall i :: 0 <= i < |a.repoFiles| ==>
      b.repoFiles[i] == a.repoFiles[i].(disposition := b.repoFiles[i].disposition))
    && |a.gpgKeys| == |b.gpgKeys|
    && (forall i :: 0 <= i < |a.gpgKeys| ==> b.gpgKeys[i] == a.gpgKeys[i].(disposition := b.gpgKeys[i].disposition))
    && |a.configs| == |b.configs|
    && (forall i :: 0 <= i < |a.configs| ==> b.configs[i] == a.configs[i].(disposition := b.configs[i].disposition))
    && |a.rows| == |b.rows|
    && (forall i :: 0 <= i < |a.rows| ==> b.rows[i] == a.rows[i].(disposition := b.rows[i].disposition))
    && |a.dropIns| == |b.dropIns|
    && (forall i :: 0 <= i < |a.dropIns| ==> b.dropIns[i] == a.dropIns[i].(disposition := b.dropIns[i].disposition))
    && a.groups == b.groups
    && a.facts == b.facts
  }

  lemma SameFrameTransitive(a: Snapshot, b: Snapshot, c: Snapshot)
    requires SameFrame(a, b) && SameFrame(b, c)
    ensures SameFrame(a, c)
  {
  }

  // ----- Replay -----

  ghost function PackagesAfter(orig: Snapshot, op: Op, packages: seq<Package>): (r: seq<Package>)
    requires |packages| == |orig.packages|
    ensures |r| == |packages|
  {
    seq(|packages|, i requires 0 <= i < |packages| =>
      packages[i].(disposition := Write(PackageSlot(i), packages[i].disposition, PackageWrite(orig, op, i))))
  }

  ghost function RepoFilesAfter(orig: Snapshot, idx: Index, excluded: set<RepoId>, op: Op,
                                files: seq<RepoFile>): (r: seq<RepoFile>)
    requires |files| == |orig.repoFiles|
    ensures |r| == |files|
  {
    seq(|files|, i requires 0 <= i < |files| =>
      files[i].(disposition := Write(RepoFileSlot(i), files[i].disposition, RepoFileWrite(orig, idx, excluded, op, i))))
  }

  ghost function GpgKeysAfter(orig: Snapshot, idx: Index, excluded: set<RepoId>, op: Op,
                              keys: seq<GpgKey>): (r: seq<GpgKey>)
    requires |keys| == |orig.gpgKeys|
    ensures |r| == |keys|
  {
    seq(|keys|, i requires 0 <= i < |keys| =>
      keys[i].(disposition := Write(GpgKeySlot(i), keys[i].disposition, GpgKeyWrite(orig, idx, excluded, op, i))))
  }

  ghost function ConfigsAfter(orig: Snapshot, op: Op, configs: seq<ConfigFile>): (r: seq<ConfigFile>)
    requires |configs| == |orig.configs|
    ensures |r| == |configs|
  {
    seq(|configs|, i requires 0 <= i < |configs| =>
      configs[i].(disposition := Write(ConfigSlot(i), configs[i].disposition, ConfigWrite(orig, op, i))))
  }

  ghost function RowsAfter(orig: Snapshot, op: Op, rows: seq<ServiceRow>): (r: seq<ServiceRow>)
    requires |rows| == |orig.rows|
    ensures |r| == |rows|
  {
    seq(|rows|, i requires 0 <= i < |rows| =>
      rows[i].(disposition := Write(RowSlot(i), rows[i].disposition, RowWrite(orig, op, i))))
  }

  ghost function DropInsAfter(orig: Snapshot, op: Op, dropIns: seq<DropIn>): (r: seq<DropIn>)
    requires |dropIns| == |orig.dropIns|
    ensures |r| == |dropIns|
  {
    seq(|dropIns|, i requires 0 <= i < |dropIns| =>
      dropIns[i].(disposition := Write(DropInSlot(i), dropIns[i].disposition, DropInWrite(orig, op, i))))
  }

  ghost function ApplyOp(orig: Snapshot, idx: Index, excluded: set<RepoId>, snap: Snapshot, op: Op): (r: Snapshot)
    requires SameFrame(orig, snap)
    ensures SameFrame(orig, r)
  {
    snap.(
      packages := PackagesAfter(orig, op, snap.packages),
      repoFiles := RepoFilesAfter(orig, idx, excluded, op, snap.repoFiles),
      gpgKeys := GpgKeysAfter(orig, idx, excluded, op, snap.gpgKeys),
      configs := ConfigsAfter(orig, op, snap.configs),
      rows := RowsAfter(orig, op, snap.rows),
      dropIns := DropInsAfter(orig, op, snap.dropIns))
  }

  /** One op changes each slot by its own write, and no slot by another's. */
  lemma ApplyOpDisposition(orig: Snapshot, idx: Index, excluded: set<RepoId>, snap: Snapshot, op: Op, slot: Slot)
    requires SameFrame(orig, snap) && HasSlot(orig, slot)
    ensures Disposition(ApplyOp(orig, idx, excluded, snap, op), slot) ==
            Write(slot, Disposition(snap, slot), WriteOf(orig, idx, excluded, op, slot))
  {
  }

  ghost function ApplyOps(orig: Snapshot, idx: Index, excluded: set<RepoId>, ops: seq<Op>): (r: Snapshot)
    ensures SameFrame(orig, r)
  {
    if ops == [] then orig
    else ApplyOp(orig, idx, excluded, ApplyOps(orig, idx, excluded, ops[..|ops| - 1]), ops[|ops| - 1])
  }

  function ExcludedStep(excluded: set<RepoId>, op: Op): set<RepoId> {
    if !op.item.RepoItem? then excluded
    else if op.keep then excluded - {Fold(op.item.section)}
    else excluded + {Fold(op.item.section)}
  }

  /** Sections left excluded by the whole run of repo ops. */
  function ExcludedSections(ops: seq<Op>): set<RepoId> {
    if ops == [] then {} else ExcludedStep(ExcludedSections(ops[..|ops| - 1]), ops[|ops| - 1])
  }

  ghost function Clamp(snap: Snapshot): (r: Snapshot)
    ensures SameFrame(snap, r)
  {
    snap.(
      packages := seq(|snap.packages|, i requires 0 <= i < |snap.packages| =>
        if snap.packages[i].locked then snap.packages[i].(disposition := Actionable(false)) else snap.packages[i]),
      repoFiles := seq(|snap.repoFiles|, i requires 0 <= i < |snap.repoFiles| =>
        if snap.repoFiles[i].locked then snap.repoFiles[i].(disposition := Actionable(false)) else snap.repoFiles[i]),
      configs := seq(|snap.configs|, i requires 0 <= i < |snap.configs| =>
        if snap.configs[i].locked then snap.configs[i].(disposition := Actionable(false)) else snap.configs[i]),
      rows := seq(|snap.rows|, i requires 0 <= i < |snap.rows| =>
        if snap.rows[i].locked then snap.rows[i].(disposition := Actionable(false)) else snap.rows[i]),
      dropIns := seq(|snap.dropIns|, i requires 0 <= i < |snap.dropIns| =>
        if snap.dropIns[i].locked then snap.dropIns[i].(disposition := Actionable(false)) else snap.dropIns[i]))
  }

  lemma ClampDisposition(snap: Snapshot, slot: Slot)
    requires HasSlot(snap, slot)
    ensures Disposition(Clamp(snap), slot) == if Locked(snap, slot) then Actionable(false) else Disposition(snap, slot)
  {
  }

  /** The projected snapshot: every active op replayed over the original, then clamped.
      Each op is judged against the sections the *whole* active run leaves excluded. */
  ghost function Projection(orig: Snapshot, idx: Index, entries: seq<Entry>): (r: Snapshot)
    ensures SameFrame(orig, r)
  {
    var ops := ActiveOps(entries);
    var replayed := ApplyOps(orig, idx, ExcludedSections(ops), ops);
    SameFrameTransitive(orig, replayed, Clamp(replayed));
    Clamp(replayed)
  }
}
