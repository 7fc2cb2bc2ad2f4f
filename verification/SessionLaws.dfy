/** What single calls of the session do, said over packages, configs, rows and the timeline. */
module SessionLaws {
  import opened Types
  import opened RepoIndex
  import opened Replay
  import opened ClosedForms
  import opened GroupState
  import opened SessionState
  import opened Views
  import opened Safety
  import opened Noops
  import Uploads

  // ----- Targets -----

  ghost predicate HasPackage(s: State, name: string, arch: string) {
    exists i :: 0 <= i < |s.original.packages| && s.original.packages[i].name == name
      && s.original.packages[i].arch == arch
  }

  ghost predicate FirstConfigAt(configs: seq<ConfigFile>, path: string, i: int) {
    0 <= i < |configs| && configs[i].path == path && forall j :: 0 <= j < i ==> configs[j].path != path
  }

  ghost predicate FirstDropInAt(dropIns: seq<DropIn>, path: string, i: int) {
    0 <= i < |dropIns| && dropIns[i].path == path && forall j :: 0 <= j < i ==> dropIns[j].path != path
  }

  /** A package, service or group op passes validation exactly when the scan has its target. */
  lemma KnownTargetsPass(s: State, keep: bool, name: string, arch: string)
    requires s.cursor <= |s.timeline|
    ensures TargetError(s, SetInclude(PackageItem(name, arch), keep)) ==
            if HasPackage(s, name, arch) then None else Some(UnknownTarget)
    ensures TargetError(s, SetInclude(ServiceItem(name), keep)) ==
            if exists i :: 0 <= i < |s.original.rows| && s.original.rows[i].unit == name then None
              else Some(UnknownTarget)
    ensures TargetError(s, SetInclude(GroupItem(name), keep)) ==
            if exists i :: 0 <= i < |s.original.groups| && s.original.groups[i].name == name then None
            else Some(UnknownTarget)
  {
    assert forall i :: 0 <= i < |s.original.packages| ==>
      (PackageKey(name, arch)(s.original.packages[i]) <==>
         s.original.packages[i].name == name && s.original.packages[i].arch == arch);
    assert forall i :: 0 <= i < |s.original.rows| ==> (UnitKey(name)(s.original.rows[i]) <==>
      s.original.rows[i].unit == name);
    assert forall i :: 0 <= i < |s.original.groups| ==>
      (GroupKey(name)(s.original.groups[i]) <==> s.original.groups[i].name == name);
  }

  /** A config op passes exactly when the first file at its path is actionable; an unknown path,
      an advisory and an inventory entry are told apart. */
  lemma ConfigTargetsPass(s: State, keep: bool, path: string)
    requires s.cursor <= |s.timeline|
    ensures var error := TargetError(s, SetInclude(ConfigItem(path), keep));
            && (forall i :: FirstConfigAt(s.original.configs, path, i) ==>
                  error == match s.original.configs[i].disposition
                           case Actionable(_) => None
                           case Advisory(_) => Some(AdvisoryNotToggleable)
                           case Inventory => Some(InventoryNotToggleable))
            && ((forall i :: !FirstConfigAt(s.original.configs, path, i)) ==> error == Some(UnknownTarget))
  {
    var configs := s.original.configs;
    forall i
      ensures IsFirst(configs, ConfigKey(path), i) <==> FirstConfigAt(configs, path, i)
    {
    }
    var first := FirstExists(configs, ConfigKey(path));
    if first.Some? {
      assert FirstConfigAt(configs, path, first.value);
      assert forall i :: FirstConfigAt(configs, path, i) ==> i == first.value;
      assert ConfigKey(path)(configs[first.value]);
    }
  }

  /** A drop-in op is refused when its path is unknown, or when it includes a drop-in whose unit
      has a row that is now excluded. */
  lemma DropInTargetsPass(s: State, keep: bool, path: string)
    requires s.cursor <= |s.timeline|
    ensures |Projected(s).rows| == |s.original.rows|
    ensures var error := TargetError(s, SetInclude(DropInItem(path), keep));
            && (forall d :: FirstDropInAt(s.original.dropIns, path, d) ==>
                  error == if keep && exists r :: 0 <= r < |s.original.rows|
                                        && s.original.rows[r].unit == s.original.dropIns[d].unit
                                        && Projected(s).rows[r].disposition == Actionable(false)
                           then Some(BadRequest) else None)
            && ((forall d :: !FirstDropInAt(s.original.dropIns, path, d)) ==> error == Some(UnknownTarget))
  {
    hide Projection;
    var orig, proj := s.original, Projected(s);
    forall i
      ensures IsFirst(orig.dropIns, DropInKey(path), i) <==> FirstDropInAt(orig.dropIns, path, i)
      ensures IsFirst(proj.dropIns, DropInKey(path), i) <==> FirstDropInAt(orig.dropIns, path, i)
    {
      assert forall j :: 0 <= j < |orig.dropIns| ==> proj.dropIns[j].path == orig.dropIns[j].path;
    }
    var first := FirstExists(orig.dropIns, DropInKey(path));
    if first.Some? {
      var d := first.value;
      assert DropInKey(path)(orig.dropIns[d]);
      assert forall e :: FirstDropInAt(orig.dropIns, path, e) ==> e == d;
      ParentIsSpelled(s, path, d);
    }
  }

  lemma ParentIsSpelled(s: State, path: string, d: nat)
    requires s.cursor <= |s.timeline| && d < |s.original.dropIns|
    requires forall e :: IsFirst(Projected(s).dropIns, DropInKey(path), e) <==> e == d
    ensures |Projected(s).rows| == |s.original.rows|
    ensures ParentExcluded(Projected(s), path) <==>
              exists r :: 0 <= r < |s.original.rows| && s.original.rows[r].unit == s.original.dropIns[d].unit
                && Projected(s).rows[r].disposition == Actionable(false)
  {
    hide Projection, IsFirst;
    var orig, proj := s.original, Projected(s);
    assert forall r :: 0 <= r < |orig.rows| ==> proj.rows[r].unit == orig.rows[r].unit;
    if r :|
        0 <= r < |orig.rows| && orig.rows[r].unit == orig.dropIns[d].unit
        && proj.rows[r].disposition == Actionable(false) {
      assert proj.rows[r].unit == proj.dropIns[d].unit;
      assert IsFirst(proj.dropIns, DropInKey(path), d);
    }
  }

  /** A repo op passes exactly when the section is no repo of the distribution and is verified or
      incomplete. */
  lemma RepoTargetsPass(s: State, keep: bool, section: string)
    requires s.cursor <= |s.timeline|
    ensures var provenance := ProvenanceOf(s.index, section);
            TargetError(s, SetInclude(RepoItem(section), keep)) ==
            if !IsDistroRepo(section) && (provenance == Verified || provenance == Incomplete) then None
              else Some(BadRequest)
  {
  }

  // ----- Locked targets -----

  /** The first item the op names is locked in the session's own snapshot. */
  ghost predicate NamesLocked(orig: Snapshot, item: ItemId) {
    match item
    case PackageItem(n, a) =>
      exists i :: 0 <= i < |orig.packages| && orig.packages[i].name == n && orig.packages[i].arch == a
        && orig.packages[i].locked
        && forall j :: 0 <= j < i ==> orig.packages[j].name != n || orig.packages[j].arch != a
    case ConfigItem(p) => exists i :: FirstConfigAt(orig.configs, p, i) && orig.configs[i].locked
    case ServiceItem(u) =>
      exists i :: 0 <= i < |orig.rows| && orig.rows[i].unit == u && orig.rows[i].locked
        && forall j :: 0 <= j < i ==> orig.rows[j].unit != u
    case DropInItem(p) => exists i :: FirstDropInAt(orig.dropIns, p, i) && orig.dropIns[i].locked
    case _ => false
  }

  lemma SkippedIsSpelled(orig: Snapshot, op: Op)
    ensures Skipped(orig, op) <==> op.keep && NamesLocked(orig, op.item)
  {
    match op.item {
      case PackageItem(n, a) =>
        assert forall i :: IsFirst(orig.packages, PackageKey(n, a), i) <==>
                 0 <= i < |orig.packages| && orig.packages[i].name == n && orig.packages[i].arch == a
                 && forall j :: 0 <= j < i ==> orig.packages[j].name != n || orig.packages[j].arch != a;
      case ConfigItem(p) =>
        assert forall i :: IsFirst(orig.configs, ConfigKey(p), i) <==> FirstConfigAt(orig.configs, p, i);
      case ServiceItem(u) =>
        assert forall i :: IsFirst(orig.rows, UnitKey(u), i) <==>
                 0 <= i < |orig.rows| && orig.rows[i].unit == u && forall j :: 0 <= j < i ==> orig.rows[j].unit != u;
      case DropInItem(p) =>
        assert forall i :: IsFirst(orig.dropIns, DropInKey(p), i) <==> FirstDropInAt(orig.dropIns, p, i);
      case _ =>
    }
  }

  /** A batch records one entry with its ops in order, less the includes of locked targets, and
      with none left it changes nothing. */
  lemma BatchIsExact(s: State, ops: seq<Op>)
    requires s.cursor <= |s.timeline|
    ensures var kept := Filter(ops, (op: Op) => !(op.keep && NamesLocked(s.original, op.item)));
            SessionState.ApplyBatch(s, ops) == if kept == [] then s else Record(s, Batch(kept))
  {
    BatchOpsAreFiltered(s.original, ops, (op: Op) => !(op.keep && NamesLocked(s.original, op.item)));
  }

  lemma {:induction false} BatchOpsAreFiltered(orig: Snapshot, ops: seq<Op>, keeps: Op -> bool)
    requires forall op :: keeps(op) <==> !(op.keep && NamesLocked(orig, op.item))
    ensures BatchOps(orig, ops) == Filter(ops, keeps)
  {
    hide NamesLocked, Skipped;
    if ops != [] {
      BatchOpsAreFiltered(orig, ops[..|ops| - 1], keeps);
      SkippedIsSpelled(orig, ops[|ops| - 1]);
    }
  }

  /** Dissolving a group is refused for an unknown name, ignored while it is dissolved, and
      recorded otherwise. */
  lemma DirectiveIsExact(s: State, group: string)
    requires s.cursor <= |s.timeline|
    ensures var known := exists g :: 0 <= g < |s.original.groups| && s.original.groups[g].name == group;
            var dissolved := exists k :: 0 <= k < s.cursor && s.timeline[k] == Types.Ungroup(group);
            SessionState.ApplyDirective(s, group) ==
            if !known then (s, Rejected(BadRequest))
            else if dissolved then (s, Done)
            else (Record(s, Types.Ungroup(group)), Done)
  {
    assert forall g :: 0 <= g < |s.original.groups| ==> (GroupKey(group)(s.original.groups[g]) <==>
      s.original.groups[g].name == group);
    assert IsUngrouped(Active(s), group) <==> exists k ::
      0 <= k < s.cursor && s.timeline[k] == Types.Ungroup(group) by {
      if k :| 0 <= k < s.cursor && s.timeline[k] == Types.Ungroup(group) {
        assert Active(s)[k] == Types.Ungroup(group);
      }
    }
  }

  // ----- Silent no-ops -----

  /** No package and no config changes its include state. */
  ghost predicate ChangesNothing(now: Snapshot, next: Snapshot)
    requires |now.packages| == |next.packages| && |now.configs| == |next.configs|
  {
    && (forall i :: 0 <= i < |now.packages| ==>
          next.packages[i].disposition.IsIncluded() == now.packages[i].disposition.IsIncluded())
    && (forall i :: 0 <= i < |now.configs| ==>
          next.configs[i].disposition.IsIncluded() == now.configs[i].disposition.IsIncluded())
  }

  /** A validated package op leaves the session as it is if and only if recording it would change
      no include state; otherwise it is recorded, and its target then has the flag asked for. */
  lemma PackageOpIsExact(s: State, name: string, arch: string, keep: bool)
    requires WellFormed(s) && HasPackage(s, name, arch)
    ensures var op := SetInclude(PackageItem(name, arch), keep);
            var (t, outcome) := SessionState.Apply(s, op);
            && outcome == Done
            && (t == s <==> ChangesNothing(Projected(s), AfterOp(s, op)))
            && (t != s ==> t == Record(s, Single(op)) && Projected(t) == AfterOp(s, op)
                           && forall i :: 0 <= i < |s.original.packages| && s.original.packages[i].name == name
                                          && s.original.packages[i].arch == arch ==>
                                Projected(t).packages[i].disposition == Actionable(keep))
  {
    hide Projection, IndexFor, TargetError, UniquePackages, AllActionable, IsFirst;
    var op := SetInclude(PackageItem(name, arch), keep);
    var now, next := Projected(s), AfterOp(s, op);
    KnownTargetsPass(s, keep, name, arch);
    var i := TargetAt(s, name, arch);
    forall j | 0 <= j < |now.packages|
      ensures next.packages[j].disposition == if j == i && !Skipped(s.original, op) then Actionable(keep)
                                              else now.packages[j].disposition
    {
      PackageOpMoves(s, op, i, j);
    }
    forall j | 0 <= j < |now.configs|
      ensures next.configs[j].disposition == now.configs[j].disposition
    {
      PackageOpSparesConfigs(s, op, j);
    }
    AlreadyAtIs(s, op, i);
    AfterOpIsProjected(s, op);
    RecordIsNew(s, op);
    ApplyDropsOrRecords(s, op);
    hide Skipped, DroppedAsNoop;
    assert ChangesNothing(now, next) <==> Skipped(s.original, op) || DroppedAsNoop(s, op);
  }

  lemma ApplyDropsOrRecords(s: State, op: Op)
    requires s.cursor <= |s.timeline| && (op.item.PackageItem? || op.item.ConfigItem?) && TargetError(s, op) == None
    ensures SessionState.Apply(s, op) ==
            if Skipped(s.original, op) || DroppedAsNoop(s, op) then (s, Done) else (Record(s, Single(op)), Done)
  {
    hide TargetError, Skipped, DroppedAsNoop;
  }

  lemma RecordIsNew(s: State, op: Op)
    requires s.cursor <= |s.timeline|
    ensures Record(s, Single(op)) != s
  {
    assert Record(s, Single(op)).generation != s.generation;
  }

  lemma TargetAt(s: State, name: string, arch: string) returns (i: nat)
    requires WellFormed(s) && HasPackage(s, name, arch)
    ensures i < |s.original.packages| && IsFirst(s.original.packages, PackageKey(name, arch), i)
    ensures forall j ::
              0 <= j < |s.original.packages| && s.original.packages[j].name == name
              && s.original.packages[j].arch == arch
              ==> j == i
  {
    var j :| 0 <= j < |s.original.packages| && s.original.packages[j].name == name
      && s.original.packages[j].arch == arch;
    i := j;
    CanonicalKeyIsPackageKey(s.original.packages, i);
  }

  lemma PackageOpMoves(s: State, op: Op, i: nat, j: nat)
    requires WellFormed(s) && op.item.PackageItem? && i < |s.original.packages| && j < |s.original.packages|
    requires IsFirst(s.original.packages, PackageKey(op.item.name, op.item.arch), i)
    ensures AfterOp(s, op).packages[j].disposition ==
            if j == i && !Skipped(s.original, op) then Actionable(op.keep) else Projected(s).packages[j].disposition
  {
    hide Projection, IndexFor, UniquePackages, AllActionable;
    AppendOp(s.original, s.index, Active(s), op, PackageSlot(j));
    LastWriteDecides(s.original, s.index, Active(s), PackageSlot(j));
  }

  lemma PackageOpSparesConfigs(s: State, op: Op, j: nat)
    requires s.cursor <= |s.timeline| && op.item.PackageItem? && j < |s.original.configs|
    ensures AfterOp(s, op).configs[j].disposition == Projected(s).configs[j].disposition
  {
    hide Projection;
    AppendOp(s.original, s.index, Active(s), op, ConfigSlot(j));
    LastWriteDecides(s.original, s.index, Active(s), ConfigSlot(j));
  }

  lemma AlreadyAtIs(s: State, op: Op, i: nat)
    requires WellFormed(s) && op.item.PackageItem? && i < |s.original.packages|
    requires IsFirst(s.original.packages, PackageKey(op.item.name, op.item.arch), i)
    ensures Projected(s).packages[i].disposition.Actionable?
    ensures DroppedAsNoop(s, op) <==> Projected(s).packages[i].disposition == Actionable(op.keep)
  {
    hide Projection, IndexFor;
    var packages, key := Projected(s).packages, PackageKey(op.item.name, op.item.arch);
    ProjectionKeepsPackages(s.original, s.index, Active(s));
    assert forall j :: 0 <= j < |packages| ==> key(packages[j]) == key(s.original.packages[j]);
    assert IsFirst(packages, key, i);
    assert packages[i].disposition.Actionable?;
  }

  /** The same for a config op that passes validation. */
  lemma ConfigOpIsExact(s: State, path: string, i: nat, keep: bool)
    requires WellFormed(s) && FirstConfigAt(s.original.configs, path, i)
               && s.original.configs[i].disposition.Actionable?
    ensures var op := SetInclude(ConfigItem(path), keep);
            var (t, outcome) := SessionState.Apply(s, op);
            && outcome == Done
            && (t == s <==> ChangesNothing(Projected(s), AfterOp(s, op)))
            && (t != s ==> t == Record(s, Single(op)) && Projected(t) == AfterOp(s, op)
                           && Projected(t).configs[i].disposition == Actionable(keep))
  {
    hide Projection, IndexFor, TargetError, UniquePackages, AllActionable, IsFirst, FirstConfigAt;
    var op := SetInclude(ConfigItem(path), keep);
    var now, next := Projected(s), AfterOp(s, op);
    ConfigTargetsPass(s, keep, path);
    assert TargetError(s, op) == None;
    FirstConfigIs(s.original.configs, path, i);
    forall j | 0 <= j < |now.configs|
      ensures next.configs[j].disposition == if j == i && !Skipped(s.original, op) then Actionable(keep)
                                             else now.configs[j].disposition
    {
      ConfigOpMoves(s, op, i, j);
    }
    forall j | 0 <= j < |now.packages|
      ensures next.packages[j].disposition == now.packages[j].disposition
    {
      ConfigOpSparesPackages(s, op, j);
    }
    ConfigAlreadyAtIs(s, op, i);
    AfterOpIsProjected(s, op);
    RecordIsNew(s, op);
    ApplyDropsOrRecords(s, op);
    hide Skipped, DroppedAsNoop;
    assert ChangesNothing(now, next) <==> Skipped(s.original, op) || DroppedAsNoop(s, op);
  }

  lemma FirstConfigIs(configs: seq<ConfigFile>, path: string, i: nat)
    requires FirstConfigAt(configs, path, i)
    ensures i < |configs| && IsFirst(configs, ConfigKey(path), i)
  {
  }

  lemma ConfigOpMoves(s: State, op: Op, i: nat, j: nat)
    requires s.cursor <= |s.timeline| && op.item.ConfigItem? && i < |s.original.configs| && j < |s.original.configs|
    requires IsFirst(s.original.configs, ConfigKey(op.item.path), i) && s.original.configs[i].disposition.Actionable?
    ensures AfterOp(s, op).configs[j].disposition ==
            if j == i && !Skipped(s.original, op) then Actionable(op.keep) else Projected(s).configs[j].disposition
  {
    hide Projection;
    AppendOp(s.original, s.index, Active(s), op, ConfigSlot(j));
    LastWriteDecides(s.original, s.index, Active(s), ConfigSlot(j));
  }

  lemma ConfigOpSparesPackages(s: State, op: Op, j: nat)
    requires s.cursor <= |s.timeline| && op.item.ConfigItem? && j < |s.original.packages|
    ensures AfterOp(s, op).packages[j].disposition == Projected(s).packages[j].disposition
  {
    hide Projection;
    AppendOp(s.original, s.index, Active(s), op, PackageSlot(j));
    LastWriteDecides(s.original, s.index, Active(s), PackageSlot(j));
  }

  lemma ConfigAlreadyAtIs(s: State, op: Op, i: nat)
    requires s.cursor <= |s.timeline| && op.item.ConfigItem? && i < |s.original.configs|
    requires IsFirst(s.original.configs, ConfigKey(op.item.path), i) && s.original.configs[i].disposition.Actionable?
    ensures Projected(s).configs[i].disposition.Actionable?
    ensures DroppedAsNoop(s, op) <==> Projected(s).configs[i].disposition == Actionable(op.keep)
  {
    hide Projection;
    var configs, key := Projected(s).configs, ConfigKey(op.item.path);
    LastWriteDecides(s.original, s.index, Active(s), ConfigSlot(i));
    assert forall j :: 0 <= j < |configs| ==> key(configs[j]) == key(s.original.configs[j]);
    assert IsFirst(configs, key, i);
  }

  /** Service and drop-in ops are never dropped as no-ops: one that passes validation is recorded
      unless it includes a locked target. */
  lemma ServiceOpsAreRecorded(s: State, op: Op)
    requires s.cursor <= |s.timeline| && (op.item.ServiceItem? || op.item.DropInItem?) && TargetError(s, op) == None
    ensures SessionState.Apply(s, op) ==
            if op.keep && NamesLocked(s.original, op.item) then (s, Done) else (Record(s, Single(op)), Done)
  {
    hide TargetError, NamesLocked, Skipped;
    SkippedIsSpelled(s.original, op);
  }

  // ----- Uploads -----

  /** Recording an upload: the package it names carries the staged path and version, cached and
      uploaded, with all else as it was; no other package changes; the timeline stays; and the
      first upload over a host-cached RPM remembers the fields it displaces. */
  lemma UploadIsExact(s: State, canonical: string, path: string, version: Option<string>, t: State, i: nat)
    requires WellFormed(s) && IsSetUploaded(s, canonical, path, version, t) && i < |s.original.packages|
    ensures t.timeline == s.timeline && t.cursor == s.cursor && t.generation == s.generation + 1
    ensures |t.original.packages| == |s.original.packages|
    ensures var p := s.original.packages[i];
            var named := p.name + "." + p.arch == canonical;
            && t.original.packages[i] ==
               (if named then p.(repolessCached := true, uploaded := true, cachePath := Some(path),
                 uploadedVersion := version)
                else p)
            && (named ==> t.priorCache ==
                          if p.repolessCached && !p.uploaded
                          then s.priorCache[canonical := PriorCache(true, p.cachePath, p.uploadedVersion)]
                            else s.priorCache)
  {
    hide IndexFor;
    var packages := s.original.packages;
    CanonicalKeyIsPackageKey(packages, i);
    var hit := FirstExists(packages, CanonicalKey(canonical));
    if hit.Some? {
      assert CanonicalKey(canonical)(packages[hit.value]);
    }
  }

  /** An upload under a name no package carries leaves packages and memory as they are. */
  lemma UnknownUploadIsIgnored(s: State, canonical: string, path: string, version: Option<string>, t: State)
    requires IsSetUploaded(s, canonical, path, version, t)
    requires forall i :: 0 <= i < |s.original.packages| ==>
               s.original.packages[i].name + "." + s.original.packages[i].arch != canonical
    ensures t == s.(generation := s.generation + 1)
  {
    assert NoMatch(s.original.packages, CanonicalKey(canonical));
  }

  /** Removing an upload: an unknown or never uploaded package is reported as not found, or as the
      host's own cache; a staged file that could not be removed is refused; and only a removal
      changes the session, giving back what the upload displaced, or nothing. */
  lemma RemovalIsExact(s: State, name: string, arch: string, fileOk: bool, t: State, r: Removal, i: nat)
    requires WellFormed(s) && IsUnmark(s, name, arch, fileOk, t, r) && i < |s.original.packages|
    requires s.original.packages[i].name == name && s.original.packages[i].arch == arch
    ensures var p := s.original.packages[i];
            r == if !p.uploaded && !p.repolessCached then NotFound
                 else if !p.uploaded then CachedOnly
                 else if p.cachePath != None && !fileOk then Refused
                 else Removed
    ensures r != Removed ==> t == s
    ensures r == Removed ==>
              && |t.original.packages| == |s.original.packages|
              && (forall j :: 0 <= j < |s.original.packages| && j != i ==>
                t.original.packages[j] == s.original.packages[j])
              && t.timeline == s.timeline && t.cursor == s.cursor && name + "." + arch !in t.priorCache
              && var p, q, id := s.original.packages[i], t.original.packages[i], name + "." + arch;
                 if id in s.priorCache
                 then q == p.(uploaded := false, repolessCached := s.priorCache[id].repolessCached,
                              cachePath := s.priorCache[id].cachePath,
                                uploadedVersion := s.priorCache[id].uploadedVersion)
                 else q == p.(uploaded := false, repolessCached := false, cachePath := None, uploadedVersion := None)
  {
    hide IndexFor;
    CanonicalKeyIsPackageKey(s.original.packages, i);
  }

  lemma UnknownRemovalIsNotFound(s: State, name: string, arch: string, fileOk: bool, t: State, r: Removal)
    requires IsUnmark(s, name, arch, fileOk, t, r) && !HasPackage(s, name, arch)
    ensures t == s && r == NotFound
  {
    assert NoMatch(s.original.packages, PackageKey(name, arch));
  }
}
