/** The refine session: an original snapshot, a timeline with a cursor, and a view that every
    mutation recomputes. Each method is tied to what `SessionState` says the call does. */
module Session {
  import opened Types
  import opened RepoIndex
  import opened Replay
  import opened GroupState
  import opened SessionState
  import opened Views
  import opened Normalize
  import Projector
  import UploadMatch

  class RefineSession {
    var original: Snapshot
    var repoIndex: Index
    var timeline: seq<Entry>
    var cursor: nat
    var generation: nat
    var priorCache: map<string, PriorCache>
    var cachedView: View

    function S(): State
      reads this
    {
      State(original, repoIndex, timeline, cursor, generation, priorCache)
    }

    /** The state is well formed and the cached view is the view of that very state. */
    ghost predicate Valid()
      reads this
    {
      WellFormed(S()) && IsViewOf(S(), cachedView)
    }

    /** Index the scan, write the construction-time defaults, and compute the first view. */
    constructor (snapshot: Snapshot)
      requires UniquePackages(snapshot.packages)
      ensures Valid()
      ensures original == Normalized(snapshot) && IndexFor(snapshot, repoIndex)
      ensures timeline == [] && cursor == 0 && generation == 0 && priorCache == map[]
    {
      hide IndexFor, UniquePackages, AllActionable, IsViewOf;
      var normalized, idx := Prepare(snapshot);
      original, repoIndex := normalized, idx;
      timeline, cursor, generation, priorCache := [], 0, 0, map[];
      var v := RecomputeView(State(normalized, idx, [], 0, 0, map[]));
      cachedView := v;
    }

    method Refresh()
      requires WellFormed(S())
      modifies `cachedView
      ensures Valid()
    {
      hide IndexFor, UniquePackages, AllActionable, IsViewOf;
      cachedView := RecomputeView(S());
    }

    method RecordEntry(entry: Entry)
      requires WellFormed(S())
      modifies this
      ensures S() == Record(old(S()), entry) && Valid()
    {
      hide IndexFor, UniquePackages, AllActionable, IsViewOf;
      timeline := timeline[..cursor] + [entry];
      cursor := cursor + 1;
      generation := generation + 1;
      Refresh();
    }

    /** Replace the packages and the displaced-cache record, as an upload or removal does. */
    method InstallPackages(packages: seq<Package>, prior: map<string, PriorCache>)
      requires WellFormed(WithPackages(S(), packages, prior))
      modifies this
      ensures S() == WithPackages(old(S()), packages, prior) && Valid()
    {
      hide IndexFor, UniquePackages, AllActionable, IsViewOf;
      original := original.(packages := packages);
      priorCache := prior;
      generation := generation + 1;
      Refresh();
    }

    method MoveCursor(to: nat)
      requires Valid() && to <= |timeline|
      modifies this
      ensures S() == old(S()).(cursor := to, generation := old(generation) + 1) && Valid()
    {
      hide IndexFor, UniquePackages, AllActionable, IsViewOf;
      cursor := to;
      generation := generation + 1;
      Refresh();
    }

    /** The effective counts the view carries for one repo section. */
    function RepoEffectiveCounts(id: RepoId): RepoEffective
      reads this
    {
      EffectiveOf(cachedView.repoEffective, id)
    }

    method ValidateTarget(op: Op) returns (error: Option<Error>)
      requires Valid()
      ensures error == TargetError(S(), op)
    {
      hide IndexFor, UniquePackages, AllActionable, IsViewOf;
      error := None;
      match op.item {
        case PackageItem(n, a) =>
          var hit := Find(original.packages, PackageKey(n, a));
          if hit.None? {
            error := Some(UnknownTarget);
          }
        case ConfigItem(p) =>
          var hit := Find(original.configs, ConfigKey(p));
          if hit.None? {
            error := Some(UnknownTarget);
          } else if original.configs[hit.value].disposition.Advisory? {
            error := Some(AdvisoryNotToggleable);
          } else if original.configs[hit.value].disposition.Inventory? {
            error := Some(InventoryNotToggleable);
          }
        case RepoItem(section) =>
          var provenance := ProvenanceOf(repoIndex, section);
          if IsDistroRepo(section) || !(provenance.Verified? || provenance.Incomplete?) {
            error := Some(BadRequest);
          }
        case ServiceItem(u) =>
          var hit := Find(original.rows, UnitKey(u));
          if hit.None? {
            error := Some(UnknownTarget);
          }
        case DropInItem(p) =>
          error := ValidateDropIn(p, op.keep);
        case GroupItem(g) =>
          var hit := Find(original.groups, GroupKey(g));
          if hit.None? {
            error := Some(UnknownTarget);
          }
        case UnreplayedItem(_, _) =>
      }
    }

    /** A drop-in may not be included against an explicit exclusion of its unit's row. */
    method ValidateDropIn(path: string, keep: bool) returns (error: Option<Error>)
      requires Valid()
      ensures error == TargetError(S(), SetInclude(DropInItem(path), keep))
    {
      hide IndexFor, UniquePackages, AllActionable, IsViewOf;
      var hit := Find(original.dropIns, DropInKey(path));
      if hit.None? {
        return Some(UnknownTarget);
      }
      if keep {
        var projected := Projector.ProjectSnapshot(original, repoIndex, timeline[..cursor]);
        var excluded := HasExcludedParent(projected, path);
        if excluded {
          return Some(BadRequest);
        }
      }
      return None;
    }

    /** Refuse a group op over no effective member, or over members already at `keep`. */
    method CheckGroupNoop(group: string, keep: bool) returns (refused: bool)
      requires Valid()
      requires !NoMatch(original.groups, GroupKey(group))
      ensures refused == RefusedAsNoop(S(), SetInclude(GroupItem(group), keep))
    {
      hide IndexFor, UniquePackages, AllActionable, IsViewOf;
      var projected := Projector.ProjectSnapshot(original, repoIndex, timeline[..cursor]);
      refused := NoGroupMemberToDecide(projected.packages, original.groups, group, keep);
    }

    /** The same rule for a repo section, read off the view's cached counts. */
    method CheckRepoNoop(section: string, keep: bool) returns (refused: bool)
      requires Valid()
      ensures refused == RefusedAsNoop(S(), SetInclude(RepoItem(section), keep))
    {
      hide IndexFor, UniquePackages, AllActionable, IsViewOf;
      var e := RepoEffectiveCounts(Fold(section));
      refused := e.memberCount == 0 || (if keep then e.included == e.memberCount else e.included == 0);
      RepoCountsDecide(S(), cachedView, section, keep);
    }

    /** A package or config op that asks for what is projected already. */
    method IsOpNoop(op: Op) returns (noop: bool)
      requires Valid()
      ensures noop == DroppedAsNoop(S(), op)
    {
      hide IndexFor, UniquePackages, AllActionable, IsViewOf;
      var projected := Projector.ProjectSnapshot(original, repoIndex, timeline[..cursor]);
      noop := CheckAlreadyAt(projected, op);
    }

    method Apply(op: Op) returns (outcome: Outcome)
      requires Valid()
      modifies this
      ensures (S(), outcome) == SessionState.Apply(old(S()), op) && Valid()
    {
      hide IndexFor, UniquePackages, AllActionable, IsViewOf;
      var error := ValidateTarget(op);
      if error.Some? {
        return Rejected(error.value);
      }
      if op.keep {
        var locked := Projector.IsItemLocked(original, op.item);
        if locked {
          return Done;
        }
      }
      if op.item.GroupItem? {
        var refused := CheckGroupNoop(op.item.group, op.keep);
        if refused {
          return Rejected(NoopTarget);
        }
      }
      if op.item.RepoItem? {
        var refused := CheckRepoNoop(op.item.section, op.keep);
        if refused {
          return Rejected(NoopTarget);
        }
      }
      var noop := IsOpNoop(op);
      if noop {
        return Done;
      }
      RecordEntry(Single(op));
      return Done;
    }

    method ApplyDirective(group: string) returns (outcome: Outcome)
      requires Valid()
      modifies this
      ensures (S(), outcome) == SessionState.ApplyDirective(old(S()), group) && Valid()
    {
      hide IndexFor, UniquePackages, AllActionable, IsViewOf;
      var hit := Find(original.groups, GroupKey(group));
      if hit.None? {
        return Rejected(BadRequest);
      }
      if Types.Ungroup(group) in timeline[..cursor] {
        return Done;
      }
      RecordEntry(Types.Ungroup(group));
      return Done;
    }

    /** Drops includes of locked targets, and nothing else: targets are not validated and
        no-ops are kept, whatever the call is documented to filter. */
    method ApplyBatch(ops: seq<Op>)
      requires Valid()
      modifies this
      ensures S() == SessionState.ApplyBatch(old(S()), ops) && Valid()
    {
      hide IndexFor, UniquePackages, AllActionable, IsViewOf;
      var kept := [];
      for k := 0 to |ops|
        invariant S() == old(S()) && Valid()
        invariant kept == BatchOps(original, ops[..k])
      {
        var locked := false;
        if ops[k].keep {
          locked := Projector.IsItemLocked(original, ops[k].item);
        }
        if !locked {
          kept := kept + [ops[k]];
        }
        assert ops[..k + 1][..k] == ops[..k];
      }
      assert ops[..|ops|] == ops;
      if kept == [] {
        return;
      }
      RecordEntry(Batch(kept));
    }

    method Undo() returns (outcome: Outcome)
      requires Valid()
      modifies this
      ensures (S(), outcome) == SessionState.Undo(old(S())) && Valid()
    {
      hide IndexFor, UniquePackages, AllActionable, IsViewOf;
      if cursor == 0 {
        return Rejected(NothingToUndo);
      }
      MoveCursor(cursor - 1);
      return Done;
    }

    method Redo() returns (outcome: Outcome)
      requires Valid()
      modifies this
      ensures (S(), outcome) == SessionState.Redo(old(S())) && Valid()
    {
      hide IndexFor, UniquePackages, AllActionable, IsViewOf;
      if cursor >= |timeline| {
        return Rejected(NothingToRedo);
      }
      MoveCursor(cursor + 1);
      return Done;
    }

    method Reset() returns (outcome: Outcome)
      requires Valid()
      modifies this
      ensures (S(), outcome) == SessionState.Reset(old(S())) && Valid()
    {
      hide IndexFor, UniquePackages, AllActionable, IsViewOf;
      if timeline == [] {
        return Rejected(NothingToUndo);
      }
      timeline := [];
      cursor := 0;
      generation := generation + 1;
      Refresh();
      return Done;
    }

    /** Which repo-less package an uploaded file belongs to; asking changes nothing. */
    method MatchUploadedRpm(filename: string) returns (r: Option<UploadMatch.Match>)
      ensures UploadMatch.IsMatch(original.packages, filename, r)
    {
      r := UploadMatch.MatchUploadedRpm(original.packages, filename);
    }

    method SetUploaded(canonical: string, path: string, version: Option<string>)
      requires Valid()
      modifies this
      ensures IsSetUploaded(old(S()), canonical, path, version, S()) && Valid()
    {
      hide IndexFor, UniquePackages, AllActionable, IsViewOf;
      var packages, prior := RecordUploaded(original.packages, priorCache, canonical, path, version);
      UploadKeepsWellFormed(S(), packages, prior);
      InstallPackages(packages, prior);
    }

    method UnmarkUploaded(name: string, arch: string, fileOk: bool) returns (removal: Removal)
      requires Valid()
      modifies this
      ensures IsUnmark(old(S()), name, arch, fileOk, S(), removal) && Valid()
    {
      hide IndexFor, UniquePackages, AllActionable, IsViewOf;
      var packages, prior;
      packages, prior, removal := RemoveUploaded(original.packages, priorCache, name, arch, fileOk);
      if removal == Removed {
        UploadKeepsWellFormed(S(), packages, prior);
        InstallPackages(packages, prior);
      }
    }

    /** Hands out the projection only to a caller whose generation is the current one. */
    method ExportPlan(expected: nat) returns (plan: Option<Snapshot>)
      requires Valid()
      ensures plan == if expected == generation then Some(Projected(S())) else None
    {
      hide IndexFor, UniquePackages, AllActionable, IsViewOf;
      if expected != generation {
        return None;
      }
      var projected := Projector.ProjectSnapshot(original, repoIndex, timeline[..cursor]);
      return Some(projected);
    }
  }

  // ----- Helpers over plain values -----

  method Prepare(snapshot: Snapshot) returns (normalized: Snapshot, idx: Index)
    requires UniquePackages(snapshot.packages)
    ensures normalized == Normalized(snapshot) && IndexFor(snapshot, idx)
    ensures WellFormed(State(normalized, idx, [], 0, 0, map[]))
  {
    hide IndexFor, AllActionable;
    idx := Build(snapshot);
    normalized := NormalizeSnapshot(snapshot);
    NormalizedIsWellFormed(snapshot, idx);
  }

  method HasExcludedParent(projected: Snapshot, path: string) returns (excluded: bool)
    ensures excluded == ParentExcluded(projected, path)
  {
    var d := Find(projected.dropIns, DropInKey(path));
    if d.None? {
      return false;
    }
    for r := 0 to |projected.rows|
      invariant forall j :: 0 <= j < r ==>
                  !(projected.rows[j].unit == projected.dropIns[d.value].unit
                    && projected.rows[j].disposition == Actionable(false))
    {
      if projected.rows[r].unit == projected.dropIns[d.value].unit
        && projected.rows[r].disposition == Actionable(false) {
        return true;
      }
    }
    return false;
  }

  method NoGroupMemberToDecide(packages: seq<Package>, groups: seq<Group>, group: string, keep: bool)
    returns (refused: bool)
    requires !NoMatch(groups, GroupKey(group))
    ensures refused == NothingToDecide(packages, (iset p | GroupCounts(groups, group, p)), keep)
  {
    var hit := Find(groups, GroupKey(group));
    var members := groups[hit.value].members;
    var counts := (p: Package) => p.name in members && IsEffective(p);
    var effective := Select(packages, counts);
    FilterFacts(packages, counts);
    assert forall name :: IsMember(groups, group, name) <==> name in members;
    refused := forall i :: 0 <= i < |effective| ==> effective[i].disposition.IsIncluded() == keep;
    assert refused <==> forall p :: p in effective ==> p.disposition.IsIncluded() == keep;
  }

  method CheckAlreadyAt(projected: Snapshot, op: Op) returns (noop: bool)
    ensures noop == AlreadyAt(projected, op)
  {
    noop := false;
    match op.item {
      case PackageItem(n, a) =>
        var hit := Find(projected.packages, PackageKey(n, a));
        noop := hit.Some? && projected.packages[hit.value].disposition.IsIncluded() == op.keep;
      case ConfigItem(p) =>
        var hit := Find(projected.configs, ConfigKey(p));
        noop := hit.Some? && projected.configs[hit.value].disposition.IsIncluded() == op.keep;
      case _ =>
    }
  }

  method RecordUploaded(packages0: seq<Package>, prior0: map<string, PriorCache>, canonical: string, path: string,
                        version: Option<string>)
    returns (packages: seq<Package>, prior: map<string, PriorCache>)
    ensures IsUploadRecord(packages0, prior0, canonical, path, version, packages, prior)
    ensures SameNames(packages0, packages)
  {
    packages, prior := packages0, prior0;
    var hit := Find(packages, CanonicalKey(canonical));
    if hit.Some? {
      var i := hit.value;
      var p := packages[i];
      if p.repolessCached && !p.uploaded {
        prior := prior[canonical := PriorCache(p.repolessCached, p.cachePath, p.uploadedVersion)];
      }
      p := p.(uploaded := true, repolessCached := true, cachePath := Some(path), uploadedVersion := version);
      packages := packages[i := p];
      assert forall j :: IsFirst(packages0, CanonicalKey(canonical), j) ==> j == i;
    }
  }

  method RemoveUploaded(packages0: seq<Package>, prior0: map<string, PriorCache>, name: string, arch: string,
                        fileOk: bool)
    returns (packages: seq<Package>, prior: map<string, PriorCache>, removal: Removal)
    ensures NoMatch(packages0, PackageKey(name, arch)) ==> removal == NotFound
    ensures forall i :: IsFirst(packages0, PackageKey(name, arch), i) ==>
              && removal == RemovalFor(packages0[i], fileOk)
              && (removal == Removed ==>
                    packages == packages0[i := WithCache(packages0[i], Restored(prior0, packages0[i]), false)]
                    && prior == prior0 - {CanonicalId(name, arch)})
    ensures removal == Removed ==> SameNames(packages0, packages)
  {
    packages, prior := packages0, prior0;
    var hit := Find(packages, PackageKey(name, arch));
    if hit.None? {
      return packages, prior, NotFound;
    }
    var i := hit.value;
    var p := packages[i];
    assert forall j :: IsFirst(packages0, PackageKey(name, arch), j) ==> j == i;
    if !p.uploaded {
      return packages, prior, if p.repolessCached then CachedOnly else NotFound;
    }
    if p.cachePath.Some? && !fileOk {
      return packages, prior, Refused;
    }
    var key := CanonicalId(name, arch);
    var displaced := if key in prior then prior[key] else PriorCache(false, None, None);
    prior := prior - {key};
    p := p.(repolessCached := displaced.repolessCached, cachePath := displaced.cachePath,
      uploadedVersion := displaced.uploadedVersion, uploaded := false);
    packages := packages[i := p];
    removal := Removed;
  }

  ghost predicate SameNames(a: seq<Package>, b: seq<Package>) {
    |a| == |b| && forall i :: 0 <= i < |a| ==>
      a[i].name == b[i].name && a[i].arch == b[i].arch && a[i].sourceRepo == b[i].sourceRepo
        && a[i].disposition == b[i].disposition
  }

  // ----- Why the state stays well formed -----

  lemma NormalizedIsWellFormed(snapshot: Snapshot, idx: Index)
    requires UniquePackages(snapshot.packages) && IndexFor(snapshot, idx)
    ensures WellFormed(State(Normalized(snapshot), idx, [], 0, 0, map[]))
  {
    var n := Normalized(snapshot);
    forall i | 0 <= i < |snapshot.packages|
      ensures n.packages[i].disposition.Actionable?
      ensures n.packages[i] == snapshot.packages[i].(disposition := n.packages[i].disposition,
                locked := n.packages[i].locked)
    {
      NormalizedPackageFacts(snapshot, i);
    }
    IndexForFrame(snapshot, n, idx);
  }

  /** The index reads repo sections, key paths, and packages' names and repos. */
  lemma IndexForFrame(a: Snapshot, b: Snapshot, idx: Index)
    requires IndexFor(a, idx)
    requires |a.repoFiles| == |b.repoFiles| && |a.packages| == |b.packages|
    requires forall f :: 0 <= f < |a.repoFiles| ==>
              a.repoFiles[f].path == b.repoFiles[f].path && a.repoFiles[f].sections == b.repoFiles[f].sections
    requires forall i :: 0 <= i < |a.packages| ==>
              a.packages[i].name == b.packages[i].name && a.packages[i].sourceRepo == b.packages[i].sourceRepo
    requires a.gpgKeys == b.gpgKeys
    ensures IndexFor(b, idx)
  {
    assert forall f, k :: SectionAt(a.repoFiles, f, k) <==> SectionAt(b.repoFiles, f, k);
    forall id, path
      ensures Defines(a.repoFiles, id, path) <==> Defines(b.repoFiles, id, path)
    {
      SectionsAgree(a.repoFiles, b.repoFiles, id, path);
      SectionsAgree(b.repoFiles, a.repoFiles, id, path);
    }
    forall id, key
      ensures References(a.repoFiles, id, key) <==> References(b.repoFiles, id, key)
    {
      SectionsAgree(a.repoFiles, b.repoFiles, id, key);
      SectionsAgree(b.repoFiles, a.repoFiles, id, key);
    }
    ProvenanceFrame(a, b, idx);
  }

  lemma SectionsAgree(a: seq<RepoFile>, b: seq<RepoFile>, id: RepoId, x: string)
    requires |a| == |b|
    requires forall f :: 0 <= f < |a| ==> a[f].path == b[f].path && a[f].sections == b[f].sections
    ensures Defines(a, id, x) ==> Defines(b, id, x)
    ensures References(a, id, x) ==> References(b, id, x)
    ensures forall f, k :: Decides(a, id, f, k) ==> Decides(b, id, f, k)
  {
    if Defines(a, id, x) {
      var f, k :| SectionAt(a, f, k) && a[f].path == x && Fold(a[f].sections[k].id) == id;
      assert SectionAt(b, f, k);
    }
    if References(a, id, x) {
      var f, k :| SectionAt(a, f, k) && Fold(a[f].sections[k].id) == id && x in a[f].sections[k].gpgKeyPaths;
      assert SectionAt(b, f, k);
    }
    assert forall f, k :: SectionAt(a, f, k) <==> SectionAt(b, f, k);
  }

  lemma ProvenanceFrame(a: Snapshot, b: Snapshot, idx: Index)
    requires ProvenanceFor(a, idx)
    requires |a.repoFiles| == |b.repoFiles| && |a.packages| == |b.packages|
    requires forall f :: 0 <= f < |a.repoFiles| ==>
              a.repoFiles[f].path == b.repoFiles[f].path && a.repoFiles[f].sections == b.repoFiles[f].sections
    requires forall i :: 0 <= i < |a.packages| ==>
              a.packages[i].name == b.packages[i].name && a.packages[i].sourceRepo == b.packages[i].sourceRepo
    requires a.gpgKeys == b.gpgKeys
    ensures ProvenanceFor(b, idx)
  {
    forall id, f, k
      ensures Decides(a.repoFiles, id, f, k) <==> Decides(b.repoFiles, id, f, k)
    {
      SectionsAgree(a.repoFiles, b.repoFiles, id, "");
      SectionsAgree(b.repoFiles, a.repoFiles, id, "");
    }
    forall id, name
      ensures Attributed(a.packages, id, name) <==> Attributed(b.packages, id, name)
    {
      AttributionAgrees(a.packages, b.packages, id, name);
      AttributionAgrees(b.packages, a.packages, id, name);
    }
    forall id | id in idx.provenance && (forall f, k :: !Decides(b.repoFiles, id, f, k))
      ensures idx.provenance[id] == Stale && exists name :: Attributed(b.packages, id, name)
    {
      assert forall f, k :: !Decides(a.repoFiles, id, f, k);
      var name :| Attributed(a.packages, id, name);
      assert Attributed(b.packages, id, name);
    }
  }

  lemma AttributionAgrees(a: seq<Package>, b: seq<Package>, id: RepoId, name: string)
    requires |a| == |b|
    requires forall i :: 0 <= i < |a| ==> a[i].name == b[i].name && a[i].sourceRepo == b[i].sourceRepo
    ensures Attributed(a, id, name) ==> Attributed(b, id, name)
  {
    if Attributed(a, id, name) {
      var i :| 0 <= i < |a| && a[i].name == name && a[i].sourceRepo != "" && Fold(a[i].sourceRepo) == id;
      assert b[i].name == name;
    }
  }

  lemma UploadKeepsWellFormed(s: State, packages: seq<Package>, prior: map<string, PriorCache>)
    requires WellFormed(s) && SameNames(s.original.packages, packages)
    ensures WellFormed(WithPackages(s, packages, prior))
  {
    IndexForFrame(s.original, s.original.(packages := packages), s.index);
  }

  // ----- Counts decide the repo no-op rule -----

  lemma {:induction false} CountsCompare<T(!new)>(s: seq<T>, p: T -> bool, q: T -> bool)
    requires forall x :: x in s && q(x) ==> p(x)
    ensures |Filter(s, q)| <= |Filter(s, p)|
    ensures |Filter(s, q)| == |Filter(s, p)| <==> forall x :: x in s && p(x) ==> q(x)
  {
    if s != [] {
      var n := |s| - 1;
      CountsCompare(s[..n], p, q);
      assert s == s[..n] + [s[n]];
      assert s[n] in s;
    }
  }

  /** The cached counts answer the no-op question as a fresh look at the projection would. */
  lemma RepoCountsDecide(s: State, v: View, section: string, keep: bool)
    requires WellFormed(s) && IsViewOf(s, v)
    ensures var e := EffectiveOf(v.repoEffective, Fold(section));
            var refused := e.memberCount == 0 || (if keep then e.included == e.memberCount else e.included == 0);
            refused <==> RefusedAsNoop(s, SetInclude(RepoItem(section), keep))
  {
    var id := Fold(section);
    var packages := Projected(s).packages;
    var visible := set r | r in v.packages :: CanonicalId(r.entry.name, r.entry.arch);
    assert IsVisibleIds(v.packages, visible);
    assert EffectiveOf(v.repoEffective, id) == FreshCount(Effective(packages), id, visible);
    FreshCountDecides(packages, id, visible, keep);
    assert forall p :: p in Counted(s, RepoItem(section)) <==> RepoCounts(id, p);
  }

  lemma FreshCountDecides(packages: seq<Package>, id: RepoId, visible: set<string>, keep: bool)
    ensures var e := FreshCount(Effective(packages), id, visible);
            (e.memberCount == 0 || (if keep then e.included == e.memberCount else e.included == 0)) <==>
            forall i :: 0 <= i < |packages| && RepoCounts(id, packages[i]) ==>
              packages[i].disposition.IsIncluded() == keep
  {
    var pool := Effective(packages);
    FilterFacts(packages, IsEffective);
    FilterFacts(pool, CountedIn(id));
    FilterFacts(pool, IncludedIn(id));
    CountsCompare(pool, CountedIn(id), IncludedIn(id));
    assert forall p :: p in pool && CountedIn(id)(p) <==> p in packages && RepoCounts(id, p);
  }
}
