/** The replay as the session runs it: a cloned snapshot updated op by op, proved to end in
    the projection. */
module Projector {
  import opened Types
  import opened RepoIndex
  import opened Replay

  method IsItemLocked(snap: Snapshot, item: ItemId) returns (locked: bool)
    ensures locked == ItemLocked(snap, item)
  {
    match item {
      case PackageItem(n, a) =>
        var i := Find(snap.packages, PackageKey(n, a));
        locked := i.Some? && snap.packages[i.value].locked;
      case ConfigItem(p) =>
        var i := Find(snap.configs, ConfigKey(p));
        locked := i.Some? && snap.configs[i.value].locked;
      case ServiceItem(u) =>
        var i := Find(snap.rows, UnitKey(u));
        locked := i.Some? && snap.rows[i.value].locked;
      case DropInItem(p) =>
        var i := Find(snap.dropIns, DropInKey(p));
        locked := i.Some? && snap.dropIns[i.value].locked;
      case _ =>
        locked := false;
    }
  }

  lemma ExcludedOneMore(before: seq<Op>, ops: seq<Op>, k: nat)
    requires k < |ops|
    ensures ExcludedSections(before + ops[..k + 1]) == ExcludedStep(ExcludedSections(before + ops[..k]), ops[k])
  {
    var run := before + ops[..k + 1];
    assert run[..|run| - 1] == before + ops[..k];
  }

  method ExcludedAfterOps(excluded0: set<RepoId>, ghost before: seq<Op>, ops: seq<Op>) returns (excluded: set<RepoId>)
    requires excluded0 == ExcludedSections(before)
    ensures excluded == ExcludedSections(before + ops)
  {
    excluded := excluded0;
    assert before + ops[..0] == before;
    for k := 0 to |ops|
      invariant excluded == ExcludedSections(before + ops[..k])
    {
      ExcludedOneMore(before, ops, k);
      if ops[k].item.RepoItem? {
        var id := Fold(ops[k].item.section);
        if ops[k].keep {
          excluded := excluded - {id};
        } else {
          excluded := excluded + {id};
        }
      }
    }
    assert ops[..|ops|] == ops;
  }

  method ExcludedSectionsAt(entries: seq<Entry>) returns (excluded: set<RepoId>)
    ensures excluded == ExcludedSections(ActiveOps(entries))
  {
    excluded := {};
    for e := 0 to |entries|
      invariant excluded == ExcludedSections(ActiveOps(entries[..e]))
    {
      excluded := ExcludedAfterOps(excluded, ActiveOps(entries[..e]), OpsOf(entries[e]));
      assert entries[..e + 1][..e] == entries[..e];
    }
    assert entries[..|entries|] == entries;
  }

  /** The package half of the repo cascade; locked packages stand outside it. */
  method CascadeRepoPackages(packages0: seq<Package>, section: string, keep: bool) returns (packages: seq<Package>)
    ensures |packages| == |packages0|
    ensures forall i :: 0 <= i < |packages| ==>
              packages[i] == if Fold(packages0[i].sourceRepo) == Fold(section) && !packages0[i].locked
                             then packages0[i].(disposition := Actionable(keep)) else packages0[i]
  {
    packages := packages0;
    for i := 0 to |packages|
      invariant |packages| == |packages0|
      invariant forall j :: i <= j < |packages| ==> packages[j] == packages0[j]
      invariant forall j :: 0 <= j < i ==>
                  packages[j] == if Fold(packages0[j].sourceRepo) == Fold(section) && !packages0[j].locked
                                 then packages0[j].(disposition := Actionable(keep)) else packages0[j]
    {
      if Fold(packages[i].sourceRepo) == Fold(section) && !packages[i].locked {
        packages := packages[i := packages[i].(disposition := Actionable(keep))];
      }
    }
  }

  /** Write to the first repo file at each listed path, where `act` says to. */
  method CascadeRepoFiles(files0: seq<RepoFile>, paths: seq<string>, act: string -> bool, keep: bool)
    returns (files: seq<RepoFile>)
    ensures |files| == |files0|
    ensures forall i :: 0 <= i < |files| ==>
              files[i] == if files0[i].path in paths && act(files0[i].path)
                && IsFirst(files0, RepoFileKey(files0[i].path), i)
                          then files0[i].(disposition := Actionable(keep)) else files0[i]
  {
    files := files0;
    for k := 0 to |paths|
      invariant |files| == |files0|
      invariant forall i :: 0 <= i < |files| ==>
                  files[i] == if files0[i].path in paths[..k] && act(files0[i].path)
                    && IsFirst(files0, RepoFileKey(files0[i].path), i)
                              then files0[i].(disposition := Actionable(keep)) else files0[i]
    {
      var path := paths[k];
      if act(path) {
        var hit := Find(files, RepoFileKey(path));
        assert forall i :: IsFirst(files, RepoFileKey(path), i) <==> IsFirst(files0, RepoFileKey(path), i);
        if hit.Some? {
          assert forall i :: IsFirst(files0, RepoFileKey(path), i) ==> i == hit.value;
          files := files[hit.value := files[hit.value].(disposition := Actionable(keep))];
        }
      }
    }
    assert paths[..|paths|] == paths;
  }

  method CascadeGpgKeys(keys0: seq<GpgKey>, paths: seq<string>, act: string -> bool, keep: bool)
    returns (keys: seq<GpgKey>)
    ensures |keys| == |keys0|
    ensures forall i :: 0 <= i < |keys| ==>
              keys[i] == if keys0[i].path in paths && act(keys0[i].path) && IsFirst(keys0, GpgKeyKey(keys0[i].path), i)
                         then keys0[i].(disposition := Actionable(keep)) else keys0[i]
  {
    keys := keys0;
    for k := 0 to |paths|
      invariant |keys| == |keys0|
      invariant forall i :: 0 <= i < |keys| ==>
                  keys[i] == if keys0[i].path in paths[..k] && act(keys0[i].path)
                    && IsFirst(keys0, GpgKeyKey(keys0[i].path), i)
                             then keys0[i].(disposition := Actionable(keep)) else keys0[i]
    {
      var path := paths[k];
      if act(path) {
        var hit := Find(keys, GpgKeyKey(path));
        assert forall i :: IsFirst(keys, GpgKeyKey(path), i) <==> IsFirst(keys0, GpgKeyKey(path), i);
        if hit.Some? {
          assert forall i :: IsFirst(keys0, GpgKeyKey(path), i) ==> i == hit.value;
          keys := keys[hit.value := keys[hit.value].(disposition := Actionable(keep))];
        }
      }
    }
    assert paths[..|paths|] == paths;
  }

  /** A path whose every defining section is excluded. */
  function AllExcluded(filesBySection: map<RepoId, seq<string>>, excluded: set<RepoId>): string -> bool {
    (path: string) => forall id :: id in filesBySection && path in filesBySection[id] ==> id in excluded
  }

  function AllReferrersExcluded(sectionsByKey: map<string, set<RepoId>>, excluded: set<RepoId>): string -> bool {
    (path: string) => path in sectionsByKey && sectionsByKey[path] <= excluded
  }

  function Always(): string -> bool {
    (path: string) => true
  }

  method ReplayRepo(orig: Snapshot, idx: Index, entries: seq<Entry>, snap0: Snapshot, op: Op) returns (snap: Snapshot)
    requires SameFrame(orig, snap0) && op.item.RepoItem?
    ensures snap == ApplyOp(orig, idx, ExcludedSections(ActiveOps(entries)), snap0, op)
  {
    var section, id := op.item.section, Fold(op.item.section);
    var packages := CascadeRepoPackages(snap0.packages, section, op.keep);
    var files := if id in idx.filesBySection then idx.filesBySection[id] else [];
    var keys := if id in idx.keysBySection then idx.keysBySection[id] else [];
    var repoFiles, gpgKeys;
    ghost var excluded := ExcludedSections(ActiveOps(entries));
    if op.keep {
      repoFiles := CascadeRepoFiles(snap0.repoFiles, files, Always(), true);
      gpgKeys := CascadeGpgKeys(snap0.gpgKeys, keys, Always(), true);
    } else {
      var gone := ExcludedSectionsAt(entries);
      repoFiles := CascadeRepoFiles(snap0.repoFiles, files, AllExcluded(idx.filesBySection, gone), false);
      gpgKeys := CascadeGpgKeys(snap0.gpgKeys, keys, AllReferrersExcluded(idx.sectionsByKey, gone), false);
    }
    snap := snap0.(packages := packages, repoFiles := repoFiles, gpgKeys := gpgKeys);
    assert packages == PackagesAfter(orig, op, snap0.packages);
    assert repoFiles == RepoFilesAfter(orig, idx, excluded, op, snap0.repoFiles) by {
      RepoFilesFrame(orig, snap0);
    }
    assert gpgKeys == GpgKeysAfter(orig, idx, excluded, op, snap0.gpgKeys) by {
      GpgKeysFrame(orig, snap0);
    }
    Untouched(orig, idx, excluded, snap0, op);
  }

  lemma RepoFilesFrame(orig: Snapshot, snap: Snapshot)
    requires SameFrame(orig, snap)
    ensures forall path, i :: IsFirst(snap.repoFiles, RepoFileKey(path), i) <==>
              IsFirst(orig.repoFiles, RepoFileKey(path), i)
  {
    forall path, i
      ensures IsFirst(snap.repoFiles, RepoFileKey(path), i) <==> IsFirst(orig.repoFiles, RepoFileKey(path), i)
    {
      assert forall j :: 0 <= j < |snap.repoFiles| ==>
        RepoFileKey(path)(snap.repoFiles[j]) == RepoFileKey(path)(orig.repoFiles[j]);
    }
  }

  lemma GpgKeysFrame(orig: Snapshot, snap: Snapshot)
    requires SameFrame(orig, snap)
    ensures forall path, i :: IsFirst(snap.gpgKeys, GpgKeyKey(path), i) <==> IsFirst(orig.gpgKeys, GpgKeyKey(path), i)
  {
    forall path, i
      ensures IsFirst(snap.gpgKeys, GpgKeyKey(path), i) <==> IsFirst(orig.gpgKeys, GpgKeyKey(path), i)
    {
      assert forall j :: 0 <= j < |snap.gpgKeys| ==>
        GpgKeyKey(path)(snap.gpgKeys[j]) == GpgKeyKey(path)(orig.gpgKeys[j]);
    }
  }

  /** Components an op of the given kind never writes. */
  lemma Untouched(orig: Snapshot, idx: Index, excluded: set<RepoId>, snap: Snapshot, op: Op)
    requires SameFrame(orig, snap)
    ensures (!op.item.PackageItem? && !op.item.RepoItem? && !op.item.GroupItem?) || Skipped(orig, op) ==>
              PackagesAfter(orig, op, snap.packages) == snap.packages
    ensures !op.item.RepoItem? ==> RepoFilesAfter(orig, idx, excluded, op, snap.repoFiles) == snap.repoFiles
    ensures !op.item.RepoItem? ==> GpgKeysAfter(orig, idx, excluded, op, snap.gpgKeys) == snap.gpgKeys
    ensures !op.item.ConfigItem? || Skipped(orig, op) ==> ConfigsAfter(orig, op, snap.configs) == snap.configs
    ensures !op.item.ServiceItem? || Skipped(orig, op) ==> RowsAfter(orig, op, snap.rows) == snap.rows
    ensures (!op.item.ServiceItem? && !op.item.DropInItem?) || Skipped(orig, op) ==>
              DropInsAfter(orig, op, snap.dropIns) == snap.dropIns
  {
  }

  method ReplayGroup(orig: Snapshot, idx: Index, ghost excluded: set<RepoId>, snap0: Snapshot, op: Op)
    returns (snap: Snapshot)
    requires SameFrame(orig, snap0) && op.item.GroupItem?
    ensures snap == ApplyOp(orig, idx, excluded, snap0, op)
  {
    var group := Find(orig.groups, GroupKey(op.item.group));
    var members := if group.Some? then orig.groups[group.value].members else [];
    assert forall name :: IsMember(orig.groups, op.item.group, name) <==> name in members;
    var packages := snap0.packages;
    for i := 0 to |packages|
      invariant |packages| == |snap0.packages|
      invariant forall j :: i <= j < |packages| ==> packages[j] == snap0.packages[j]
      invariant forall j :: 0 <= j < i ==> packages[j] == PackagesAfter(orig, op, snap0.packages)[j]
    {
      if packages[i].name in members {
        if op.keep && packages[i].locked {
          continue;
        }
        packages := packages[i := packages[i].(disposition := Actionable(op.keep))];
      }
    }
    assert packages == PackagesAfter(orig, op, snap0.packages);
    Untouched(orig, idx, excluded, snap0, op);
    snap := snap0.(packages := packages);
  }

  method ReplayService(orig: Snapshot, idx: Index, ghost excluded: set<RepoId>, snap0: Snapshot, op: Op)
    returns (snap: Snapshot)
    requires SameFrame(orig, snap0) && op.item.ServiceItem? && !Skipped(orig, op)
    ensures snap == ApplyOp(orig, idx, excluded, snap0, op)
  {
    var unit := op.item.unit;
    var rows, dropIns := snap0.rows, snap0.dropIns;
    var hit := Find(rows, UnitKey(unit));
    assert forall j :: 0 <= j < |rows| ==> UnitKey(unit)(rows[j]) == UnitKey(unit)(orig.rows[j]);
    assert forall i :: IsFirst(rows, UnitKey(unit), i) <==> IsFirst(orig.rows, UnitKey(unit), i);
    if hit.Some? {
      assert forall i :: IsFirst(orig.rows, UnitKey(unit), i) ==> i == hit.value;
      rows := rows[hit.value := rows[hit.value].(disposition := Actionable(op.keep))];
    }
    assert rows == RowsAfter(orig, op, snap0.rows);
    for i := 0 to |dropIns|
      invariant |dropIns| == |snap0.dropIns|
      invariant forall j :: i <= j < |dropIns| ==> dropIns[j] == snap0.dropIns[j]
      invariant forall j :: 0 <= j < i ==> dropIns[j] == DropInsAfter(orig, op, snap0.dropIns)[j]
    {
      if dropIns[i].unit == unit {
        dropIns := dropIns[i := dropIns[i].(disposition := Actionable(op.keep))];
      }
    }
    assert dropIns == DropInsAfter(orig, op, snap0.dropIns);
    Untouched(orig, idx, excluded, snap0, op);
    snap := snap0.(rows := rows, dropIns := dropIns);
  }

  method ReplayPackage(orig: Snapshot, idx: Index, ghost excluded: set<RepoId>, snap0: Snapshot, op: Op)
    returns (snap: Snapshot)
    requires SameFrame(orig, snap0) && op.item.PackageItem? && !Skipped(orig, op)
    ensures snap == ApplyOp(orig, idx, excluded, snap0, op)
  {
    var key := PackageKey(op.item.name, op.item.arch);
    var packages := snap0.packages;
    var hit := Find(packages, key);
    assert forall j :: 0 <= j < |packages| ==> key(packages[j]) == key(orig.packages[j]);
    assert forall i :: IsFirst(packages, key, i) <==> IsFirst(orig.packages, key, i);
    if hit.Some? {
      assert forall i :: IsFirst(orig.packages, key, i) ==> i == hit.value;
      packages := packages[hit.value := packages[hit.value].(disposition := Actionable(op.keep))];
    }
    assert packages == PackagesAfter(orig, op, snap0.packages);
    Untouched(orig, idx, excluded, snap0, op);
    snap := snap0.(packages := packages);
  }

  /** Config is the one kind that can be advisory, so its write goes through `WithInclude`. */
  method ReplayConfig(orig: Snapshot, idx: Index, ghost excluded: set<RepoId>, snap0: Snapshot, op: Op)
    returns (snap: Snapshot)
    requires SameFrame(orig, snap0) && op.item.ConfigItem? && !Skipped(orig, op)
    ensures snap == ApplyOp(orig, idx, excluded, snap0, op)
  {
    var key := ConfigKey(op.item.path);
    var configs := snap0.configs;
    var hit := Find(configs, key);
    assert forall j :: 0 <= j < |configs| ==> key(configs[j]) == key(orig.configs[j]);
    assert forall i :: IsFirst(configs, key, i) <==> IsFirst(orig.configs, key, i);
    if hit.Some? {
      assert forall i :: IsFirst(orig.configs, key, i) ==> i == hit.value;
      var c := configs[hit.value];
      configs := configs[hit.value := c.(disposition := c.disposition.WithInclude(op.keep))];
    }
    assert configs == ConfigsAfter(orig, op, snap0.configs);
    Untouched(orig, idx, excluded, snap0, op);
    snap := snap0.(configs := configs);
  }

  method ReplayDropIn(orig: Snapshot, idx: Index, ghost excluded: set<RepoId>, snap0: Snapshot, op: Op)
    returns (snap: Snapshot)
    requires SameFrame(orig, snap0) && op.item.DropInItem? && !Skipped(orig, op)
    ensures snap == ApplyOp(orig, idx, excluded, snap0, op)
  {
    var key := DropInKey(op.item.path);
    var dropIns := snap0.dropIns;
    var hit := Find(dropIns, key);
    assert forall j :: 0 <= j < |dropIns| ==> key(dropIns[j]) == key(orig.dropIns[j]);
    assert forall i :: IsFirst(dropIns, key, i) <==> IsFirst(orig.dropIns, key, i);
    if hit.Some? {
      assert forall i :: IsFirst(orig.dropIns, key, i) ==> i == hit.value;
      dropIns := dropIns[hit.value := dropIns[hit.value].(disposition := Actionable(op.keep))];
    }
    assert dropIns == DropInsAfter(orig, op, snap0.dropIns);
    Untouched(orig, idx, excluded, snap0, op);
    snap := snap0.(dropIns := dropIns);
  }

  method ReplayOp(orig: Snapshot, idx: Index, entries: seq<Entry>, snap0: Snapshot, op: Op) returns (snap: Snapshot)
    requires SameFrame(orig, snap0)
    ensures snap == ApplyOp(orig, idx, ExcludedSections(ActiveOps(entries)), snap0, op)
  {
    ghost var excluded := ExcludedSections(ActiveOps(entries));
    var locked := IsItemLocked(orig, op.item);
    if op.keep && locked {
      Untouched(orig, idx, excluded, snap0, op);
      return snap0;
    }
    match op.item {
      case PackageItem(_, _) => snap := ReplayPackage(orig, idx, excluded, snap0, op);
      case RepoItem(_) => snap := ReplayRepo(orig, idx, entries, snap0, op);
      case ConfigItem(_) => snap := ReplayConfig(orig, idx, excluded, snap0, op);
      case ServiceItem(_) => snap := ReplayService(orig, idx, excluded, snap0, op);
      case DropInItem(_) => snap := ReplayDropIn(orig, idx, excluded, snap0, op);
      case GroupItem(_) => snap := ReplayGroup(orig, idx, excluded, snap0, op);
      case UnreplayedItem(_, _) =>
        Untouched(orig, idx, excluded, snap0, op);
        snap := snap0;
    }
  }

  method ClampLockedItems(snap0: Snapshot) returns (snap: Snapshot)
    ensures snap == Clamp(snap0)
  {
    var packages, files, configs, rows, dropIns := snap0.packages, snap0.repoFiles, snap0.configs, snap0.rows,
      snap0.dropIns;
    for i := 0 to |packages|
      invariant |packages| == |snap0.packages|
      invariant forall j :: 0 <= j < i ==> packages[j] == Clamp(snap0).packages[j]
      invariant forall j :: i <= j < |packages| ==> packages[j] == snap0.packages[j]
    {
      if packages[i].locked {
        packages := packages[i := packages[i].(disposition := Actionable(false))];
      }
    }
    for i := 0 to |files|
      invariant |files| == |snap0.repoFiles|
      invariant forall j :: 0 <= j < i ==> files[j] == Clamp(snap0).repoFiles[j]
      invariant forall j :: i <= j < |files| ==> files[j] == snap0.repoFiles[j]
    {
      if files[i].locked {
        files := files[i := files[i].(disposition := Actionable(false))];
      }
    }
    for i := 0 to |configs|
      invariant |configs| == |snap0.configs|
      invariant forall j :: 0 <= j < i ==> configs[j] == Clamp(snap0).configs[j]
      invariant forall j :: i <= j < |configs| ==> configs[j] == snap0.configs[j]
    {
      if configs[i].locked {
        configs := configs[i := configs[i].(disposition := Actionable(false))];
      }
    }
    for i := 0 to |rows|
      invariant |rows| == |snap0.rows|
      invariant forall j :: 0 <= j < i ==> rows[j] == Clamp(snap0).rows[j]
      invariant forall j :: i <= j < |rows| ==> rows[j] == snap0.rows[j]
    {
      if rows[i].locked {
        rows := rows[i := rows[i].(disposition := Actionable(false))];
      }
    }
    for i := 0 to |dropIns|
      invariant |dropIns| == |snap0.dropIns|
      invariant forall j :: 0 <= j < i ==> dropIns[j] == Clamp(snap0).dropIns[j]
      invariant forall j :: i <= j < |dropIns| ==> dropIns[j] == snap0.dropIns[j]
    {
      if dropIns[i].locked {
        dropIns := dropIns[i := dropIns[i].(disposition := Actionable(false))];
      }
    }
    snap := snap0.(packages := packages, repoFiles := files, configs := configs, rows := rows, dropIns := dropIns);
    assert packages == Clamp(snap0).packages && files == Clamp(snap0).repoFiles && configs == Clamp(snap0).configs;
    assert rows == Clamp(snap0).rows && dropIns == Clamp(snap0).dropIns;
  }

  method ReplayEntry(orig: Snapshot, idx: Index, entries: seq<Entry>, ghost before: seq<Op>, snap0: Snapshot,
                     ops: seq<Op>) returns (snap: Snapshot)
    requires snap0 == ApplyOps(orig, idx, ExcludedSections(ActiveOps(entries)), before)
    ensures snap == ApplyOps(orig, idx, ExcludedSections(ActiveOps(entries)), before + ops)
  {
    ghost var excluded := ExcludedSections(ActiveOps(entries));
    snap := snap0;
    assert before + ops[..0] == before;
    for k := 0 to |ops|
      invariant snap == ApplyOps(orig, idx, excluded, before + ops[..k])
    {
      snap := ReplayOp(orig, idx, entries, snap, ops[k]);
      ApplyOneMore(orig, idx, excluded, before, ops, k);
    }
    assert ops[..|ops|] == ops;
  }

  lemma ApplyOneMore(orig: Snapshot, idx: Index, excluded: set<RepoId>, before: seq<Op>, ops: seq<Op>, k: nat)
    requires k < |ops|
    ensures ApplyOps(orig, idx, excluded, before + ops[..k + 1]) ==
            ApplyOp(orig, idx, excluded, ApplyOps(orig, idx, excluded, before + ops[..k]), ops[k])
  {
    hide ApplyOp, SameFrame;
    var run := before + ops[..k + 1];
    assert run[..|run| - 1] == before + ops[..k];
  }

  method ProjectSnapshot(orig: Snapshot, idx: Index, entries: seq<Entry>) returns (snap: Snapshot)
    ensures snap == Projection(orig, idx, entries)
  {
    snap := orig;
    for e := 0 to |entries|
      invariant snap == ApplyOps(orig, idx, ExcludedSections(ActiveOps(entries)), ActiveOps(entries[..e]))
    {
      snap := ReplayEntry(orig, idx, entries, ActiveOps(entries[..e]), snap, OpsOf(entries[e]));
      assert entries[..e + 1][..e] == entries[..e];
    }
    assert entries[..|entries|] == entries;
    snap := ClampLockedItems(snap);
  }
}
