/** Closed forms of the replay: what a whole timeline leaves in one slot, without replaying it. */
module ClosedForms {
  import opened Types
  import opened RepoIndex
  import opened Replay

  // ----- Last writer wins -----

  /** What each op of a run writes to one slot. */
  ghost function Writes(orig: Snapshot, idx: Index, excluded: set<RepoId>, ops: seq<Op>,
                        slot: Slot): (ws: seq<Option<bool>>)
    requires HasSlot(orig, slot)
    ensures |ws| == |ops|
    ensures forall k :: 0 <= k < |ops| ==> ws[k] == WriteOf(orig, idx, excluded, ops[k], slot)
  {
    seq(|ops|, k requires 0 <= k < |ops| => WriteOf(orig, idx, excluded, ops[k], slot))
  }

  ghost predicate IsLast(ws: seq<Option<bool>>, k: int) {
    0 <= k < |ws| && ws[k].Some? && forall m :: k < m < |ws| ==> ws[m].None?
  }

  ghost predicate AllNone(ws: seq<Option<bool>>) {
    forall m :: 0 <= m < |ws| ==> ws[m].None?
  }

  ghost function LastOf(ws: seq<Option<bool>>): (r: Option<bool>)
    ensures r.None? <==> AllNone(ws)
    ensures r.Some? ==> exists k :: IsLast(ws, k) && ws[k] == r
  {
    if ws == [] then None
    else
      var n := |ws| - 1;
      if ws[n].Some? then
        assert IsLast(ws, n);
        ws[n]
      else
        var r := LastOf(ws[..n]);
        assert r.Some? ==> forall k :: IsLast(ws[..n], k) ==> IsLast(ws, k) && ws[k] == ws[..n][k];
        r
  }

  lemma OneLast(ws: seq<Option<bool>>, j: int, k: int)
    requires IsLast(ws, j) && IsLast(ws, k)
    ensures j == k
  {
  }

  lemma LastIndex(ws: seq<Option<bool>>, m: int) returns (k: int)
    requires 0 <= m < |ws| && ws[m].Some?
    ensures IsLast(ws, k) && ws[k] == LastOf(ws)
  {
    var r := LastOf(ws);
    k :| IsLast(ws, k) && ws[k] == r;
  }

  lemma LastIsLast(ws: seq<Option<bool>>, k: int)
    requires IsLast(ws, k)
    ensures LastOf(ws) == ws[k]
  {
    var j := LastIndex(ws, k);
    OneLast(ws, j, k);
  }

  lemma {:induction false} ReplayedDisposition(orig: Snapshot, idx: Index, excluded: set<RepoId>, ops: seq<Op>,
                                               slot: Slot)
    requires HasSlot(orig, slot)
    ensures Disposition(ApplyOps(orig, idx, excluded, ops), slot) ==
            Write(slot, Disposition(orig, slot), LastOf(Writes(orig, idx, excluded, ops, slot)))
  {
    if ops != [] {
      var n := |ops| - 1;
      ReplayedDisposition(orig, idx, excluded, ops[..n], slot);
      WritesPrefix(orig, idx, excluded, ops, slot);
      ApplyOpDisposition(orig, idx, excluded, ApplyOps(orig, idx, excluded, ops[..n]), ops[n], slot);
    }
  }

  lemma WritesPrefix(orig: Snapshot, idx: Index, excluded: set<RepoId>, ops: seq<Op>, slot: Slot)
    requires HasSlot(orig, slot) && ops != []
    ensures Writes(orig, idx, excluded, ops, slot)[..|ops| - 1] == Writes(orig, idx, excluded, ops[..|ops| - 1], slot)
  {
  }

  ghost function ActiveWrites(orig: Snapshot, idx: Index, entries: seq<Entry>, slot: Slot): seq<Option<bool>>
    requires HasSlot(orig, slot)
  {
    var ops := ActiveOps(entries);
    Writes(orig, idx, ExcludedSections(ops), ops, slot)
  }

  /** Every slot, after any timeline: locked is excluded, otherwise the last write decides. */
  lemma LastWriteDecides(orig: Snapshot, idx: Index, entries: seq<Entry>, slot: Slot)
    requires HasSlot(orig, slot)
    ensures Disposition(Projection(orig, idx, entries), slot) ==
            if Locked(orig, slot) then Actionable(false)
            else Write(slot, Disposition(orig, slot), LastOf(ActiveWrites(orig, idx, entries, slot)))
  {
    var ops := ActiveOps(entries);
    var replayed := ApplyOps(orig, idx, ExcludedSections(ops), ops);
    ReplayedDisposition(orig, idx, ExcludedSections(ops), ops, slot);
    ClampDisposition(replayed, slot);
  }

  // ----- Packages, in the terms an operator uses -----

  /** `op` names package `i`: itself, a group it belongs to, or its repo in any ASCII case. */
  ghost predicate Reaches(orig: Snapshot, op: Op, i: nat)
    requires i < |orig.packages|
  {
    match op.item
    case PackageItem(n, a) => IsFirst(orig.packages, PackageKey(n, a), i)
    case RepoItem(s) => Fold(orig.packages[i].sourceRepo) == Fold(s)
    case GroupItem(g) => IsMember(orig.groups, g, orig.packages[i].name)
    case _ => false
  }

  ghost predicate IsLastReach(orig: Snapshot, ops: seq<Op>, i: nat, k: int)
    requires i < |orig.packages|
  {
    && 0 <= k < |ops|
    && Reaches(orig, ops[k], i)
    && forall m :: k < m < |ops| ==> !Reaches(orig, ops[m], i)
  }

  lemma UnlockedPackageWrite(orig: Snapshot, op: Op, i: nat)
    requires i < |orig.packages| && !orig.packages[i].locked
    ensures PackageWrite(orig, op, i) == if Reaches(orig, op, i) then Some(op.keep) else None
  {
    if op.item.PackageItem? && Reaches(orig, op, i) {
      var key := PackageKey(op.item.name, op.item.arch);
      forall j | IsFirst(orig.packages, key, j)
        ensures j == i
      {
      }
    }
  }

  /** The refinement: for every timeline (batches and stale ops included) an unlocked package
      carries the include value of the last active op that reaches it, and its original
      disposition when none does; a locked package is excluded. */
  lemma LastWriterWins(orig: Snapshot, idx: Index, entries: seq<Entry>, i: nat)
    requires i < |orig.packages|
    ensures var ops := ActiveOps(entries);
            var d := Projection(orig, idx, entries).packages[i].disposition;
            && (orig.packages[i].locked ==> d == Actionable(false))
            && (!orig.packages[i].locked ==>
                  (forall k :: IsLastReach(orig, ops, i, k) ==> d == Actionable(ops[k].keep))
                  && ((forall k :: 0 <= k < |ops| ==> !Reaches(orig, ops[k], i)) ==> d == orig.packages[i].disposition)
                  && ((exists k :: 0 <= k < |ops| && Reaches(orig, ops[k], i)) ==>
                    exists k :: IsLastReach(orig, ops, i, k)))
  {
    hide Projection, PackageWrite, Reaches, IsMember;
    var ops := ActiveOps(entries);
    var ws := ActiveWrites(orig, idx, entries, PackageSlot(i));
    LastWriteDecides(orig, idx, entries, PackageSlot(i));
    if !orig.packages[i].locked {
      forall k | 0 <= k < |ops|
        ensures ws[k] == if Reaches(orig, ops[k], i) then Some(ops[k].keep) else None
      {
        UnlockedPackageWrite(orig, ops[k], i);
      }
      forall k
        ensures IsLast(ws, k) <==> IsLastReach(orig, ops, i, k)
      {
      }
      forall k | IsLastReach(orig, ops, i, k)
        ensures LastOf(ws) == Some(ops[k].keep)
      {
        LastIsLast(ws, k);
      }
    }
  }

  // ----- Sections left excluded -----

  /** Op `k` is the last repo op on section `id`. */
  ghost predicate IsLastRepoOp(ops: seq<Op>, id: RepoId, k: int) {
    && 0 <= k < |ops|
    && ops[k].item.RepoItem? && Fold(ops[k].item.section) == id
    && forall m :: k < m < |ops| && ops[m].item.RepoItem? ==> Fold(ops[m].item.section) != id
  }

  lemma {:induction false} ExcludedMeaning(ops: seq<Op>, id: RepoId)
    ensures id in ExcludedSections(ops) <==> exists k :: IsLastRepoOp(ops, id, k) && !ops[k].keep
  {
    if ops != [] {
      var n := |ops| - 1;
      var init := ops[..n];
      ExcludedMeaning(init, id);
      if ops[n].item.RepoItem? && Fold(ops[n].item.section) == id {
        assert IsLastRepoOp(ops, id, n);
        assert forall k :: IsLastRepoOp(ops, id, k) ==> k == n;
      } else {
        forall k
          ensures IsLastRepoOp(ops, id, k) <==> IsLastRepoOp(init, id, k)
        {
          if IsLastRepoOp(init, id, k) {
            forall m | k < m < |ops| && ops[m].item.RepoItem?
              ensures Fold(ops[m].item.section) != id
            {
              if m < n {
                assert init[m] == ops[m];
              }
            }
          }
        }
        assert forall k :: IsLastRepoOp(init, id, k) ==> init[k] == ops[k];
      }
    }
  }

  // ----- Repo files and GPG keys -----

  ghost function Definers(files: seq<RepoFile>, path: string): iset<RepoId> {
    iset id | Defines(files, id, path)
  }

  ghost function Referrers(files: seq<RepoFile>, key: string): iset<RepoId> {
    iset id | References(files, id, key)
  }

  /** Some active op includes a section in `hits`. */
  ghost predicate SomeInclude(ops: seq<Op>, hits: iset<RepoId>) {
    exists k :: 0 <= k < |ops| && ops[k].item.RepoItem? && ops[k].keep && Fold(ops[k].item.section) in hits
  }

  /** The closed form of the repo cascade on a resource that the sections in `owners` own. */
  ghost function CascadeResult(ops: seq<Op>, owners: iset<RepoId>, d: FindingKind): FindingKind {
    if (exists id :: id in owners) && (forall id :: id in owners ==> id in ExcludedSections(ops)) then Actionable(false)
    else if SomeInclude(ops, owners) then Actionable(true)
    else d
  }

  /** What op `op` writes to a resource with the given owners. */
  ghost function CascadeWrite(excluded: set<RepoId>, op: Op, owners: iset<RepoId>): Option<bool> {
    if op.item.RepoItem? && Fold(op.item.section) in owners && (op.keep || forall id :: id in owners ==> id in excluded)
    then Some(op.keep) else None
  }

  ghost predicate CascadeWrites(ops: seq<Op>, ws: seq<Option<bool>>, owners: iset<RepoId>) {
    |ws| == |ops| && forall k :: 0 <= k < |ops| ==> ws[k] == CascadeWrite(ExcludedSections(ops), ops[k], owners)
  }

  /** When every owner ends up excluded, an include is never the last write: its own section
      would then not end up excluded. */
  lemma LastRepoWriteExcludes(ops: seq<Op>, ws: seq<Option<bool>>, owners: iset<RepoId>, k: int)
    requires CascadeWrites(ops, ws, owners) && IsLast(ws, k)
    requires forall id :: id in owners ==> id in ExcludedSections(ops)
    ensures ws[k] == Some(false)
  {
    assert ws[k] == CascadeWrite(ExcludedSections(ops), ops[k], owners);
    var id := Fold(ops[k].item.section);
    ExcludedMeaning(ops, id);
    var m :| IsLastRepoOp(ops, id, m) && !ops[m].keep;
    assert ws[m] == CascadeWrite(ExcludedSections(ops), ops[m], owners) == Some(false);
  }

  lemma FullyExcludedEndsExcluded(ops: seq<Op>, ws: seq<Option<bool>>, owners: iset<RepoId>, owner: RepoId)
    requires CascadeWrites(ops, ws, owners)
    requires owner in owners && forall id :: id in owners ==> id in ExcludedSections(ops)
    ensures LastOf(ws) == Some(false)
  {
    ExcludedMeaning(ops, owner);
    var last :| IsLastRepoOp(ops, owner, last) && !ops[last].keep;
    var k := LastIndex(ws, last);
    LastRepoWriteExcludes(ops, ws, owners, k);
  }

  lemma CascadeClosedForm(ops: seq<Op>, ws: seq<Option<bool>>, owners: iset<RepoId>, slot: Slot, d: FindingKind)
    requires CascadeWrites(ops, ws, owners) && !slot.ConfigSlot?
    ensures Write(slot, d, LastOf(ws)) == CascadeResult(ops, owners, d)
  {
    if owner :| owner in owners && forall id :: id in owners ==> id in ExcludedSections(ops) {
      FullyExcludedEndsExcluded(ops, ws, owners, owner);
    } else if SomeInclude(ops, owners) {
      var j :| 0 <= j < |ops| && ops[j].item.RepoItem? && ops[j].keep && Fold(ops[j].item.section) in owners;
      assert ws[j] == CascadeWrite(ExcludedSections(ops), ops[j], owners) == Some(true);
    } else {
      forall k | 0 <= k < |ws|
        ensures ws[k].None?
      {
        assert ws[k] == CascadeWrite(ExcludedSections(ops), ops[k], owners);
      }
    }
  }

  lemma RepoFileWrites(orig: Snapshot, idx: Index, ops: seq<Op>, i: nat)
    requires MapsFor(orig.repoFiles, idx)
    requires i < |orig.repoFiles| && IsFirst(orig.repoFiles, RepoFileKey(orig.repoFiles[i].path), i)
    ensures CascadeWrites(ops, Writes(orig, idx, ExcludedSections(ops), ops, RepoFileSlot(i)),
              Definers(orig.repoFiles, orig.repoFiles[i].path))
  {
    var path := orig.repoFiles[i].path;
    assert forall id :: Lists(idx.filesBySection, id, path) <==> Defines(orig.repoFiles, id, path);
  }

  lemma GpgKeyWrites(orig: Snapshot, idx: Index, ops: seq<Op>, i: nat)
    requires MapsFor(orig.repoFiles, idx)
    requires i < |orig.gpgKeys| && IsFirst(orig.gpgKeys, GpgKeyKey(orig.gpgKeys[i].path), i)
    ensures CascadeWrites(ops, Writes(orig, idx, ExcludedSections(ops), ops, GpgKeySlot(i)),
              Referrers(orig.repoFiles, orig.gpgKeys[i].path))
  {
    var path := orig.gpgKeys[i].path;
    assert forall id :: Lists(idx.keysBySection, id, path) <==> References(orig.repoFiles, id, path);
    assert forall id :: Holds(idx.sectionsByKey, path, id) <==> References(orig.repoFiles, id, path);
  }

  /** Repo files: excluded when every section defining the file ends up excluded, else
      included when any active include op hit one of them, else as originally found. */
  lemma RepoFileClosedForm(orig: Snapshot, idx: Index, entries: seq<Entry>, i: nat)
    requires MapsFor(orig.repoFiles, idx)
    requires i < |orig.repoFiles|
    ensures var f := orig.repoFiles[i];
            Projection(orig, idx, entries).repoFiles[i].disposition ==
            if f.locked then Actionable(false)
            else if IsFirst(orig.repoFiles, RepoFileKey(f.path), i)
            then CascadeResult(ActiveOps(entries), Definers(orig.repoFiles, f.path), f.disposition)
            else f.disposition
  {
    var f := orig.repoFiles[i];
    LastWriteDecides(orig, idx, entries, RepoFileSlot(i));
    if IsFirst(orig.repoFiles, RepoFileKey(f.path), i) && !f.locked {
      RepoFileWrites(orig, idx, ActiveOps(entries), i);
      CascadeClosedForm(ActiveOps(entries), ActiveWrites(orig, idx, entries, RepoFileSlot(i)),
        Definers(orig.repoFiles, f.path), RepoFileSlot(i), f.disposition);
    }
  }

  /** GPG keys: the same closed form over the sections that reference the key. */
  lemma GpgKeyClosedForm(orig: Snapshot, idx: Index, entries: seq<Entry>, i: nat)
    requires MapsFor(orig.repoFiles, idx)
    requires i < |orig.gpgKeys|
    ensures var key := orig.gpgKeys[i];
            Projection(orig, idx, entries).gpgKeys[i].disposition ==
            if IsFirst(orig.gpgKeys, GpgKeyKey(key.path), i)
            then CascadeResult(ActiveOps(entries), Referrers(orig.repoFiles, key.path), key.disposition)
            else key.disposition
  {
    var key := orig.gpgKeys[i];
    LastWriteDecides(orig, idx, entries, GpgKeySlot(i));
    if IsFirst(orig.gpgKeys, GpgKeyKey(key.path), i) {
      GpgKeyWrites(orig, idx, ActiveOps(entries), i);
      CascadeClosedForm(ActiveOps(entries), ActiveWrites(orig, idx, entries, GpgKeySlot(i)),
        Referrers(orig.repoFiles, key.path), GpgKeySlot(i), key.disposition);
    }
  }
}
