/** What a timeline does to configs, service rows and drop-ins, in terms of the ops an operator
    gave: the last one that reaches an item decides it. */
module ReplayLaws {
  import opened Types
  import opened RepoIndex
  import opened Replay
  import opened ClosedForms

  // ----- Last op of a kind -----

  /** Op `k` is the last one that `hits` picks. */
  ghost predicate IsLastHit(ops: seq<Op>, hits: Op -> bool, k: int) {
    0 <= k < |ops| && hits(ops[k]) && forall m :: k < m < |ops| ==> !hits(ops[m])
  }

  /** Where every hit writes its flag and nothing else writes, the last hit is the last write. */
  lemma LastHitDecides(ops: seq<Op>, ws: seq<Option<bool>>, hits: Op -> bool)
    requires |ws| == |ops| && forall k :: 0 <= k < |ops| ==> ws[k] == if hits(ops[k]) then Some(ops[k].keep) else None
    ensures forall k :: IsLastHit(ops, hits, k) ==> LastOf(ws) == Some(ops[k].keep)
    ensures NoMatch(ops, hits) ==> LastOf(ws) == None
  {
    forall k | IsLastHit(ops, hits, k)
      ensures LastOf(ws) == Some(ops[k].keep)
    {
      LastIsLast(ws, k);
    }
  }

  lemma {:induction false} LastHitExists(ops: seq<Op>, hits: Op -> bool)
    ensures NoMatch(ops, hits) || exists k :: IsLastHit(ops, hits, k)
  {
    if ops != [] {
      var n := |ops| - 1;
      if hits(ops[n]) {
        assert IsLastHit(ops, hits, n);
      } else {
        LastHitExists(ops[..n], hits);
        assert forall m :: 0 <= m < n ==> ops[..n][m] == ops[m];
        if k :| IsLastHit(ops[..n], hits, k) {
          assert IsLastHit(ops, hits, k);
        }
      }
    }
  }

  /** `d` is what the last op picked by `hits` asks for, or `start` when there is none. */
  ghost predicate DecidedByLast(ops: seq<Op>, hits: Op -> bool, start: FindingKind, d: FindingKind) {
    && (forall k :: IsLastHit(ops, hits, k) ==> d == Actionable(ops[k].keep))
    && (NoMatch(ops, hits) ==> d == start)
  }

  function OnItem(item: ItemId): Op -> bool {
    (op: Op) => op.item == item
  }

  // ----- Configs -----

  /** After any timeline a locked config is excluded; advisory and inventory configs, and those
      that are not the first at their path, are as found; any other carries the flag of the last
      active op on its path. */
  lemma ConfigClosedForm(orig: Snapshot, idx: Index, entries: seq<Entry>, i: nat)
    requires i < |orig.configs|
    ensures var c := orig.configs[i];
            var d := Projection(orig, idx, entries).configs[i].disposition;
            && (c.locked ==> d == Actionable(false))
            && (!c.locked && !c.disposition.Actionable? ==> d == c.disposition)
            && (!c.locked && (exists j :: 0 <= j < i && orig.configs[j].path == c.path) ==> d == c.disposition)
            && (!c.locked && c.disposition.Actionable? && (forall j :: 0 <= j < i ==>
              orig.configs[j].path != c.path) ==>
                  DecidedByLast(ActiveOps(entries), OnItem(ConfigItem(c.path)), c.disposition, d))
  {
    hide Projection, WriteOf;
    var ops, c := ActiveOps(entries), orig.configs[i];
    var ws := ActiveWrites(orig, idx, entries, ConfigSlot(i));
    LastWriteDecides(orig, idx, entries, ConfigSlot(i));
    if !c.locked {
      if j :| 0 <= j < i && orig.configs[j].path == c.path {
        forall k | 0 <= k < |ops|
          ensures ws[k] == None
        {
          LaterConfigWrite(orig, idx, ExcludedSections(ops), ops[k], i, j);
        }
      } else {
        forall k | 0 <= k < |ops|
          ensures ws[k] == if ops[k].item == ConfigItem(c.path) then Some(ops[k].keep) else None
        {
          FirstConfigWrite(orig, idx, ExcludedSections(ops), ops[k], i);
        }
        LastHitDecides(ops, ws, OnItem(ConfigItem(c.path)));
      }
    }
  }

  lemma LaterConfigWrite(orig: Snapshot, idx: Index, excluded: set<RepoId>, op: Op, i: nat, j: nat)
    requires j < i < |orig.configs| && orig.configs[j].path == orig.configs[i].path
    ensures WriteOf(orig, idx, excluded, op, ConfigSlot(i)) == None
  {
    assert op.item.ConfigItem? ==> ConfigKey(op.item.path)(orig.configs[j]) == ConfigKey(op.item.path)(orig.configs[i]);
  }

  lemma FirstConfigWrite(orig: Snapshot, idx: Index, excluded: set<RepoId>, op: Op, i: nat)
    requires i < |orig.configs| && !orig.configs[i].locked
    requires forall j :: 0 <= j < i ==> orig.configs[j].path != orig.configs[i].path
    ensures WriteOf(orig, idx, excluded, op, ConfigSlot(i)) ==
            if op.item == ConfigItem(orig.configs[i].path) then Some(op.keep) else None
  {
    if op.item == ConfigItem(orig.configs[i].path) {
      assert IsFirst(orig.configs, ConfigKey(op.item.path), i);
    }
  }

  // ----- Service rows -----

  /** After any timeline a locked row is excluded, a row that is not the first of its unit is as
      found, and any other carries the flag of the last active op on its unit. */
  lemma RowClosedForm(orig: Snapshot, idx: Index, entries: seq<Entry>, i: nat)
    requires i < |orig.rows|
    ensures var r := orig.rows[i];
            var d := Projection(orig, idx, entries).rows[i].disposition;
            && (r.locked ==> d == Actionable(false))
            && (!r.locked && (exists j :: 0 <= j < i && orig.rows[j].unit == r.unit) ==> d == r.disposition)
            && (!r.locked && (forall j :: 0 <= j < i ==> orig.rows[j].unit != r.unit) ==>
                  DecidedByLast(ActiveOps(entries), OnItem(ServiceItem(r.unit)), r.disposition, d))
  {
    hide Projection, WriteOf;
    var ops, r := ActiveOps(entries), orig.rows[i];
    var ws := ActiveWrites(orig, idx, entries, RowSlot(i));
    LastWriteDecides(orig, idx, entries, RowSlot(i));
    if !r.locked {
      if j :| 0 <= j < i && orig.rows[j].unit == r.unit {
        forall k | 0 <= k < |ops|
          ensures ws[k] == None
        {
          LaterRowWrite(orig, idx, ExcludedSections(ops), ops[k], i, j);
        }
      } else {
        forall k | 0 <= k < |ops|
          ensures ws[k] == if ops[k].item == ServiceItem(r.unit) then Some(ops[k].keep) else None
        {
          FirstRowWrite(orig, idx, ExcludedSections(ops), ops[k], i);
        }
        LastHitDecides(ops, ws, OnItem(ServiceItem(r.unit)));
      }
    }
  }

  lemma LaterRowWrite(orig: Snapshot, idx: Index, excluded: set<RepoId>, op: Op, i: nat, j: nat)
    requires j < i < |orig.rows| && orig.rows[j].unit == orig.rows[i].unit
    ensures WriteOf(orig, idx, excluded, op, RowSlot(i)) == None
  {
    assert op.item.ServiceItem? ==> UnitKey(op.item.unit)(orig.rows[j]) == UnitKey(op.item.unit)(orig.rows[i]);
  }

  lemma FirstRowWrite(orig: Snapshot, idx: Index, excluded: set<RepoId>, op: Op, i: nat)
    requires i < |orig.rows| && !orig.rows[i].locked
    requires forall j :: 0 <= j < i ==> orig.rows[j].unit != orig.rows[i].unit
    ensures WriteOf(orig, idx, excluded, op, RowSlot(i)) ==
            if op.item == ServiceItem(orig.rows[i].unit) then Some(op.keep) else None
  {
    if op.item == ServiceItem(orig.rows[i].unit) {
      assert IsFirst(orig.rows, UnitKey(op.item.unit), i);
    }
  }

  // ----- Drop-ins -----

  /** The ops that reach drop-in `i`: those on its path when it is the first there, and those on
      its unit, except includes while the unit's first row is locked. */
  ghost predicate ReachesDropIn(orig: Snapshot, i: nat, op: Op)
    requires i < |orig.dropIns|
  {
    var d := orig.dropIns[i];
    || (op.item == DropInItem(d.path) && forall j :: 0 <= j < i ==> orig.dropIns[j].path != d.path)
    || (op.item == ServiceItem(d.unit)
        && !(op.keep && exists r :: 0 <= r < |orig.rows| && orig.rows[r].unit == d.unit && orig.rows[r].locked
                          && forall q :: 0 <= q < r ==> orig.rows[q].unit != d.unit))
  }

  /** After any timeline a locked drop-in is excluded, and any other carries the flag of the last
      active op that reaches it. */
  lemma DropInClosedForm(orig: Snapshot, idx: Index, entries: seq<Entry>, i: nat)
    requires i < |orig.dropIns|
    ensures var d := Projection(orig, idx, entries).dropIns[i].disposition;
            && (orig.dropIns[i].locked ==> d == Actionable(false))
            && (!orig.dropIns[i].locked ==>
                  DecidedByLast(ActiveOps(entries), (op: Op) => ReachesDropIn(orig, i, op), orig.dropIns[i].disposition,
                    d))
  {
    hide Projection, WriteOf;
    var ops := ActiveOps(entries);
    var ws := ActiveWrites(orig, idx, entries, DropInSlot(i));
    LastWriteDecides(orig, idx, entries, DropInSlot(i));
    if !orig.dropIns[i].locked {
      var hits := (op: Op) => ReachesDropIn(orig, i, op);
      forall k | 0 <= k < |ops|
        ensures ws[k] == if hits(ops[k]) then Some(ops[k].keep) else None
      {
        ReachedDropInWrite(orig, idx, ExcludedSections(ops), ops[k], i);
      }
      LastHitDecides(ops, ws, hits);
    }
  }

  lemma ReachedDropInWrite(orig: Snapshot, idx: Index, excluded: set<RepoId>, op: Op, i: nat)
    requires i < |orig.dropIns| && !orig.dropIns[i].locked
    ensures WriteOf(orig, idx, excluded, op, DropInSlot(i)) ==
            if ReachesDropIn(orig, i, op) then Some(op.keep) else None
  {
    var d := orig.dropIns[i];
    if op.item.ServiceItem? {
      forall r
        ensures IsFirst(orig.rows, UnitKey(op.item.unit), r) <==>
                  0 <= r < |orig.rows| && orig.rows[r].unit == op.item.unit
                  && forall q :: 0 <= q < r ==> orig.rows[q].unit != op.item.unit
      {
      }
    } else if op.item.DropInItem? {
      assert IsFirst(orig.dropIns, DropInKey(op.item.path), i) <==>
               op.item.path == d.path && forall j :: 0 <= j < i ==> orig.dropIns[j].path != d.path;
    }
  }

  /** An op that reaches the item exists exactly when a last one does, so the closed forms leave
      no timeline undecided. */
  lemma SomeLastHit(entries: seq<Entry>, hits: Op -> bool)
    ensures NoMatch(ActiveOps(entries), hits) <==> forall k :: !IsLastHit(ActiveOps(entries), hits, k)
  {
    LastHitExists(ActiveOps(entries), hits);
  }

  // ----- Packages, without any vocabulary of the replay -----

  /** The ops that reach package `i`: those that name it first-match, those on a repo spelled as
      its own in any ASCII case, and those on a group whose first entry lists it. */
  ghost predicate ReachesPackage(orig: Snapshot, i: nat, op: Op)
    requires i < |orig.packages|
  {
    var p := orig.packages[i];
    || (op.item == PackageItem(p.name, p.arch)
        && forall j :: 0 <= j < i ==> orig.packages[j].name != p.name || orig.packages[j].arch != p.arch)
    || (op.item.RepoItem? && SameUpToCase(op.item.section, p.sourceRepo))
    || (op.item.GroupItem?
        && exists g ::
            0 <= g < |orig.groups| && orig.groups[g].name == op.item.group && p.name in orig.groups[g].members
            && forall h :: 0 <= h < g ==> orig.groups[h].name != op.item.group)
  }

  /** Equal up to the case of ASCII letters. */
  predicate SameUpToCase(s: string, t: string) {
    && |s| == |t|
    && forall i :: 0 <= i < |s| ==>
         s[i] == t[i] || ('a' <= s[i] <= 'z' && s[i] as int - 32 == t[i] as int)
         || ('a' <= t[i] <= 'z' && t[i] as int - 32 == s[i] as int)
  }

  lemma FoldIsUpToCase(s: string, t: string)
    ensures Fold(s) == Fold(t) <==> SameUpToCase(s, t)
  {
    if Fold(s) == Fold(t) {
      assert |Fold(s)| == |s| && |Fold(t)| == |t|;
      forall i | 0 <= i < |s|
        ensures AsciiLower(s[i]) == AsciiLower(t[i])
      {
        assert Fold(s)[i] == Fold(t)[i];
      }
    }
    if SameUpToCase(s, t) {
      forall i | 0 <= i < |s|
        ensures Fold(s)[i] == Fold(t)[i]
      {
      }
      assert Fold(s) == Fold(t);
    }
  }

  /** After any timeline a locked package is excluded, and any other carries the flag of the last
      active op that reaches it. */
  lemma PackageClosedForm(orig: Snapshot, idx: Index, entries: seq<Entry>, i: nat)
    requires i < |orig.packages|
    ensures var p := orig.packages[i];
            var d := Projection(orig, idx, entries).packages[i].disposition;
            && (p.locked ==> d == Actionable(false))
            && (!p.locked ==>
                  DecidedByLast(ActiveOps(entries), (op: Op) => ReachesPackage(orig, i, op), p.disposition, d))
  {
    hide Projection, SameUpToCase;
    var ops, hits := ActiveOps(entries), (op: Op) => ReachesPackage(orig, i, op);
    LastWriterWins(orig, idx, entries, i);
    forall k | 0 <= k < |ops|
      ensures hits(ops[k]) <==> Reaches(orig, ops[k], i)
    {
      ReachIsSpelled(orig, i, ops[k]);
    }
    assert forall k :: IsLastHit(ops, hits, k) <==> IsLastReach(orig, ops, i, k);
  }

  lemma ReachIsSpelled(orig: Snapshot, i: nat, op: Op)
    requires i < |orig.packages|
    ensures ReachesPackage(orig, i, op) <==> Reaches(orig, op, i)
  {
    hide SameUpToCase, Fold;
    var p := orig.packages[i];
    match op.item {
      case PackageItem(n, a) =>
        assert IsFirst(orig.packages, PackageKey(n, a), i) <==>
                 n == p.name && a == p.arch
                 && forall j :: 0 <= j < i ==> orig.packages[j].name != p.name || orig.packages[j].arch != p.arch;
      case RepoItem(s) =>
        FoldIsUpToCase(s, p.sourceRepo);
      case GroupItem(name) =>
        GroupIsSpelled(orig.groups, name, p.name);
      case _ =>
    }
  }

  lemma GroupIsSpelled(groups: seq<Group>, name: string, member: string)
    ensures IsMember(groups, name, member) <==>
              exists g :: 0 <= g < |groups| && groups[g].name == name && member in groups[g].members
                && forall h :: 0 <= h < g ==> groups[h].name != name
  {
    assert forall g :: IsFirst(groups, GroupKey(name), g) <==>
             0 <= g < |groups| && groups[g].name == name && forall h :: 0 <= h < g ==> groups[h].name != name;
  }
}
