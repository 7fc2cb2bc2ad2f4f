/** How an installed package group renders, given its members' projected state. */
module GroupState {
  import opened Types

  datatype DegradationReason = MemberExcluded | MemberOverridden | MultilibConflict

  datatype RenderState = Renderable | Excluded | Ungrouped | Degraded(reason: DegradationReason) | Inert

  datatype Context = Context(
    group: Group,
    pool: seq<Package>,        // the effective packages of the projection
    ungrouped: bool,
    groupExcluded: bool,
    divergent: set<string>)    // member names with a later op against the group op

  predicate IsActionable(p: Package) {
    p.disposition.Actionable?
  }

  /** Actionable and not locked. */
  predicate IsEffective(p: Package) {
    IsActionable(p) && !p.locked
  }

  function Effective(packages: seq<Package>): seq<Package> {
    Filter(packages, IsEffective)
  }

  function Named(name: string): Package -> bool {
    (p: Package) => p.name == name
  }

  // ----- Members, one at a time -----

  function Matching(ctx: Context, name: string): seq<Package> {
    Filter(ctx.pool, Named(name))
  }

  predicate IsConflict(ctx: Context, name: string) {
    |Matching(ctx, name)| > 1
  }

  /** Exactly one unlocked package carries the member's name. */
  predicate IsDecided(ctx: Context, name: string) {
    |Matching(ctx, name)| == 1 && !Matching(ctx, name)[0].locked
  }

  predicate IsOverridden(ctx: Context, name: string) {
    IsDecided(ctx, name) && Matching(ctx, name)[0].name in ctx.divergent
  }

  predicate IsIncludedMember(ctx: Context, name: string) {
    IsDecided(ctx, name) && Matching(ctx, name)[0].disposition.IsIncluded()
  }

  predicate IsExcludedMember(ctx: Context, name: string) {
    IsDecided(ctx, name) && !Matching(ctx, name)[0].disposition.IsIncluded()
  }

  predicate StopsScan(ctx: Context, name: string) {
    IsConflict(ctx, name) || IsOverridden(ctx, name)
  }

  function StopReason(ctx: Context, name: string): DegradationReason {
    if IsConflict(ctx, name) then MultilibConflict else MemberOverridden
  }

  /** Member `j` is the first one the scan cannot get past. */
  ghost predicate FirstStop(ctx: Context, j: int) {
    && 0 <= j < |ctx.group.members|
    && StopsScan(ctx, ctx.group.members[j])
    && forall m :: 0 <= m < j ==> !StopsScan(ctx, ctx.group.members[m])
  }

  /** The state when no member stops the scan. */
  ghost function QuietState(ctx: Context): RenderState {
    var members := ctx.group.members;
    if forall m :: m in members ==> !IsDecided(ctx, m) then Inert
    else if ctx.groupExcluded && forall m :: m in members ==> !IsIncludedMember(ctx, m) then Excluded
    else if exists m :: m in members && IsExcludedMember(ctx, m) then Degraded(MemberExcluded)
    else Renderable
  }

  ghost predicate IsStateOf(ctx: Context, state: RenderState) {
    if ctx.ungrouped then state == Ungrouped
    else if forall m :: m in ctx.group.members ==> !StopsScan(ctx, m) then state == QuietState(ctx)
    else exists j :: FirstStop(ctx, j) && state == Degraded(StopReason(ctx, ctx.group.members[j]))
  }

  method DeriveGroupState(ctx: Context) returns (state: RenderState)
    ensures IsStateOf(ctx, state)
  {
    if ctx.ungrouped {
      return Ungrouped;
    }
    var anyExcluded, allExcluded, hasUnlocked := false, true, false;
    var members := ctx.group.members;
    for j := 0 to |members|
      invariant forall m :: 0 <= m < j ==> !StopsScan(ctx, members[m])
      invariant hasUnlocked <==> exists m :: 0 <= m < j && IsDecided(ctx, members[m])
      invariant allExcluded <==> forall m :: 0 <= m < j ==> !IsIncludedMember(ctx, members[m])
      invariant anyExcluded <==> exists m :: 0 <= m < j && IsExcludedMember(ctx, members[m])
    {
      var name := members[j];
      var matching := Select(ctx.pool, Named(name));
      if matching == [] {
        continue;
      }
      if |matching| > 1 {
        assert FirstStop(ctx, j);
        return Degraded(MultilibConflict);
      }
      var p := matching[0];
      if p.locked {
        continue;
      }
      hasUnlocked := true;
      if p.name in ctx.divergent {
        assert FirstStop(ctx, j);
        return Degraded(MemberOverridden);
      }
      if p.disposition.IsIncluded() {
        allExcluded := false;
      } else {
        anyExcluded := true;
      }
    }
    assert forall m :: m in members ==> exists j :: 0 <= j < |members| && members[j] == m;
    if !hasUnlocked {
      return Inert;
    }
    if ctx.groupExcluded && allExcluded {
      return Excluded;
    }
    if anyExcluded {
      return Degraded(MemberExcluded);
    }
    return Renderable;
  }

  // ----- The documented priority order -----

  /** The priority list the source documents: a multilib conflict anywhere outranks an
      override anywhere, and both outrank the rest. */
  ghost function PriorityState(ctx: Context): RenderState {
    if ctx.ungrouped then Ungrouped
    else if exists m :: m in ctx.group.members && IsConflict(ctx, m) then Degraded(MultilibConflict)
    else if exists m :: m in ctx.group.members && IsOverridden(ctx, m) then Degraded(MemberOverridden)
    else QuietState(ctx)
  }

  /** An overridden member is listed ahead of every conflicting one, and one conflicts. */
  ghost predicate OverrideHidesConflict(ctx: Context) {
    exists j, k ::
      && 0 <= j < k < |ctx.group.members|
      && IsOverridden(ctx, ctx.group.members[j])
      && IsConflict(ctx, ctx.group.members[k])
      && forall m :: 0 <= m < j ==> !IsConflict(ctx, ctx.group.members[m])
  }

  /** The member scan returns at the first stop, so it agrees with the documented order
      exactly when no overridden member precedes the first conflict. */
  lemma StateMatchesPriority(ctx: Context, state: RenderState)
    requires IsStateOf(ctx, state)
    ensures state == PriorityState(ctx) <==> ctx.ungrouped || !OverrideHidesConflict(ctx)
  {
    if !ctx.ungrouped {
      if exists m :: m in ctx.group.members && StopsScan(ctx, m) {
        var j :| FirstStop(ctx, j) && state == Degraded(StopReason(ctx, ctx.group.members[j]));
        StopMatchesPriority(ctx, j);
      } else {
        assert forall j :: 0 <= j < |ctx.group.members| ==> ctx.group.members[j] in ctx.group.members;
        assert forall j :: 0 <= j < |ctx.group.members| ==> !StopsScan(ctx, ctx.group.members[j]);
      }
    }
  }

  lemma StopMatchesPriority(ctx: Context, j: int)
    requires !ctx.ungrouped && FirstStop(ctx, j)
    ensures Degraded(StopReason(ctx, ctx.group.members[j])) == PriorityState(ctx) <==> !OverrideHidesConflict(ctx)
  {
    var members := ctx.group.members;
    assert members[j] in members;
    if !IsConflict(ctx, members[j]) && exists m :: m in members && IsConflict(ctx, m) {
      var m :| m in members && IsConflict(ctx, m);
      var k :| 0 <= k < |members| && members[k] == m;
      assert j < k;
    }
  }

  /** A group whose first member was overridden and whose second is installed for two
      architectures renders as overridden, although conflicts are documented to win. */
  lemma OverrideCanHideConflict() returns (ctx: Context)
    ensures OverrideHidesConflict(ctx) && !ctx.ungrouped
    ensures forall state :: IsStateOf(ctx, state) ==> state == Degraded(MemberOverridden)
    ensures PriorityState(ctx) == Degraded(MultilibConflict)
  {
    var a := SamplePackage("a", "x86_64");
    var b0, b1 := SamplePackage("b", "x86_64"), SamplePackage("b", "i686");
    ctx := Context(Group("g", ["a", "b"]), [a, b0, b1], false, false, {"a"});
    assert ctx.pool[..2] == [a, b0] && ctx.pool[..2][..1] == [a] && ctx.pool[..2][..1][..0] == [];
    assert "a" != "b" by { assert "a"[0] != "b"[0]; }
    var none: seq<Package> := [];
    assert Filter(none, Named("a")) == [] && Filter(none, Named("b")) == [];
    assert Filter([a], Named("a")) == [a] && Filter([a], Named("b")) == [];
    assert Filter([a, b0], Named("a")) == [a] && Filter([a, b0], Named("b")) == [b0];
    assert Matching(ctx, "a") == [a];
    assert Matching(ctx, "b") == [b0, b1];
    assert ctx.group.members[0] == "a" && ctx.group.members[1] == "b";
    assert IsOverridden(ctx, ctx.group.members[0]) && IsConflict(ctx, ctx.group.members[1]);
    assert FirstStop(ctx, 0);
    assert forall j :: FirstStop(ctx, j) ==> j == 0;
  }

  function SamplePackage(name: string, arch: string): Package {
    Package(name, "1", "1", arch, Added, Actionable(true), false, "repo", "", false, false, None, None, None)
  }

  // ----- Render soundness -----

  ghost predicate IsMemberOf(ctx: Context, p: Package) {
    p in ctx.pool && p.name in ctx.group.members
  }

  lemma MemberMatches(ctx: Context, p: Package)
    requires IsMemberOf(ctx, p)
    ensures p in Matching(ctx, p.name)
    ensures |Matching(ctx, p.name)| == 1 ==> Matching(ctx, p.name)[0] == p
  {
    FilterFacts(ctx.pool, Named(p.name));
  }

  /** A renderable group has an effective member, and each of its effective members is
      included and is the only effective package of its name. */
  lemma RenderableIsSound(ctx: Context)
    requires IsStateOf(ctx, Renderable)
    requires forall p :: p in ctx.pool ==> !p.locked
    ensures !ctx.ungrouped
    ensures exists p :: IsMemberOf(ctx, p)
    ensures forall p :: IsMemberOf(ctx, p) ==> p.disposition.IsIncluded()
    ensures forall p :: IsMemberOf(ctx, p) ==> !TwoMatch(ctx.pool, Named(p.name))
  {
    var m :| m in ctx.group.members && IsDecided(ctx, m);
    FilterFacts(ctx.pool, Named(m));
    assert IsMemberOf(ctx, Matching(ctx, m)[0]);
    forall p | IsMemberOf(ctx, p)
      ensures p.disposition.IsIncluded() && !TwoMatch(ctx.pool, Named(p.name))
    {
      MemberMatches(ctx, p);
      FilterFacts(ctx.pool, Named(p.name));
      assert !StopsScan(ctx, p.name);
      assert !IsExcludedMember(ctx, p.name);
    }
  }

  /** An excluded group was excluded as a group, and no effective member is included. */
  lemma ExcludedIsSound(ctx: Context)
    requires IsStateOf(ctx, Excluded)
    requires forall p :: p in ctx.pool ==> !p.locked
    ensures ctx.groupExcluded && !ctx.ungrouped
    ensures exists p :: IsMemberOf(ctx, p)
    ensures forall p :: IsMemberOf(ctx, p) ==> !p.disposition.IsIncluded()
  {
    var m :| m in ctx.group.members && IsDecided(ctx, m);
    FilterFacts(ctx.pool, Named(m));
    assert IsMemberOf(ctx, Matching(ctx, m)[0]);
    forall p | IsMemberOf(ctx, p)
      ensures !p.disposition.IsIncluded()
    {
      MemberMatches(ctx, p);
      assert !StopsScan(ctx, p.name);
      assert !IsIncludedMember(ctx, p.name);
    }
  }

  /** Inert means exactly that no effective package belongs to the group. */
  lemma InertIsExact(ctx: Context, state: RenderState)
    requires IsStateOf(ctx, state) && !ctx.ungrouped
    requires forall p :: p in ctx.pool ==> !p.locked
    ensures state == Inert <==> forall p :: !IsMemberOf(ctx, p)
  {
    if p :| IsMemberOf(ctx, p) {
      MemberMatches(ctx, p);
      assert IsDecided(ctx, p.name) || IsConflict(ctx, p.name);
    } else {
      forall m | m in ctx.group.members
        ensures Matching(ctx, m) == []
      {
        FilterFacts(ctx.pool, Named(m));
        if Matching(ctx, m) != [] {
          var p := Matching(ctx, m)[0];
          assert p in ctx.pool && Named(m)(p);
          assert IsMemberOf(ctx, p);
        }
      }
    }
  }

  // ----- Reading the timeline -----

  predicate IsGroupOp(op: Op, name: string) {
    op.item == GroupItem(name)
  }

  function GroupOpKey(name: string): Op -> bool {
    (op: Op) => IsGroupOp(op, name)
  }

  /** The scan settles on entry `i`: the latest one with an op on the group. Within a batch it
      takes the first such op, not the last. */
  ghost predicate IsScanned(entries: seq<Entry>, name: string, i: int, op: Op) {
    && 0 <= i < |entries|
    && (exists j :: IsFirst(OpsOf(entries[i]), GroupOpKey(name), j) && OpsOf(entries[i])[j] == op)
    && forall k :: i < k < |entries| ==> NoMatch(OpsOf(entries[k]), GroupOpKey(name))
  }

  method ScanGroupOp(entries: seq<Entry>, name: string) returns (at: Option<(nat, Op)>)
    ensures at.Some? ==> IsScanned(entries, name, at.value.0, at.value.1)
    ensures at.None? ==> forall k :: 0 <= k < |entries| ==> NoMatch(OpsOf(entries[k]), GroupOpKey(name))
  {
    var i := |entries|;
    while i > 0
      invariant 0 <= i <= |entries|
      invariant forall k :: i <= k < |entries| ==> NoMatch(OpsOf(entries[k]), GroupOpKey(name))
    {
      i := i - 1;
      var hit := Find(OpsOf(entries[i]), GroupOpKey(name));
      if hit.Some? {
        return Some((i, OpsOf(entries[i])[hit.value]));
      }
    }
    return None;
  }

  predicate IsUngrouped(entries: seq<Entry>, name: string) {
    Types.Ungroup(name) in entries
  }

  /** A member op after the scanned group op that points the other way. A later op that
      reaffirms the group does not take it back. */
  ghost predicate Diverges(entries: seq<Entry>, group: Group, from: int, keep: bool, name: string) {
    exists k, op :: 0 <= k && from < k < |entries| && op in OpsOf(entries[k]) && IsDivergentOp(group, keep, op)
      && op.item.name == name
  }

  predicate IsDivergentOp(group: Group, keep: bool, op: Op) {
    op.item.PackageItem? && op.item.name in group.members && op.keep != keep
  }

  method DivergentMembers(entries: seq<Entry>, group: Group, from: nat, keep: bool) returns (names: set<string>)
    requires from < |entries|
    ensures forall name :: name in names <==> Diverges(entries, group, from, keep, name)
  {
    names := {};
    for k := from + 1 to |entries|
      invariant forall name :: name in names <==> Diverges(entries[..k], group, from, keep, name)
    {
      var ops := OpsOf(entries[k]);
      ghost var before := names;
      for j := 0 to |ops|
        invariant forall name :: name in names <==> name in before || exists op ::
                  op in ops[..j] && IsDivergentOp(group, keep, op) && op.item.name == name
      {
        if IsDivergentOp(group, keep, ops[j]) {
          names := names + {ops[j].item.name};
        }
      }
      assert ops[..|ops|] == ops;
      DivergesStep(entries, group, from, keep, k);
    }
    assert entries[..|entries|] == entries;
  }

  lemma DivergesStep(entries: seq<Entry>, group: Group, from: nat, keep: bool, k: nat)
    requires from < k < |entries|
    ensures forall name :: Diverges(entries[..k + 1], group, from, keep, name) <==>
              Diverges(entries[..k], group, from, keep, name)
              || exists op :: op in OpsOf(entries[k]) && IsDivergentOp(group, keep, op) && op.item.name == name
  {
    var more, less := entries[..k + 1], entries[..k];
    forall name
      ensures Diverges(more, group, from, keep, name) <==>
              Diverges(less, group, from, keep, name)
              || exists op :: op in OpsOf(entries[k]) && IsDivergentOp(group, keep, op) && op.item.name == name
    {
      if Diverges(less, group, from, keep, name) {
        var j, op :| from < j < |less| && op in OpsOf(less[j]) && IsDivergentOp(group, keep, op)
          && op.item.name == name;
        assert more[j] == less[j];
      }
      if op :| op in OpsOf(entries[k]) && IsDivergentOp(group, keep, op) && op.item.name == name {
        assert op in OpsOf(more[k]);
      }
      if Diverges(more, group, from, keep, name) {
        var j, op :| from < j < |more| && op in OpsOf(more[j]) && IsDivergentOp(group, keep, op)
          && op.item.name == name;
        if j < k {
          assert op in OpsOf(less[j]);
        }
      }
    }
  }

  /** Everything the state of one group depends on, read off the projection's packages and
      the active timeline. */
  ghost predicate IsContextOf(packages: seq<Package>, entries: seq<Entry>, group: Group, ctx: Context) {
    && ctx.group == group
    && ctx.pool == Effective(packages)
    && ctx.ungrouped == IsUngrouped(entries, group.name)
    && (ctx.groupExcluded <==> exists i, op :: IsScanned(entries, group.name, i, op) && !op.keep)
    && forall name :: name in ctx.divergent <==>
         exists i, op :: IsScanned(entries, group.name, i, op) && Diverges(entries, group, i, op.keep, name)
  }

  lemma ScannedOnce(entries: seq<Entry>, name: string, i: int, op: Op, j: int, op': Op)
    requires IsScanned(entries, name, i, op) && IsScanned(entries, name, j, op')
    ensures i == j && op == op'
  {
  }

  method GroupContext(pool: seq<Package>, ghost packages: seq<Package>, entries: seq<Entry>, group: Group)
    returns (ctx: Context)
    requires pool == Effective(packages)
    ensures IsContextOf(packages, entries, group, ctx)
  {
    var at := ScanGroupOp(entries, group.name);
    var excluded, divergent := false, {};
    if at.Some? {
      var (i, op) := at.value;
      excluded := !op.keep;
      divergent := DivergentMembers(entries, group, i, op.keep);
      assert IsScanned(entries, group.name, i, op);
      forall j, op' | IsScanned(entries, group.name, j, op')
        ensures j == i && op' == op
      {
        ScannedOnce(entries, group.name, i, op, j, op');
      }
    }
    ctx := Context(group, pool, Types.Ungroup(group.name) in entries, excluded, divergent);
  }
}
