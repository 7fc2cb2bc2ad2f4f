/** The render state of a group, said over the session's packages and its timeline alone. */
module GroupLaws {
  import opened Types
  import opened RepoIndex
  import opened Replay
  import opened GroupState
  import opened SessionState
  import opened Views

  // ----- Members -----

  /** Package `i` is unlocked and carries the name. */
  predicate IsOpen(packages: seq<Package>, name: string, i: int) {
    0 <= i < |packages| && packages[i].name == name && !packages[i].locked
  }

  /** Two unlocked packages carry the name. */
  ghost predicate Clashes(packages: seq<Package>, name: string) {
    exists i, j :: 0 <= i < j && IsOpen(packages, name, i) && IsOpen(packages, name, j)
  }

  // ----- Group ops and overrides -----

  /** The group op that counts: the first one on the group within the last entry that has any. */
  ghost predicate IsCountingOp(entries: seq<Entry>, name: string, k: int, op: Op) {
    && 0 <= k < |entries|
    && (exists j ::
          0 <= j < |OpsOf(entries[k])| && OpsOf(entries[k])[j] == op && op.item == GroupItem(name)
          && forall i :: 0 <= i < j ==> OpsOf(entries[k])[i].item != GroupItem(name))
    && forall m, later :: k < m < |entries| && later in OpsOf(entries[m]) ==> later.item != GroupItem(name)
  }

  /** After that op some entry holds an op on a package of this name that points the other way. */
  ghost predicate OpposedLater(entries: seq<Entry>, group: string, member: string) {
    exists k, op, m, opposed ::
      IsCountingOp(entries, group, k, op) && 0 <= k < m < |entries| && opposed in OpsOf(entries[m])
      && opposed.item.PackageItem? && opposed.item.name == member && opposed.keep != op.keep
  }

  ghost predicate LastExcluded(entries: seq<Entry>, group: string) {
    exists k, op :: IsCountingOp(entries, group, k, op) && !op.keep
  }

  /** The member is overridden: one unlocked package carries its name, and an op opposes it. */
  ghost predicate IsOpposed(packages: seq<Package>, entries: seq<Entry>, group: string, member: string) {
    (exists i :: IsOpen(packages, member, i)) && !Clashes(packages, member) && OpposedLater(entries, group, member)
  }

  ghost predicate IsStop(packages: seq<Package>, entries: seq<Entry>, group: Group, j: int) {
    0 <= j < |group.members|
    && (Clashes(packages, group.members[j]) || IsOpposed(packages, entries, group.name, group.members[j]))
  }

  ghost predicate IsFirstStop(packages: seq<Package>, entries: seq<Entry>, group: Group, j: int) {
    IsStop(packages, entries, group, j) && forall m :: 0 <= m < j ==> !IsStop(packages, entries, group, m)
  }

  /** An unlocked package of the group. */
  predicate IsMemberAt(packages: seq<Package>, group: Group, i: int) {
    0 <= i < |packages| && packages[i].name in group.members && !packages[i].locked
  }

  ghost predicate HasMember(packages: seq<Package>, group: Group, keep: bool) {
    exists i :: IsMemberAt(packages, group, i) && packages[i].disposition == Actionable(keep)
  }

  /** The state of an undissolved group: the first member in listed order that clashes or is
      opposed settles it; without one, no member at all is inert, a group op that excluded with
      no member included is excluded, a member excluded otherwise degrades, and else it renders. */
  ghost function LawfulState(packages: seq<Package>, entries: seq<Entry>, group: Group): RenderState {
    if exists j :: IsFirstStop(packages, entries, group, j) && Clashes(packages, group.members[j])
    then Degraded(MultilibConflict)
    else if exists j :: IsFirstStop(packages, entries, group, j) then Degraded(MemberOverridden)
    else if !HasMember(packages, group, true) && !HasMember(packages, group, false) then Inert
    else if LastExcluded(entries, group.name) && !HasMember(packages, group, true) then GroupState.Excluded
    else if HasMember(packages, group, false) then Degraded(MemberExcluded)
    else Renderable
  }

  /** In every reachable state the view shows each group as dissolved when the active timeline
      dissolves it, and otherwise in its lawful state. */
  lemma GroupStateIsExact(s: State, v: View, g: nat)
    requires WellFormed(s) && IsViewOf(s, v)
    requires g < |s.original.groups| && forall h :: g < h < |s.original.groups| ==>
               s.original.groups[h].name != s.original.groups[g].name
    ensures var group := s.original.groups[g];
            && group.name in v.groupStates
            && v.groupStates[group.name] ==
               if exists k :: 0 <= k < s.cursor && s.timeline[k] == Types.Ungroup(group.name) then GroupState.Ungrouped
               else LawfulState(Projected(s).packages, s.timeline[..s.cursor], group)
  {
    hide Projection, IndexFor, UniquePackages, IsStateOf, LawfulState, Shows;
    var group := s.original.groups[g];
    var packages := Projected(s).packages;
    assert IsLastGroup(s.original.groups, g);
    var state := v.groupStates[group.name];
    assert IsGroupState(packages, Active(s), group, state);
    var ctx :| IsContextOf(packages, Active(s), group, ctx) && IsStateOf(ctx, state);
    ProjectionKeepsPackages(s.original, s.index, Active(s));
    StateIsLawful(packages, Active(s), ctx, state);
    assert ctx.ungrouped <==> exists k :: 0 <= k < s.cursor && s.timeline[k] == Types.Ungroup(group.name) by {
      DissolvedIsSeen(s, group.name);
    }
  }

  lemma DissolvedIsSeen(s: State, name: string)
    requires s.cursor <= |s.timeline|
    ensures IsUngrouped(Active(s), name) <==> exists k :: 0 <= k < s.cursor && s.timeline[k] == Types.Ungroup(name)
  {
    if k :| 0 <= k < s.cursor && s.timeline[k] == Types.Ungroup(name) {
      assert Active(s)[k] == Types.Ungroup(name);
    }
  }

  lemma StateIsLawful(packages: seq<Package>, entries: seq<Entry>, ctx: Context, state: RenderState)
    requires AllActionable(packages) && IsContextOf(packages, entries, ctx.group, ctx) && IsStateOf(ctx, state)
    ensures state == if ctx.ungrouped then GroupState.Ungrouped else LawfulState(packages, entries, ctx.group)
  {
    hide IsContextOf, IsStateOf, LawfulState, StopsScan, IsStop, QuietState, Clashes, IsConflict;
    if !ctx.ungrouped {
      forall j | 0 <= j < |ctx.group.members|
        ensures StopsScan(ctx, ctx.group.members[j]) <==> IsStop(packages, entries, ctx.group, j)
        ensures IsConflict(ctx, ctx.group.members[j]) <==> Clashes(packages, ctx.group.members[j])
      {
        StopIsSpelled(packages, entries, ctx, j);
      }
      if forall m :: m in ctx.group.members ==> !StopsScan(ctx, m) {
        NoStopIsQuiet(packages, entries, ctx, state);
      } else {
        SomeStopDegrades(packages, entries, ctx, state);
      }
    } else {
      UngroupedIsUngrouped(ctx, state);
    }
  }

  lemma UngroupedIsUngrouped(ctx: Context, state: RenderState)
    requires IsStateOf(ctx, state) && ctx.ungrouped
    ensures state == GroupState.Ungrouped
  {
  }

  lemma SomeStopDegrades(packages: seq<Package>, entries: seq<Entry>, ctx: Context, state: RenderState)
    requires IsStateOf(ctx, state) && !ctx.ungrouped && exists m :: m in ctx.group.members && StopsScan(ctx, m)
    requires forall j :: 0 <= j < |ctx.group.members| ==>
               && (StopsScan(ctx, ctx.group.members[j]) <==> IsStop(packages, entries, ctx.group, j))
               && (IsConflict(ctx, ctx.group.members[j]) <==> Clashes(packages, ctx.group.members[j]))
    ensures state == LawfulState(packages, entries, ctx.group)
  {
    hide StopsScan, IsStop, QuietState, Clashes, IsConflict, HasMember, LastExcluded;
    var j :| FirstStop(ctx, j) && state == Degraded(StopReason(ctx, ctx.group.members[j]));
    assert IsFirstStop(packages, entries, ctx.group, j);
    forall k | IsFirstStop(packages, entries, ctx.group, k)
      ensures k == j
    {
      if !(0 <= k < |ctx.group.members|) {
        OutsideIsNoStop(packages, entries, ctx.group, k);
      }
    }
  }

  lemma NoStopIsQuiet(packages: seq<Package>, entries: seq<Entry>, ctx: Context, state: RenderState)
    requires AllActionable(packages) && IsContextOf(packages, entries, ctx.group, ctx) && IsStateOf(ctx, state)
    requires !ctx.ungrouped && forall m :: m in ctx.group.members ==> !StopsScan(ctx, m)
    requires forall j :: 0 <= j < |ctx.group.members| ==>
               (StopsScan(ctx, ctx.group.members[j]) <==> IsStop(packages, entries, ctx.group, j))
    ensures state == LawfulState(packages, entries, ctx.group)
  {
    hide StopsScan, IsStop, IsDecided, IsIncludedMember, IsExcludedMember, HasMember, LastExcluded, IsContextOf;
    forall j
      ensures !IsFirstStop(packages, entries, ctx.group, j)
    {
      if 0 <= j < |ctx.group.members| {
        assert ctx.group.members[j] in ctx.group.members;
      } else {
        OutsideIsNoStop(packages, entries, ctx.group, j);
      }
    }
    QuietMembers(packages, entries, ctx);
  }

  lemma OutsideIsNoStop(packages: seq<Package>, entries: seq<Entry>, group: Group, j: int)
    requires !(0 <= j < |group.members|)
    ensures !IsStop(packages, entries, group, j)
  {
  }

  /** Without a clash the decided members are the unlocked packages of the group. */
  lemma QuietMembers(packages: seq<Package>, entries: seq<Entry>, ctx: Context)
    requires AllActionable(packages) && IsContextOf(packages, entries, ctx.group, ctx)
    requires forall m :: m in ctx.group.members ==> !StopsScan(ctx, m)
    ensures (forall m :: m in ctx.group.members ==> !IsDecided(ctx, m)) <==>
              !HasMember(packages, ctx.group, true) && !HasMember(packages, ctx.group, false)
    ensures (exists m :: m in ctx.group.members && IsIncludedMember(ctx, m)) <==> HasMember(packages, ctx.group, true)
    ensures (exists m :: m in ctx.group.members && IsExcludedMember(ctx, m)) <==> HasMember(packages, ctx.group, false)
    ensures ctx.groupExcluded <==> LastExcluded(entries, ctx.group.name)
  {
    hide Matching, IsContextOf, IsConflict, IsOverridden;
    assert ctx.pool == Effective(packages) && (ctx.groupExcluded <==> LastExcluded(entries, ctx.group.name)) by {
      ContextParts(packages, entries, ctx);
    }
    forall m | m in ctx.group.members
      ensures IsDecided(ctx, m) <==> exists i :: IsOpen(packages, m, i)
      ensures forall i :: IsOpen(packages, m, i) ==> IsDecided(ctx, m) && Matching(ctx, m)[0] == packages[i]
    {
      assert !IsConflict(ctx, m) by { NoConflict(ctx, m); }
      MatchingIs(packages, ctx, m);
    }
    forall i | IsMemberAt(packages, ctx.group, i)
      ensures IsOpen(packages, packages[i].name, i)
    {
    }
    assert forall m, i :: m in ctx.group.members && IsOpen(packages, m, i) ==> IsMemberAt(packages, ctx.group, i);
  }

  lemma NoConflict(ctx: Context, m: string)
    requires !StopsScan(ctx, m)
    ensures !IsConflict(ctx, m)
  {
  }

  lemma ContextParts(packages: seq<Package>, entries: seq<Entry>, ctx: Context)
    requires IsContextOf(packages, entries, ctx.group, ctx)
    ensures ctx.pool == Effective(packages)
    ensures ctx.groupExcluded <==> LastExcluded(entries, ctx.group.name)
    ensures forall name :: name in ctx.divergent <==>
              name in ctx.group.members && OpposedLater(entries, ctx.group.name, name)
  {
    hide Effective, IsScanned, IsCountingOp, Diverges, OpposedLater;
    forall i, op
      ensures IsScanned(entries, ctx.group.name, i, op) <==> IsCountingOp(entries, ctx.group.name, i, op)
    {
      ScannedIsSpelled(entries, ctx.group.name, i, op);
    }
    forall name
      ensures name in ctx.divergent <==> name in ctx.group.members && OpposedLater(entries, ctx.group.name, name)
    {
      DivergentIsSpelled(entries, ctx, name);
    }
  }

  lemma ScannedIsSpelled(entries: seq<Entry>, name: string, k: int, op: Op)
    ensures IsScanned(entries, name, k, op) <==> IsCountingOp(entries, name, k, op)
  {
    if 0 <= k < |entries| {
      var ops := OpsOf(entries[k]);
      forall j
        ensures IsFirst(ops, GroupOpKey(name), j) <==>
                  0 <= j < |ops| && ops[j].item == GroupItem(name)
                  && forall i :: 0 <= i < j ==> ops[i].item != GroupItem(name)
      {
      }
      forall m | k < m < |entries|
        ensures NoMatch(OpsOf(entries[m]), GroupOpKey(name)) <==>
                  forall later :: later in OpsOf(entries[m]) ==> later.item != GroupItem(name)
      {
        NoneIsSpelled(OpsOf(entries[m]), name);
      }
    }
  }

  lemma NoneIsSpelled(ops: seq<Op>, name: string)
    ensures NoMatch(ops, GroupOpKey(name)) <==> forall op :: op in ops ==> op.item != GroupItem(name)
  {
    if forall op :: op in ops ==> op.item != GroupItem(name) {
      assert forall i :: 0 <= i < |ops| ==> ops[i] in ops;
    }
  }

  lemma DivergentIsSpelled(entries: seq<Entry>, ctx: Context, name: string)
    requires name in ctx.divergent <==>
               exists i, op ::
                 IsScanned(entries, ctx.group.name, i, op) && Diverges(entries, ctx.group, i, op.keep, name)
    requires forall i, op ::
               IsScanned(entries, ctx.group.name, i, op) <==> IsCountingOp(entries, ctx.group.name, i, op)
    ensures name in ctx.divergent <==> name in ctx.group.members && OpposedLater(entries, ctx.group.name, name)
  {
    hide IsScanned, IsCountingOp;
    if name in ctx.divergent {
      var k, op :| IsScanned(entries, ctx.group.name, k, op) && Diverges(entries, ctx.group, k, op.keep, name);
      CountingIsInside(entries, ctx.group.name, k, op);
      var m, opposed :| 0 <= k < m < |entries| && opposed in OpsOf(entries[m])
        && IsDivergentOp(ctx.group, op.keep, opposed) && opposed.item.name == name;
      assert OpposedLater(entries, ctx.group.name, name);
    }
    if name in ctx.group.members && OpposedLater(entries, ctx.group.name, name) {
      var k, op, m, opposed :| IsCountingOp(entries, ctx.group.name, k, op) && 0 <= k < m < |entries|
        && opposed in OpsOf(entries[m])
        && opposed.item.PackageItem? && opposed.item.name == name && opposed.keep != op.keep;
      assert IsScanned(entries, ctx.group.name, k, op) && IsDivergentOp(ctx.group, op.keep, opposed);
      assert Diverges(entries, ctx.group, k, op.keep, name);
    }
  }

  lemma CountingIsInside(entries: seq<Entry>, name: string, k: int, op: Op)
    requires IsCountingOp(entries, name, k, op)
    ensures 0 <= k < |entries|
  {
  }

  /** The effective packages of a name are the unlocked packages that carry it. */
  lemma MatchingIs(packages: seq<Package>, ctx: Context, name: string)
    requires AllActionable(packages) && ctx.pool == Effective(packages)
    ensures IsConflict(ctx, name) <==> Clashes(packages, name)
    ensures IsDecided(ctx, name) <==> (exists i :: IsOpen(packages, name, i)) && !Clashes(packages, name)
    ensures !Clashes(packages, name) ==>
              forall i :: IsOpen(packages, name, i) ==> IsDecided(ctx, name) && Matching(ctx, name)[0] == packages[i]
  {
    var both := (p: Package) => IsEffective(p) && Named(name)(p);
    FilterAgain(packages, IsEffective, Named(name), both);
    FilterFacts(packages, both);
    var found := Filter(packages, both);
    assert Matching(ctx, name) == found;
    assert forall i :: 0 <= i < |packages| ==> (both(packages[i]) <==> IsOpen(packages, name, i));
    assert TwoMatch(packages, both) <==> Clashes(packages, name);
    forall i | IsOpen(packages, name, i) && !Clashes(packages, name)
      ensures |found| == 1 && found[0] == packages[i]
    {
      assert packages[i] in found;
    }
    if |found| == 1 {
      assert found[0] in found;
      assert found[0] in packages && both(found[0]);
      var i :| 0 <= i < |packages| && packages[i] == found[0];
      assert IsOpen(packages, name, i);
    }
  }

  lemma StopIsSpelled(packages: seq<Package>, entries: seq<Entry>, ctx: Context, j: nat)
    requires AllActionable(packages) && IsContextOf(packages, entries, ctx.group, ctx) && j < |ctx.group.members|
    ensures StopsScan(ctx, ctx.group.members[j]) <==> IsStop(packages, entries, ctx.group, j)
    ensures IsConflict(ctx, ctx.group.members[j]) <==> Clashes(packages, ctx.group.members[j])
  {
    hide IsContextOf, Clashes, IsConflict, Matching, OpposedLater, IsDecided;
    var name := ctx.group.members[j];
    ContextParts(packages, entries, ctx);
    MatchingIs(packages, ctx, name);
    assert name in ctx.group.members;
    if IsDecided(ctx, name) {
      DecidedCarriesName(ctx, name);
    }
  }

  lemma DecidedCarriesName(ctx: Context, name: string)
    requires IsDecided(ctx, name)
    ensures Matching(ctx, name)[0].name == name
  {
    FilterFacts(ctx.pool, Named(name));
    assert Matching(ctx, name)[0] in Matching(ctx, name);
  }
}
