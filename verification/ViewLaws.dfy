/** What the cached view shows, said over the session's packages and its timeline alone. */
module ViewLaws {
  import opened Types
  import opened RepoIndex
  import opened Replay
  import opened ClosedForms
  import opened GroupState
  import opened Classify
  import opened SessionState
  import opened Views
  import opened ViewFacts

  /** Some group that lists the package has been dissolved and not regrouped by undo. */
  ghost predicate InDissolvedGroup(s: State, name: string)
    requires s.cursor <= |s.timeline|
  {
    exists g, k :: 0 <= g < |s.original.groups| && 0 <= k < s.cursor
      && s.timeline[k] == Types.Ungroup(s.original.groups[g].name) && name in s.original.groups[g].members
  }

  /** Package `i` shows if and only if it is no plumbing, the baseline does not suppress it, it is
      or was included or needs investigation, and, where leaf data exists, it is a leaf, needs
      investigation, has changed, or belongs to a dissolved group. */
  lemma ShownIsExact(s: State, v: View, i: nat)
    requires WellFormed(s) && IsViewOf(s, v) && i < |s.original.packages|
    ensures i < |Projected(s).packages|
    ensures var start := s.original.packages[i];
            var r := RefinedAt(Projected(s), i);
            var id := start.name + "." + start.arch;
            var now := r.entry.disposition == Actionable(true);
            var was := start.disposition == Actionable(true);
            var investigated := r.triage.bucket == InvestigateBucket;
            r in v.packages <==>
              && r.triage.reason != PlatformPlumbing
              && id !in s.original.facts.suppressed
              && (now || was || investigated)
              && (s.original.facts.leafPackages == None || id in s.original.facts.leafPackages.value || investigated
                  || now != was || InDissolvedGroup(s, start.name))
  {
    hide Projection, Classified, IndexFor, InDissolvedGroup, IsUngroupedMember, OriginallyIncluded, StartedExcluded;
    var proj := Projected(s);
    var start, r := s.original.packages[i], RefinedAt(proj, i);
    OriginallyIncludedIs(s.original, i);
    DissolvedIs(s, start.name);
    assert proj.packages[i] == start.(disposition := proj.packages[i].disposition);
    ShownPasses(s, v, i);
    hide IsViewOf, UniquePackages, AllActionable, SameFrame;
  }

  lemma ShownPasses(s: State, v: View, i: nat)
    requires s.cursor <= |s.timeline| && IsViewOf(s, v) && i < |Projected(s).packages|
    ensures RefinedAt(Projected(s), i) in v.packages <==> Shows(s.original, Active(s))(RefinedAt(Projected(s), i))
  {
    hide Projection, Classified, AreGroupStates, Shows;
    AllRefinedAt(Projected(s), i);
    FilterFacts(AllRefined(Projected(s)), Shows(s.original, Active(s)));
  }

  lemma DissolvedIs(s: State, name: string)
    requires s.cursor <= |s.timeline|
    ensures InDissolvedGroup(s, name) <==> IsUngroupedMember(s.original.groups, Active(s), name)
  {
    var groups := s.original.groups;
    if g :| g in groups && IsUngrouped(Active(s), g.name) && name in g.members {
      var h :| 0 <= h < |groups| && groups[h] == g;
      var k :| 0 <= k < |Active(s)| && Active(s)[k] == Types.Ungroup(g.name);
      assert s.timeline[k] == Types.Ungroup(groups[h].name);
    }
    if InDissolvedGroup(s, name) {
      var h, k :| 0 <= h < |groups| && 0 <= k < s.cursor && s.timeline[k] == Types.Ungroup(groups[h].name)
        && name in groups[h].members;
      assert Active(s)[k] == Types.Ungroup(groups[h].name);
      assert groups[h] in groups;
    }
  }

  /** Nothing else shows, and what shows stands in the order of the packages. */
  lemma ShownInOrder(s: State, v: View) returns (at: seq<nat>)
    requires WellFormed(s) && IsViewOf(s, v)
    ensures |at| == |v.packages| && forall k :: 0 <= k < |at| ==> at[k] < |s.original.packages|
    ensures forall j, k :: 0 <= j < k < |at| ==> at[j] < at[k]
    ensures forall k :: 0 <= k < |at| ==> v.packages[k] == RefinedAt(Projected(s), at[k])
  {
    hide Projection, Classified, IndexFor, AreGroupStates, Shows;
    at := FilterPlaces(AllRefined(Projected(s)), Shows(s.original, Active(s)));
  }

  lemma {:induction false} FilterPlaces<T>(s: seq<T>, p: T -> bool) returns (at: seq<nat>)
    ensures |at| == |Filter(s, p)|
    ensures forall k :: 0 <= k < |at| ==> at[k] < |s| && Filter(s, p)[k] == s[at[k]]
    ensures forall j, k :: 0 <= j < k < |at| ==> at[j] < at[k]
  {
    at := [];
    if s != [] {
      var n := |s| - 1;
      at := FilterPlaces(s[..n], p);
      if p(s[n]) {
        at := at + [n];
      }
    }
  }

  // ----- Counts and flags -----

  ghost predicate IsUnlistedMember(s: State, v: View, id: RepoId, i: int)
    requires s.cursor <= |s.timeline|
  {
    && 0 <= i < |s.original.packages| && i in OpenMembers(s, id)
    && i < |Projected(s).packages| && RefinedAt(Projected(s), i) !in v.packages
  }

  /** The unlisted count of a repo is the number of its unlocked packages the view leaves out. */
  lemma UnlistedIsExact(s: State, v: View, id: RepoId)
    requires WellFormed(s) && IsViewOf(s, v)
    ensures EffectiveOf(v.repoEffective, id).unlisted == |set i | i in OpenMembers(s, id)
              && IsUnlistedMember(s, v, id, i)|
  {
    hide Projection, Classified, IndexFor, AreGroupStates, Shows;
    var packages := Projected(s).packages;
    var visible := set r | r in v.packages :: CanonicalId(r.entry.name, r.entry.arch);
    assert IsVisibleIds(v.packages, visible);
    assert EffectiveOf(v.repoEffective, id) == FreshCount(Effective(packages), id, visible);
    var hits := set i | 0 <= i < |packages| && IsUnlistedOpen(packages, id, visible, i);
    UnlistedCountIs(packages, id, visible, hits);
    var unlisted := set i | i in OpenMembers(s, id) && IsUnlistedMember(s, v, id, i);
    hide IsViewOf, IsUnlistedMember, IsUnlistedOpen, OpenMembers, FreshCount;
    forall i
      ensures i in hits <==> i in unlisted
    {
      UnlistedAt(s, v, id, i, visible);
    }
    assert hits == unlisted;
  }

  ghost predicate IsUnlistedOpen(packages: seq<Package>, id: RepoId, visible: set<string>, i: int) {
    0 <= i < |packages| && IsEffective(packages[i]) && UnlistedIn(id, visible)(packages[i])
  }

  lemma UnlistedCountIs(packages: seq<Package>, id: RepoId, visible: set<string>, hits: set<int>)
    requires hits == set i | 0 <= i < |packages| && IsUnlistedOpen(packages, id, visible, i)
    ensures FreshCount(Effective(packages), id, visible).unlisted == |hits|
  {
    var both := (p: Package) => IsEffective(p) && UnlistedIn(id, visible)(p);
    FilterAgain(packages, IsEffective, UnlistedIn(id, visible), both);
    FilterCount(packages, both, hits);
  }

  lemma UnlistedAt(s: State, v: View, id: RepoId, i: int, visible: set<string>)
    requires WellFormed(s) && IsViewOf(s, v) && IsVisibleIds(v.packages, visible)
    ensures IsUnlistedOpen(Projected(s).packages, id, visible, i) <==>
              i in OpenMembers(s, id) && IsUnlistedMember(s, v, id, i)
  {
    hide Projection, Classified, IndexFor, AreGroupStates, Shows, UniquePackages;
    ProjectionKeepsPackages(s.original, s.index, Active(s));
    var proj := Projected(s);
    if 0 <= i < |proj.packages| {
      var p := proj.packages[i];
      assert p == s.original.packages[i].(disposition := p.disposition);
      assert IsEffective(p) <==> !p.locked;
      assert i in OpenMembers(s, id) <==> !p.locked && CountedIn(id)(p);
      VisibleIsShown(s, v, i, visible);
    }
  }

  /** A package's id is visible exactly when that very package shows. */
  lemma VisibleIsShown(s: State, v: View, i: nat, visible: set<string>)
    requires WellFormed(s) && IsViewOf(s, v) && IsVisibleIds(v.packages, visible) && i < |Projected(s).packages|
    ensures CanonicalId(Projected(s).packages[i].name, Projected(s).packages[i].arch) in visible <==>
              RefinedAt(Projected(s), i) in v.packages
  {
    hide Projection, Classified, IndexFor, AreGroupStates, Shows, UniquePackages;
    var proj := Projected(s);
    ProjectionKeepsPackages(s.original, s.index, Active(s));
    CanonicalKeyIsPackageKey(proj.packages, i);
    var at := ShownInOrder(s, v);
    var id := CanonicalId(proj.packages[i].name, proj.packages[i].arch);
    if id in visible {
      var k :| 0 <= k < |v.packages| && CanonicalId(v.packages[k].entry.name, v.packages[k].entry.arch) == id;
      assert at[k] == i;
    }
    if RefinedAt(proj, i) in v.packages {
      var k :| 0 <= k < |v.packages| && v.packages[k] == RefinedAt(proj, i);
    }
  }

  /** The buttons tell the truth: undo and redo are offered exactly when they would be done. */
  lemma FlagsAreExact(s: State, v: View)
    requires WellFormed(s) && IsViewOf(s, v)
    ensures v.canUndo <==> SessionState.Undo(s).1 == Done
    ensures v.canRedo <==> SessionState.Redo(s).1 == Done
    ensures v.generation == s.generation && v.opsApplied == |Active(s)|
  {
  }
}
