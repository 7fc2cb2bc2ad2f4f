/** What a user can rely on when reading the view, in every state a run can reach. */
module ViewFacts {
  import opened Types
  import opened RepoIndex
  import opened Replay
  import opened ClosedForms
  import opened GroupState
  import opened Classify
  import opened SessionState
  import opened Views
  import opened Runs

  // ----- No hidden change -----

  lemma AllRefinedAt(proj: Snapshot, i: nat)
    requires i < |proj.packages|
    ensures RefinedAt(proj, i) in AllRefined(proj)
  {
    assert AllRefined(proj)[i] == RefinedAt(proj, i);
  }

  lemma OriginallyIncludedIs(orig: Snapshot, i: nat)
    requires UniquePackages(orig.packages) && i < |orig.packages|
    ensures var p := orig.packages[i];
            && (OriginallyIncluded(orig, p.name, p.arch) <==> p.disposition.IsIncluded())
            && (StartedExcluded(orig, p.name, p.arch) <==> !p.disposition.IsIncluded())
  {
    var p := orig.packages[i];
    assert PackageKey(p.name, p.arch)(p);
    assert forall j :: 0 <= j < |orig.packages| && PackageKey(p.name, p.arch)(orig.packages[j]) ==> j == i;
  }

  /** A package whose include state differs from the session's own starting value, or which
      needs investigation, shows in the view unless it is plumbing or baseline-suppressed. */
  lemma NoHiddenChange(s: State, v: View, i: nat)
    requires WellFormed(s) && IsViewOf(s, v) && i < |s.original.packages|
    requires var r := RefinedAt(Projected(s), i);
             && !r.triage.reason.PlatformPlumbing?
             && PassesBaseline(s.original.facts, r)
             && (r.entry.disposition.IsIncluded() != s.original.packages[i].disposition.IsIncluded()
               || r.triage.bucket.InvestigateBucket?)
    ensures RefinedAt(Projected(s), i) in v.packages
  {
    hide Projection, Classified, IndexFor, AreGroupStates;
    var proj := Projected(s);
    AllRefinedAt(proj, i);
    OriginallyIncludedIs(s.original, i);
    FilterFacts(AllRefined(proj), Shows(s.original, Active(s)));
    assert proj.packages[i] == s.original.packages[i].(disposition := proj.packages[i].disposition);
  }

  /** The same over a run: a change against the decision the session was built with shows, and
      so does whatever needs investigation. */
  lemma RunHidesNoChange(states: seq<State>, cmds: seq<Command>, n: nat, v: View, i: nat)
    requires IsRun(states, cmds) && WellFormed(states[0]) && n < |states| && i < |states[0].original.packages|
    requires IsViewOf(states[n], v)
    ensures i < |Projected(states[n]).packages|
    ensures var r := RefinedAt(Projected(states[n]), i);
            !r.triage.reason.PlatformPlumbing?
            && PassesBaseline(states[0].original.facts, r)
            && (r.entry.disposition.IsIncluded() != states[0].original.packages[i].disposition.IsIncluded()
                || r.triage.bucket.InvestigateBucket?)
            ==> r in v.packages
  {
    hide Projection, Classified, IndexFor, IsViewOf, Step;
    RunStaysWellFormed(states, cmds, n);
    RunKeepsOriginal(states, cmds, n);
    assert SameButCache(states[0].original.packages[i], states[n].original.packages[i]);
    var r := RefinedAt(Projected(states[n]), i);
    if !r.triage.reason.PlatformPlumbing? && PassesBaseline(states[0].original.facts, r)
       && (r.entry.disposition.IsIncluded() != states[0].original.packages[i].disposition.IsIncluded()
           || r.triage.bucket.InvestigateBucket?) {
      NoHiddenChange(states[n], v, i);
    }
  }

  // ----- Classification over a run -----

  lemma RunSameEvidence(states: seq<State>, cmds: seq<Command>, n: nat)
    requires IsRun(states, cmds) && n < |states|
    ensures SameEvidence(states[0].original, Projected(states[n]))
  {
    hide Projection, Step;
    RunKeepsOriginal(states, cmds, n);
    var a, b := states[0].original, Projected(states[n]);
    forall i | 0 <= i < |a.packages|
      ensures SameIdentity(a.packages[i], b.packages[i])
    {
      assert SameButCache(a.packages[i], states[n].original.packages[i]);
      assert b.packages[i] == states[n].original.packages[i].(disposition := b.packages[i].disposition);
    }
  }

  /** Every package keeps its bucket and reason through any run, uploads included. */
  lemma RunKeepsClassification(states: seq<State>, cmds: seq<Command>, n: nat, i: nat)
    requires IsRun(states, cmds) && n < |states| && i < |states[0].original.packages|
    ensures i < |Projected(states[n]).packages|
    ensures RefinedAt(Projected(states[n]), i).triage == Classified(states[0].original,
              states[0].original.packages[i]).triage
  {
    RunSameEvidence(states, cmds, n);
    ClassificationIsStable(states[0].original, Projected(states[n]), i);
  }

  // ----- Cached counts -----

  /** The unlocked packages of the session's own snapshot that are attributed to `id`. */
  ghost function OpenMembers(s: State, id: RepoId): set<int> {
    set i | 0 <= i < |s.original.packages| && !s.original.packages[i].locked
      && s.original.packages[i].sourceRepo != "" && Fold(s.original.packages[i].sourceRepo) == id
  }

  ghost function IncludedMembers(s: State, id: RepoId): set<int>
    requires s.cursor <= |s.timeline|
  {
    set i | i in OpenMembers(s, id) && 0 <= i < |Projected(s).packages|
      && Projected(s).packages[i].disposition.IsIncluded()
  }

  lemma {:induction false} FilterCount<T(!new)>(t: seq<T>, p: T -> bool, hits: set<int>)
    requires hits == set i | 0 <= i < |t| && p(t[i])
    ensures |Filter(t, p)| == |hits|
  {
    if t != [] {
      var n := |t| - 1;
      var fewer := set i | 0 <= i < n && p(t[..n][i]);
      FilterCount(t[..n], p, fewer);
      assert fewer == set i | 0 <= i < n && p(t[i]);
      if p(t[n]) {
        assert hits == fewer + {n};
      } else {
        assert hits == fewer;
      }
    }
  }

  /** The cached member count of a repo is the number of unlocked packages attributed to it, and
      the cached included count is how many of those the projection includes, whatever detour
      the view took to get them. */
  lemma CachedCountsAreFresh(s: State, v: View, id: RepoId)
    requires WellFormed(s) && IsViewOf(s, v)
    ensures EffectiveOf(v.repoEffective, id).memberCount == |OpenMembers(s, id)|
    ensures EffectiveOf(v.repoEffective, id).included == |IncludedMembers(s, id)|
  {
    hide Projection, Classified, IndexFor, AreGroupStates;
    var packages := Projected(s).packages;
    ProjectionKeepsPackages(s.original, s.index, Active(s));
    var visible := set r | r in v.packages :: CanonicalId(r.entry.name, r.entry.arch);
    assert IsVisibleIds(v.packages, visible);
    assert EffectiveOf(v.repoEffective, id) == FreshCount(Effective(packages), id, visible);
    assert forall i :: 0 <= i < |packages| ==>
      packages[i] == s.original.packages[i].(disposition := packages[i].disposition);
    FreshCountIs(packages, id, visible, OpenMembers(s, id), IncludedMembers(s, id));
  }

  lemma FreshCountIs(packages: seq<Package>, id: RepoId, visible: set<string>, members: set<int>, included: set<int>)
    requires members == set i | 0 <= i < |packages| && IsEffective(packages[i]) && CountedIn(id)(packages[i])
    requires included == set i | i in members && 0 <= i < |packages| && packages[i].disposition.IsIncluded()
    ensures FreshCount(Effective(packages), id, visible).memberCount == |members|
    ensures FreshCount(Effective(packages), id, visible).included == |included|
  {
    var counts := (p: Package) => IsEffective(p) && CountedIn(id)(p);
    var includes := (p: Package) => IsEffective(p) && IncludedIn(id)(p);
    FilterAgain(packages, IsEffective, CountedIn(id), counts);
    FilterAgain(packages, IsEffective, IncludedIn(id), includes);
    FilterCount(packages, counts, members);
    FilterCount(packages, includes, included);
  }

  // ----- Group states in the view -----

  /** `p` is an unlocked projected package whose name the group lists. */
  ghost predicate IsEffectiveMember(s: State, group: Group, p: Package)
    requires s.cursor <= |s.timeline|
  {
    p in Projected(s).packages && IsEffective(p) && p.name in group.members
  }

  lemma PoolIsEffective(packages: seq<Package>)
    ensures forall p :: p in Effective(packages) <==> p in packages && IsEffective(p)
  {
    FilterFacts(packages, IsEffective);
  }

  /** No two effective packages of the projection share the name. */
  ghost predicate IsSingleArch(s: State, name: string)
    requires s.cursor <= |s.timeline|
  {
    !TwoMatch(Effective(Projected(s).packages), Named(name))
  }

  /** In any reachable state a group the view calls renderable is not dissolved, has an
      effective member, and each effective member is included and single-arch; one it calls
      excluded was excluded by the scanned group op and has no included effective member. */
  lemma GroupStateIsSound(s: State, v: View, g: nat)
    requires WellFormed(s) && IsViewOf(s, v) && IsLastGroup(s.original.groups, g)
    ensures var group := s.original.groups[g];
            && group.name in v.groupStates
            && (v.groupStates[group.name] == Renderable ==>
                  && !IsUngrouped(Active(s), group.name)
                  && (exists p :: IsEffectiveMember(s, group, p))
                  && (forall p :: IsEffectiveMember(s, group, p) ==>
                        p.disposition == Actionable(true) && IsSingleArch(s, p.name)))
            && (v.groupStates[group.name] == GroupState.Excluded ==>
                  && (exists i, op :: IsScanned(Active(s), group.name, i, op) && !op.keep)
                  && (forall p :: IsEffectiveMember(s, group, p) ==> p.disposition == Actionable(false)))
  {
    hide Projection, Classified, IndexFor, UniquePackages, IsStateOf;
    var group := s.original.groups[g];
    var packages := Projected(s).packages;
    var state := v.groupStates[group.name];
    assert IsGroupState(packages, Active(s), group, state);
    var ctx :| IsContextOf(packages, Active(s), group, ctx) && IsStateOf(ctx, state);
    PoolIsEffective(packages);
    assert forall p :: IsEffectiveMember(s, group, p) <==> IsMemberOf(ctx, p);
    if state == Renderable {
      RenderableIsSound(ctx);
      var p :| IsMemberOf(ctx, p);
      assert IsEffectiveMember(s, group, p);
    } else if state == GroupState.Excluded {
      ExcludedIsSound(ctx);
    }
  }
}
