/** The cached view: which packages show, the effective counts per repo, and the render state
    per group, stated over the projection and then computed the way the session does. */
module Views {
  import opened Types
  import opened Strings
  import opened RepoIndex
  import opened Replay
  import opened ClosedForms
  import opened GroupState
  import opened Classify
  import opened SessionState
  import Projector

  datatype RepoEffective = RepoEffective(memberCount: nat, included: nat, unlisted: nat)

  datatype View = View(
    packages: seq<Refined>,
    repoEffective: map<RepoId, RepoEffective>,
    groupStates: map<string, RenderState>,
    generation: nat,
    opsApplied: nat,
    canUndo: bool,
    canRedo: bool)

  // ----- What the view must be -----

  ghost function RefinedAt(proj: Snapshot, i: nat): Refined
    requires i < |proj.packages|
  {
    Refined(proj.packages[i], Classified(proj, proj.packages[i]).triage)
  }

  ghost function AllRefined(proj: Snapshot): (rs: seq<Refined>)
    ensures |rs| == |proj.packages|
  {
    seq(|proj.packages|, i requires 0 <= i < |proj.packages| => RefinedAt(proj, i))
  }

  ghost predicate OriginallyIncluded(orig: Snapshot, name: string, arch: string) {
    exists i :: 0 <= i < |orig.packages| && PackageKey(name, arch)(orig.packages[i])
      && orig.packages[i].disposition.IsIncluded()
  }

  /** Excluded when the session was built. */
  ghost predicate StartedExcluded(orig: Snapshot, name: string, arch: string) {
    exists i :: 0 <= i < |orig.packages| && PackageKey(name, arch)(orig.packages[i])
      && !orig.packages[i].disposition.IsIncluded()
  }

  ghost predicate IsUngroupedMember(groups: seq<Group>, entries: seq<Entry>, name: string) {
    exists g :: g in groups && IsUngrouped(entries, g.name) && name in g.members
  }

  /** Filter 1: plumbing never shows; a package that started excluded and still is shows only
      when it needs investigation. */
  ghost predicate PassesTriage(orig: Snapshot, r: Refined) {
    && !r.triage.reason.PlatformPlumbing?
    && (r.entry.disposition.IsIncluded() || !StartedExcluded(orig, r.entry.name, r.entry.arch)
      || r.triage.bucket.InvestigateBucket?)
  }

  /** Filter 2: the baseline suppresses it. */
  predicate PassesBaseline(facts: Facts, r: Refined) {
    CanonicalId(r.entry.name, r.entry.arch) !in facts.suppressed
  }

  /** Filter 3: with leaf data, only leaves, packages to investigate, changed packages and
      members of dissolved groups show. */
  ghost predicate PassesLeaf(orig: Snapshot, entries: seq<Entry>, r: Refined) {
    orig.facts.leafPackages.Some? ==>
      || CanonicalId(r.entry.name, r.entry.arch) in orig.facts.leafPackages.value
      || r.triage.bucket.InvestigateBucket?
      || r.entry.disposition.IsIncluded() != OriginallyIncluded(orig, r.entry.name, r.entry.arch)
      || IsUngroupedMember(orig.groups, entries, r.entry.name)
  }

  ghost function Shows(orig: Snapshot, entries: seq<Entry>): Refined -> bool {
    (r: Refined) => PassesTriage(orig, r) && PassesBaseline(orig.facts, r) && PassesLeaf(orig, entries, r)
  }

  function CountedIn(id: RepoId): Package -> bool {
    (p: Package) => p.sourceRepo != "" && Fold(p.sourceRepo) == id
  }

  function IncludedIn(id: RepoId): Package -> bool {
    (p: Package) => CountedIn(id)(p) && p.disposition.IsIncluded()
  }

  function UnlistedIn(id: RepoId, visible: set<string>): Package -> bool {
    (p: Package) => CountedIn(id)(p) && CanonicalId(p.name, p.arch) !in visible
  }

  /** The counts of one repo section, taken afresh from a pool of packages. */
  function FreshCount(pool: seq<Package>, id: RepoId, visible: set<string>): RepoEffective {
    RepoEffective(|Filter(pool, CountedIn(id))|, |Filter(pool, IncludedIn(id))|,
      |Filter(pool, UnlistedIn(id, visible))|)
  }

  function EffectiveOf(m: map<RepoId, RepoEffective>, id: RepoId): RepoEffective {
    if id in m then m[id] else RepoEffective(0, 0, 0)
  }

  ghost predicate IsVisibleIds(packages: seq<Refined>, visible: set<string>) {
    forall id :: id in visible <==> exists i ::
      0 <= i < |packages| && CanonicalId(packages[i].entry.name, packages[i].entry.arch) == id
  }

  ghost predicate NamesGroup(groups: seq<Group>, name: string) {
    exists g :: 0 <= g < |groups| && groups[g].name == name
  }

  /** The state recorded for a group name comes from the last group of that name. */
  ghost predicate IsLastGroup(groups: seq<Group>, g: int) {
    0 <= g < |groups| && forall h :: g < h < |groups| ==> groups[h].name != groups[g].name
  }

  ghost predicate IsGroupState(packages: seq<Package>, entries: seq<Entry>, group: Group, state: RenderState) {
    exists ctx :: IsContextOf(packages, entries, group, ctx) && IsStateOf(ctx, state)
  }

  ghost predicate AreGroupStates(packages: seq<Package>, entries: seq<Entry>, groups: seq<Group>, states: map<string,
                                 RenderState>) {
    && (forall name :: name in states <==> NamesGroup(groups, name))
    && (forall g :: IsLastGroup(groups, g) ==>
          groups[g].name in states && IsGroupState(packages, entries, groups[g], states[groups[g].name]))
  }

  ghost predicate IsViewOf(s: State, v: View)
    requires s.cursor <= |s.timeline|
  {
    var proj := Projected(s);
    && v.packages == Filter(AllRefined(proj), Shows(s.original, Active(s)))
    && (forall visible :: IsVisibleIds(v.packages, visible) ==>
          forall id :: EffectiveOf(v.repoEffective, id) == FreshCount(Effective(proj.packages), id, visible))
    && AreGroupStates(proj.packages, Active(s), s.original.groups, v.groupStates)
    && v.generation == s.generation
    && v.opsApplied == s.cursor
    && v.canUndo == (s.cursor > 0)
    && v.canRedo == (s.cursor < |s.timeline|)
  }

  // ----- `name.arch` keys are unambiguous -----

  lemma CanonicalIdInjective(n: string, a: string, n': string, a': string)
    requires '.' !in a && '.' !in a'
    requires CanonicalId(n, a) == CanonicalId(n', a')
    ensures n == n' && a == a'
  {
    LastSplit(n, a, n', a', '.');
  }

  /** The canonical spelling finds the package it names and no other. */
  lemma CanonicalKeyIsPackageKey(packages: seq<Package>, i: nat)
    requires UniquePackages(packages) && i < |packages|
    ensures IsFirst(packages, PackageKey(packages[i].name, packages[i].arch), i)
    ensures forall j ::
              0 <= j < |packages|
              && CanonicalId(packages[j].name, packages[j].arch) == CanonicalId(packages[i].name, packages[i].arch)
              ==> j == i
    ensures IsFirst(packages, CanonicalKey(CanonicalId(packages[i].name, packages[i].arch)), i)
  {
    forall j | 0 <= j < |packages|
               && CanonicalId(packages[j].name, packages[j].arch) == CanonicalId(packages[i].name, packages[i].arch)
      ensures j == i
    {
      CanonicalIdInjective(packages[j].name, packages[j].arch, packages[i].name, packages[i].arch);
    }
  }

  // ----- What every projection keeps -----

  lemma ProjectionKeepsPackages(orig: Snapshot, idx: Index, entries: seq<Entry>)
    requires UniquePackages(orig.packages) && AllActionable(orig.packages)
    ensures UniquePackages(Projection(orig, idx, entries).packages)
    ensures AllActionable(Projection(orig, idx, entries).packages)
  {
    var proj := Projection(orig, idx, entries);
    forall i | 0 <= i < |proj.packages|
      ensures proj.packages[i].disposition.Actionable?
    {
      LastWriteDecides(orig, idx, entries, PackageSlot(i));
    }
  }

  // ----- Computing the view -----

  /** The classifier overwrites decisions; put the projection's back, package by package. */
  method RestoreDecisions(proj: Snapshot, classified: seq<Refined>) returns (rs: seq<Refined>)
    requires UniquePackages(proj.packages)
    requires |classified| == |proj.packages|
    requires forall i :: 0 <= i < |classified| ==> classified[i] == Classified(proj, proj.packages[i])
    ensures rs == AllRefined(proj)
  {
    rs := classified;
    for i := 0 to |rs|
      invariant |rs| == |proj.packages|
      invariant forall j :: 0 <= j < i ==> rs[j] == RefinedAt(proj, j)
      invariant forall j :: i <= j < |rs| ==> rs[j] == classified[j]
    {
      ClassifiedKeepsIdentity(proj, proj.packages[i]);
      CanonicalKeyIsPackageKey(proj.packages, i);
      var hit := Find(proj.packages, PackageKey(rs[i].entry.name, rs[i].entry.arch));
      assert hit == Some(i);
      var entry := proj.packages[hit.value];
      rs := rs[i := rs[i].(entry := rs[i].entry.(disposition := entry.disposition, locked := entry.locked))];
    }
  }

  /** Write the classified decisions back into the projection through a map keyed by
      `name.arch`. It changes nothing, because the keys are unambiguous and every package is
      actionable. */
  method WriteBack(proj: Snapshot, rs: seq<Refined>) returns (packages: seq<Package>)
    requires UniquePackages(proj.packages) && AllActionable(proj.packages)
    requires rs == AllRefined(proj)
    ensures packages == proj.packages
  {
    var states: map<string, (bool, bool)> := map[];
    for i := 0 to |rs|
      invariant forall j :: 0 <= j < i ==> CanonicalId(proj.packages[j].name, proj.packages[j].arch) in states
      invariant forall j :: 0 <= j < i ==>
                  states[CanonicalId(proj.packages[j].name,
                    proj.packages[j].arch)] == (proj.packages[j].disposition.IsIncluded(), proj.packages[j].locked)
    {
      assert rs[i] == RefinedAt(proj, i);
      forall j | 0 <= j < i
        ensures CanonicalId(proj.packages[j].name, proj.packages[j].arch) != CanonicalId(proj.packages[i].name,
                  proj.packages[i].arch)
      {
        CanonicalKeyIsPackageKey(proj.packages, i);
      }
      states := states[CanonicalId(rs[i].entry.name, rs[i].entry.arch) := (rs[i].entry.disposition.IsIncluded(),
        rs[i].entry.locked)];
    }
    packages := proj.packages;
    for i := 0 to |packages|
      invariant packages == proj.packages
    {
      var key := CanonicalId(packages[i].name, packages[i].arch);
      if key in states {
        var (included, locked) := states[key];
        packages := packages[i := packages[i].(disposition := Actionable(included), locked := locked)];
      }
    }
  }

  method CountRepos(pool: seq<Package>, visible: set<string>) returns (counts: map<RepoId, RepoEffective>)
    ensures forall id :: EffectiveOf(counts, id) == FreshCount(pool, id, visible)
  {
    counts := map[];
    for i := 0 to |pool|
      invariant forall id :: EffectiveOf(counts, id) == FreshCount(pool[..i], id, visible)
    {
      counts := CountPackage(counts, pool[i], visible);
      forall id
        ensures FreshCount(pool[..i + 1], id, visible) == CountStep(FreshCount(pool[..i], id, visible), pool[i], id,
                  visible)
      {
        assert pool[..i + 1][..i] == pool[..i];
      }
    }
    assert pool[..|pool|] == pool;
  }

  method CountPackage(counts0: map<RepoId, RepoEffective>, p: Package, visible: set<string>)
    returns (counts: map<RepoId, RepoEffective>)
    ensures forall id :: EffectiveOf(counts, id) == CountStep(EffectiveOf(counts0, id), p, id, visible)
  {
    if p.sourceRepo == "" {
      return counts0;
    }
    var id := Fold(p.sourceRepo);
    var e := EffectiveOf(counts0, id);
    e := e.(memberCount := e.memberCount + 1);
    if p.disposition.IsIncluded() {
      e := e.(included := e.included + 1);
    }
    if CanonicalId(p.name, p.arch) !in visible {
      e := e.(unlisted := e.unlisted + 1);
    }
    counts := counts0[id := e];
  }

  function CountStep(e: RepoEffective, p: Package, id: RepoId, visible: set<string>): RepoEffective {
    if !CountedIn(id)(p) then e
    else RepoEffective(e.memberCount + 1,
                       e.included + (if p.disposition.IsIncluded() then 1 else 0),
                       e.unlisted + (if CanonicalId(p.name, p.arch) !in visible then 1 else 0))
  }

  method VisibleIds(packages: seq<Refined>) returns (visible: set<string>)
    ensures IsVisibleIds(packages, visible)
  {
    visible := {};
    for i := 0 to |packages|
      invariant forall id :: id in visible <==>
                  exists j :: 0 <= j < i && CanonicalId(packages[j].entry.name, packages[j].entry.arch) == id
    {
      visible := visible + {CanonicalId(packages[i].entry.name, packages[i].entry.arch)};
    }
  }

  method GroupStates(packages: seq<Package>, pool: seq<Package>, entries: seq<Entry>, groups: seq<Group>)
    returns (states: map<string, RenderState>)
    requires pool == Effective(packages)
    ensures AreGroupStates(packages, entries, groups, states)
  {
    states := map[];
    for g := 0 to |groups|
      invariant AreGroupStates(packages, entries, groups[..g], states)
    {
      ghost var before := states;
      var ctx := GroupContext(pool, packages, entries, groups[g]);
      var state := DeriveGroupState(ctx);
      states := states[groups[g].name := state];
      GroupStatesStep(packages, entries, groups, g, before, ctx, state);
    }
    assert groups[..|groups|] == groups;
  }

  lemma GroupStatesStep(packages: seq<Package>, entries: seq<Entry>, groups: seq<Group>, g: nat, before: map<string,
                        RenderState>, ctx: Context, state: RenderState)
    requires g < |groups|
    requires AreGroupStates(packages, entries, groups[..g], before)
    requires IsContextOf(packages, entries, groups[g], ctx) && IsStateOf(ctx, state)
    ensures AreGroupStates(packages, entries, groups[..g + 1], before[groups[g].name := state])
  {
    var less, more := groups[..g], groups[..g + 1];
    var after := before[groups[g].name := state];
    assert more == less + [groups[g]];
    assert IsGroupState(packages, entries, groups[g], state);
    hide IsGroupState, IsContextOf, IsStateOf;
    forall h | IsLastGroup(more, h)
      ensures more[h].name in after && IsGroupState(packages, entries, more[h], after[more[h].name])
    {
      if h < g {
        assert more[g].name != more[h].name;
        LastGroupShrinks(groups, g, h);
      }
    }
    forall name
      ensures name in after <==> NamesGroup(more, name)
    {
      GroupNamesStep(groups, g, name);
    }
  }

  lemma GroupNamesStep(groups: seq<Group>, g: nat, name: string)
    requires g < |groups|
    ensures NamesGroup(groups[..g + 1], name) <==> NamesGroup(groups[..g], name) || groups[g].name == name
  {
    var less, more := groups[..g], groups[..g + 1];
    if NamesGroup(less, name) {
      var h :| 0 <= h < g && less[h].name == name;
      assert more[h].name == name;
    }
    if groups[g].name == name {
      assert more[g].name == name;
    }
    if NamesGroup(more, name) {
      var h :| 0 <= h < g + 1 && more[h].name == name;
      assert h < g ==> less[h].name == name;
    }
  }

  lemma LastGroupShrinks(groups: seq<Group>, g: nat, h: int)
    requires g < |groups| && h < g && IsLastGroup(groups[..g + 1], h)
    ensures IsLastGroup(groups[..g], h)
  {
    assert forall k :: h <= k < g ==> groups[..g][k] == groups[..g + 1][k];
  }

  // ----- The three display filters -----

  method PairsAt(packages: seq<Package>, included: bool) returns (pairs: set<(string, string)>)
    ensures forall n, a :: (n, a) in pairs <==> exists i ::
              0 <= i < |packages| && PackageKey(n, a)(packages[i]) && packages[i].disposition.IsIncluded() == included
  {
    pairs := {};
    for i := 0 to |packages|
      invariant forall n, a :: (n, a) in pairs <==> exists j ::
                0 <= j < i && PackageKey(n, a)(packages[j]) && packages[j].disposition.IsIncluded() == included
    {
      if packages[i].disposition.IsIncluded() == included {
        pairs := pairs + {(packages[i].name, packages[i].arch)};
        assert PackageKey(packages[i].name, packages[i].arch)(packages[i]);
      }
    }
  }

  method UngroupedMembers(groups: seq<Group>, entries: seq<Entry>) returns (names: set<string>)
    ensures forall name :: name in names <==> IsUngroupedMember(groups, entries, name)
  {
    names := {};
    for g := 0 to |groups|
      invariant forall name :: name in names <==> IsUngroupedMember(groups[..g], entries, name)
    {
      assert groups[..g + 1] == groups[..g] + [groups[g]];
      if Types.Ungroup(groups[g].name) in entries {
        names := names + set m | m in groups[g].members;
      }
    }
    assert groups[..|groups|] == groups;
  }

  lemma {:induction false} FilterAgain<T(!new)>(s: seq<T>, p: T -> bool, q: T -> bool, both: T -> bool)
    requires forall x :: x in s ==> (both(x) <==> p(x) && q(x))
    ensures Filter(Filter(s, p), q) == Filter(s, both)
  {
    if s != [] {
      var n := |s| - 1;
      var rest := Filter(s[..n], p);
      FilterAgain(s[..n], p, q, both);
      assert both(s[n]) <==> p(s[n]) && q(s[n]);
      if p(s[n]) {
        assert (rest + [s[n]])[..|rest|] == rest;
      }
    }
  }

  method FilterPackages(orig: Snapshot, entries: seq<Entry>, rs: seq<Refined>) returns (shown: seq<Refined>)
    ensures shown == Filter(rs, Shows(orig, entries))
  {
    var hidden := PairsAt(orig.packages, false);
    var included := PairsAt(orig.packages, true);
    var triage := (r: Refined) =>
      !r.triage.reason.PlatformPlumbing?
      && (r.entry.disposition.IsIncluded() || (r.entry.name, r.entry.arch) !in hidden
        || r.triage.bucket.InvestigateBucket?);
    var baseline := (r: Refined) => PassesBaseline(orig.facts, r);
    var first := Select(rs, triage);
    var second := Select(first, baseline);
    ghost var firstTwo := (r: Refined) => PassesTriage(orig, r) && PassesBaseline(orig.facts, r);
    FilterAgain(rs, triage, baseline, firstTwo);
    if orig.facts.leafPackages.None? {
      FilterSame(rs, firstTwo, Shows(orig, entries));
      return second;
    }
    var dissolved := UngroupedMembers(orig.groups, entries);
    var leaves := orig.facts.leafPackages.value;
    var leaf := (r: Refined) =>
      CanonicalId(r.entry.name, r.entry.arch) in leaves
      || r.triage.bucket.InvestigateBucket?
      || r.entry.disposition.IsIncluded() != ((r.entry.name, r.entry.arch) in included)
      || r.entry.name in dissolved;
    shown := Select(second, leaf);
    FilterAgain(rs, firstTwo, leaf, Shows(orig, entries));
  }

  lemma {:induction false} FilterSame<T(!new)>(s: seq<T>, p: T -> bool, q: T -> bool)
    requires forall x :: x in s ==> p(x) == q(x)
    ensures Filter(s, p) == Filter(s, q)
  {
    if s != [] {
      FilterSame(s[..|s| - 1], p, q);
    }
  }

  method RecomputeView(s: State) returns (v: View)
    requires WellFormed(s)
    ensures IsViewOf(s, v)
  {
    hide IndexFor, AreGroupStates, Classified, Projection, FreshCount, Filter, AllRefined;
    var entries := s.timeline[..s.cursor];
    var projected := Projector.ProjectSnapshot(s.original, s.index, entries);
    ProjectionKeepsPackages(s.original, s.index, entries);
    var classified := ClassifyPackages(projected);
    var all := RestoreDecisions(projected, classified);
    var packages := FilterPackages(s.original, entries, all);
    var written := WriteBack(projected, all);
    var pool := Select(written, IsEffective);
    var visible := VisibleIds(packages);
    var counts := CountRepos(pool, visible);
    var states := GroupStates(written, pool, entries, s.original.groups);
    v := View(packages, counts, states, s.generation, s.cursor, s.cursor > 0, s.cursor < |s.timeline|);
    forall other | IsVisibleIds(packages, other)
      ensures other == visible
    {
    }
  }
}
