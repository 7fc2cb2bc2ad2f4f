/** Uploading an RPM for a package and taking it back, inside any run of the session. */
module Uploads {
  import opened Types
  import opened RepoIndex
  import opened Replay
  import opened ClosedForms
  import opened SessionState
  import opened Views
  import opened Runs

  const NO_CACHE := PriorCache(false, None, None)

  /** What removal gives back for a package whose cache fields started as `c`: the host's
      cached RPM if there was one, and nothing otherwise. */
  function Displaced(c: PriorCache): PriorCache {
    if c.repolessCached then c else NO_CACHE
  }

  function IdOf(p: Package): string {
    CanonicalId(p.name, p.arch)
  }

  /** Package `i` can still be brought back to what its first upload displaced. */
  ghost predicate Restorable(s: State, i: nat, c: PriorCache)
    requires i < |s.original.packages|
  {
    var p := s.original.packages[i];
    if p.uploaded then Restored(s.priorCache, p) == Displaced(c)
    else IdOf(p) !in s.priorCache && (CacheOf(p) == c || CacheOf(p) == Displaced(c))
  }

  lemma UploadKeepsRestorable(s: State, canonical: string, path: string, version: Option<string>, t: State, i: nat,
                              c: PriorCache)
    requires WellFormed(s) && IsSetUploaded(s, canonical, path, version, t)
    requires i < |s.original.packages| && Restorable(s, i, c)
    ensures i < |t.original.packages| && Restorable(t, i, c)
  {
    hide IndexFor;
    var packages := s.original.packages;
    CanonicalKeyIsPackageKey(packages, i);
    var hit := FirstExists(packages, CanonicalKey(canonical));
    if hit.Some? && hit.value != i {
      assert CanonicalKey(canonical)(packages[hit.value]);
      assert IdOf(packages[i]) != canonical;
    }
  }

  lemma RemovalKeepsRestorable(s: State, name: string, arch: string, fileOk: bool, t: State, r: Removal, i: nat,
                               c: PriorCache)
    requires WellFormed(s) && IsUnmark(s, name, arch, fileOk, t, r)
    requires i < |s.original.packages| && Restorable(s, i, c)
    ensures i < |t.original.packages| && Restorable(t, i, c)
    ensures r == Removed && s.original.packages[i].name == name && s.original.packages[i].arch == arch ==>
              CacheOf(t.original.packages[i]) == Displaced(c) && !t.original.packages[i].uploaded
  {
    hide IndexFor;
    var packages := s.original.packages;
    CanonicalKeyIsPackageKey(packages, i);
    var hit := FirstExists(packages, PackageKey(name, arch));
    if hit.Some? && hit.value != i {
      CanonicalKeyIsPackageKey(packages, hit.value);
      assert IdOf(packages[i]) != IdOf(packages[hit.value]);
    }
  }

  lemma StepKeepsRestorable(s: State, cmd: Command, t: State, i: nat, c: PriorCache)
    requires WellFormed(s) && Step(s, cmd, t) && i < |s.original.packages| && Restorable(s, i, c)
    ensures i < |t.original.packages| && Restorable(t, i, c)
  {
    hide IndexFor, UniquePackages, AllActionable;
    match cmd {
      case SetUploaded(id, path, version) =>
        UploadKeepsRestorable(s, id, path, version, t, i, c);
      case UnmarkUploaded(n, a, ok) =>
        var r :| IsUnmark(s, n, a, ok, t, r);
        RemovalKeepsRestorable(s, n, a, ok, t, r, i, c);
      case _ =>
        SameUploads(s, cmd, t);
    }
  }

  lemma SameUploads(s: State, cmd: Command, t: State)
    requires s.cursor <= |s.timeline| && Step(s, cmd, t) && !cmd.SetUploaded? && !cmd.UnmarkUploaded?
    ensures t.original == s.original && t.priorCache == s.priorCache
  {
  }

  /** Through any run of any calls, uploads and removals of any packages included, a package
      that was not uploaded at the start either carries an upload that removal will exchange
      for the displaced fields, or carries its starting or its displaced fields. */
  lemma {:induction false} RunKeepsRestorable(states: seq<State>, cmds: seq<Command>, n: nat, i: nat)
    requires IsRun(states, cmds) && WellFormed(states[0]) && n < |states|
    requires i < |states[0].original.packages|
    requires !states[0].original.packages[i].uploaded && IdOf(states[0].original.packages[i]) !in states[0].priorCache
    ensures i < |states[n].original.packages|
    ensures Restorable(states[n], i, CacheOf(states[0].original.packages[i]))
  {
    hide Step, WellFormed;
    if n > 0 {
      RunKeepsRestorable(states, cmds, n - 1, i);
      RunStaysWellFormed(states, cmds, n - 1);
      StepKeepsRestorable(states[n - 1], cmds[n - 1], states[n], i, CacheOf(states[0].original.packages[i]));
    }
  }

  /** The lifecycle: when a package not uploaded at the start of a run is later removed with
      success, its cache fields are exactly those from before its first upload if and only if
      the host had cached its RPM or its cache fields were empty. */
  lemma UploadsAreUndone(states: seq<State>, cmds: seq<Command>, n: nat, i: nat, fileOk: bool)
    requires IsRun(states, cmds) && WellFormed(states[0]) && n < |cmds|
    requires i < |states[0].original.packages|
    requires !states[0].original.packages[i].uploaded && IdOf(states[0].original.packages[i]) !in states[0].priorCache
    requires cmds[n] == UnmarkUploaded(states[0].original.packages[i].name, states[0].original.packages[i].arch, fileOk)
    requires states[n + 1] != states[n]
    ensures i < |states[n + 1].original.packages| && !states[n + 1].original.packages[i].uploaded
    ensures var before := CacheOf(states[0].original.packages[i]);
            CacheOf(states[n + 1].original.packages[i]) == before <==> before.repolessCached || before == NO_CACHE
  {
    hide WellFormed, Restorable;
    var p := states[0].original.packages[i];
    RunKeepsRestorable(states, cmds, n, i);
    RunStaysWellFormed(states, cmds, n);
    RunKeepsOriginal(states, cmds, n);
    assert SameButCache(p, states[n].original.packages[i]);
    var r :| IsUnmark(states[n], p.name, p.arch, fileOk, states[n + 1], r);
    RemovedIfChanged(states[n], p.name, p.arch, fileOk, states[n + 1], r);
    RemovalKeepsRestorable(states[n], p.name, p.arch, fileOk, states[n + 1], r, i, CacheOf(p));
  }

  lemma RemovedIfChanged(s: State, name: string, arch: string, fileOk: bool, t: State, r: Removal)
    requires IsUnmark(s, name, arch, fileOk, t, r) && t != s
    ensures r == Removed
  {
    var hit := FirstExists(s.original.packages, PackageKey(name, arch));
  }

  // ----- The displaced-cache record -----

  ghost predicate IsUploadedId(packages: seq<Package>, id: string) {
    exists i :: 0 <= i < |packages| && packages[i].uploaded && IdOf(packages[i]) == id
  }

  /** A package that is not cached but carries a cache path loses it to an upload and its
      removal. */
  lemma UploadCanLoseCache() returns (states: seq<State>)
    ensures IsRun(states, [SetUploaded("a.x86_64", "/up/a.rpm", None), UnmarkUploaded("a", "x86_64", true)])
    ensures WellFormed(states[0]) && states[0].priorCache == map[] && states[0].original.packages == [StrayCache()]
    ensures states[2].original.packages == [WithCache(StrayCache(), NO_CACHE, false)]
              && NO_CACHE != CacheOf(StrayCache())
  {
    hide WellFormed, IsSetUploaded, IsUnmark;
    var p, uploaded := StrayCache(), Uploaded(StrayCache(), "/up/a.rpm", None);
    var s := LoneState(p);
    var t := WithPackages(s, [uploaded], map[]);
    var u := WithPackages(t, [WithCache(uploaded, NO_CACHE, false)], map[]);
    states := [s, t, u];
    LoneIsWellFormed(p);
    assert CanonicalId(p.name, p.arch) == "a.x86_64";
    LoneUpload(s, p, "/up/a.rpm");
    LoneRemoval(t, uploaded);
    assert Step(s, SetUploaded("a.x86_64", "/up/a.rpm", None), t);
    assert Step(t, UnmarkUploaded("a", "x86_64", true), u);
  }

  lemma LoneUpload(s: State, p: Package, path: string)
    requires s.original.packages == [p] && s.priorCache == map[] && !p.repolessCached
    ensures IsSetUploaded(s, CanonicalId(p.name, p.arch), path, None, WithPackages(s, [Uploaded(p, path, None)], map[]))
  {
    assert [p][0 := Uploaded(p, path, None)] == [Uploaded(p, path, None)];
  }

  lemma LoneRemoval(t: State, p: Package)
    requires t.original.packages == [p] && t.priorCache == map[] && p.uploaded
    ensures IsUnmark(t, p.name, p.arch, true, WithPackages(t, [WithCache(p, NO_CACHE, false)], map[]), Removed)
  {
    var key := PackageKey(p.name, p.arch);
    assert IsFirst(t.original.packages, key, 0);
    assert [p][0 := WithCache(p, NO_CACHE, false)] == [WithCache(p, NO_CACHE, false)];
    assert t.priorCache - {CanonicalId(p.name, p.arch)} == t.priorCache;
  }

  /** A fresh session of one package that no repo claims. */
  function LoneState(p: Package): State {
    var facts := Facts(None, {}, [], [], None, map[], false, false, {}, {}, {});
    State(Snapshot([p], [], [], [], [], [], [], facts), Index(map[], map[], map[], map[], map[]), [], 0, 0, map[])
  }

  lemma LoneIsWellFormed(p: Package)
    requires p.disposition.Actionable? && '.' !in p.arch && p.sourceRepo == ""
    ensures WellFormed(LoneState(p))
  {
  }

  function StrayCache(): Package {
    Package("a", "1", "1", "x86_64", NoRepo, Actionable(false), false, "", "no repo", false, false,
      Some("/var/cache/a.rpm"), None, None)
  }

  /** A displaced cache is remembered only while its package is uploaded. */
  ghost predicate RemembersUploadsOnly(s: State) {
    forall id :: id in s.priorCache ==> IsUploadedId(s.original.packages, id)
  }

  lemma UploadRemembers(s: State, canonical: string, path: string, version: Option<string>, t: State)
    requires IsSetUploaded(s, canonical, path, version, t) && RemembersUploadsOnly(s)
    ensures RemembersUploadsOnly(t)
  {
    var packages := s.original.packages;
    var hit := FirstExists(packages, CanonicalKey(canonical));
    forall id | id in t.priorCache
      ensures IsUploadedId(t.original.packages, id)
    {
      if hit.Some? && id == canonical {
        assert CanonicalKey(canonical)(packages[hit.value]);
        assert t.original.packages[hit.value].uploaded;
      } else {
        var i :| 0 <= i < |packages| && packages[i].uploaded && IdOf(packages[i]) == id;
        assert t.original.packages[i].uploaded;
      }
    }
  }

  lemma RemovalRemembers(s: State, name: string, arch: string, fileOk: bool, t: State, r: Removal)
    requires WellFormed(s) && IsUnmark(s, name, arch, fileOk, t, r) && RemembersUploadsOnly(s)
    ensures RemembersUploadsOnly(t)
  {
    hide IndexFor;
    var packages := s.original.packages;
    var hit := FirstExists(packages, PackageKey(name, arch));
    forall id | id in t.priorCache
      ensures IsUploadedId(t.original.packages, id)
    {
      var i :| 0 <= i < |packages| && packages[i].uploaded && IdOf(packages[i]) == id;
      assert t.original.packages[i].uploaded && IdOf(t.original.packages[i]) == id;
    }
  }

  lemma {:induction false} RunRemembersUploadsOnly(states: seq<State>, cmds: seq<Command>, n: nat)
    requires IsRun(states, cmds) && WellFormed(states[0]) && states[0].priorCache == map[] && n < |states|
    ensures RemembersUploadsOnly(states[n])
  {
    hide WellFormed, RemembersUploadsOnly;
    if n == 0 {
      NothingRemembered(states[0]);
    } else {
      RunRemembersUploadsOnly(states, cmds, n - 1);
      RunStaysWellFormed(states, cmds, n - 1);
      var s, t := states[n - 1], states[n];
      match cmds[n - 1] {
        case SetUploaded(id, path, version) =>
          UploadRemembers(s, id, path, version, t);
        case UnmarkUploaded(name, a, ok) =>
          var r :| IsUnmark(s, name, a, ok, t, r);
          RemovalRemembers(s, name, a, ok, t, r);
        case _ =>
          SameUploads(s, cmds[n - 1], t);
          SameRemembers(s, t);
      }
    }
  }

  lemma NothingRemembered(s: State)
    requires s.priorCache == map[]
    ensures RemembersUploadsOnly(s)
  {
  }

  lemma SameRemembers(s: State, t: State)
    requires RemembersUploadsOnly(s) && t.original == s.original && t.priorCache == s.priorCache
    ensures RemembersUploadsOnly(t)
  {
  }

  // ----- Uploads and decisions do not meet -----

  lemma WritesIgnoreCache(a: Snapshot, b: Snapshot, idx: Index, excluded: set<RepoId>, op: Op, slot: Slot)
    requires SameOriginal(a, b) && HasSlot(a, slot)
    ensures WriteOf(a, idx, excluded, op, slot) == WriteOf(b, idx, excluded, op, slot)
  {
    SameOriginalSameLocks(a, b, op.item);
    if slot.PackageSlot? {
      assert SameButCache(a.packages[slot.i], b.packages[slot.i]);
      if op.item.PackageItem? {
        var key := PackageKey(op.item.name, op.item.arch);
        assert forall j :: 0 <= j < |a.packages| ==> key(a.packages[j]) == key(b.packages[j]);
        assert IsFirst(a.packages, key, slot.i) <==> IsFirst(b.packages, key, slot.i);
      }
    }
  }

  /** Uploads commute with the timeline: an upload or a removal changes no projected include
      and no lock, in any slot, for any timeline. */
  lemma UploadsKeepDecisions(a: Snapshot, b: Snapshot, idx: Index, entries: seq<Entry>, slot: Slot)
    requires SameOriginal(a, b) && HasSlot(a, slot)
    ensures HasSlot(b, slot) && Locked(a, slot) == Locked(b, slot)
    ensures Disposition(Projection(a, idx, entries), slot) == Disposition(Projection(b, idx, entries), slot)
  {
    hide Projection, WriteOf, SameFrame;
    if slot.PackageSlot? {
      assert SameButCache(a.packages[slot.i], b.packages[slot.i]);
    }
    LastWriteDecides(a, idx, entries, slot);
    LastWriteDecides(b, idx, entries, slot);
    forall e, op
      ensures WriteOf(a, idx, e, op, slot) == WriteOf(b, idx, e, op, slot)
    {
      WritesIgnoreCache(a, b, idx, e, op, slot);
    }
    assert ActiveWrites(a, idx, entries, slot) == ActiveWrites(b, idx, entries, slot);
  }
}
