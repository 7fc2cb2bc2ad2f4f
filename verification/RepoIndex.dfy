/** The index from repo sections to repo files and GPG keys, built once per session. */
module RepoIndex {
  import opened Types
  import opened Strings

  datatype Provenance = Verified | Incomplete | Disabled | Stale | Unknown

  datatype Index = Index(
    packagesByRepo: map<RepoId, seq<string>>,
    filesBySection: map<RepoId, seq<string>>,
    keysBySection: map<RepoId, seq<string>>,
    sectionsByKey: map<string, set<RepoId>>,
    provenance: map<RepoId, Provenance>)

  // ----- What the index must say, in terms of the repo files alone -----

  /** Some repo file at `path` has a section whose id folds to `id`. */
  ghost predicate Defines(files: seq<RepoFile>, id: RepoId, path: string) {
    exists f, k :: SectionAt(files, f, k) && files[f].path == path && Fold(files[f].sections[k].id) == id
  }

  /** Some section whose id folds to `id` names `key` as a GPG key. */
  ghost predicate References(files: seq<RepoFile>, id: RepoId, key: string) {
    exists f, k :: SectionAt(files, f, k) && Fold(files[f].sections[k].id) == id
      && key in files[f].sections[k].gpgKeyPaths
  }

  ghost predicate SectionAt(files: seq<RepoFile>, f: int, k: int) {
    0 <= f < |files| && 0 <= k < |files[f].sections|
  }

  /** `later` comes after `(f, k)` in reading order. */
  ghost predicate Before(f: int, k: int, f': int, k': int) {
    f < f' || (f == f' && k < k')
  }

  /** The section that decides `id`: the last one in reading order whose id folds to it. */
  ghost predicate Decides(files: seq<RepoFile>, id: RepoId, f: int, k: int) {
    && SectionAt(files, f, k)
    && Fold(files[f].sections[k].id) == id
    && forall f', k' :: SectionAt(files, f', k') && Before(f, k, f', k') ==> Fold(files[f'].sections[k'].id) != id
  }

  ghost predicate Attributed(packages: seq<Package>, id: RepoId, name: string) {
    exists i :: 0 <= i < |packages| && packages[i].name == name && packages[i].sourceRepo != ""
      && Fold(packages[i].sourceRepo) == id
  }

  function SectionProvenance(section: Section, captured: set<string>): Provenance {
    if !section.enabled then Disabled
    else if section.hasSource && forall p :: p in section.gpgKeyPaths ==> p in captured then Verified
    else Incomplete
  }

  function CapturedKeys(keys: seq<GpgKey>): set<string> {
    set i | 0 <= i < |keys| :: keys[i].path
  }

  predicate Lists<K(==), V(==)>(m: map<K, seq<V>>, k: K, v: V) {
    k in m && v in m[k]
  }

  predicate Holds<K(==), V(==)>(m: map<K, set<V>>, k: K, v: V) {
    k in m && v in m[k]
  }

  /** The file maps, the key maps in both directions, and provenance all read off `files`. */
  ghost predicate MapsFor(files: seq<RepoFile>, idx: Index) {
    && (forall id, path :: Lists(idx.filesBySection, id, path) <==> Defines(files, id, path))
    && (forall id, key :: Lists(idx.keysBySection, id, key) <==> References(files, id, key))
    && (forall key, id :: Holds(idx.sectionsByKey, key, id) <==> References(files, id, key))
  }

  ghost predicate ProvenanceFor(snap: Snapshot, idx: Index) {
    && (forall id, f, k :: Decides(snap.repoFiles, id, f, k) ==>
          id in idx.provenance
          && idx.provenance[id] == SectionProvenance(snap.repoFiles[f].sections[k], CapturedKeys(snap.gpgKeys)))
    && (forall id :: id in idx.provenance && (forall f, k :: !Decides(snap.repoFiles, id, f, k)) ==>
          idx.provenance[id] == Stale && exists name :: Attributed(snap.packages, id, name))
    && (forall id, name :: Attributed(snap.packages, id, name) ==> id in idx.provenance)
    && (forall id, name :: Lists(idx.packagesByRepo, id, name) <==> Attributed(snap.packages, id, name))
  }

  ghost predicate IndexFor(snap: Snapshot, idx: Index) {
    MapsFor(snap.repoFiles, idx) && ProvenanceFor(snap, idx)
  }

  /** `provenance` lookup: pseudo ids and ids nobody mentions are unknown. */
  function ProvenanceOf(idx: Index, id: string): Provenance {
    if id == "" || Fold(id) == "@commandline" then Unknown
    else if Fold(id) in idx.provenance then idx.provenance[Fold(id)]
    else Unknown
  }

  // ----- Repos the base image already serves -----

  const DISTRO_REPOS: seq<string> := ["baseos", "appstream", "fedora", "updates", "updates-testing", "extras",
    "anaconda"]

  const OFFICIAL_OPTIONAL_REPOS: seq<string> := ["crb", "codeready-builder", "rhel-extensions"]

  const DISTRO_KEYWORDS: seq<string> := ["baseos", "appstream"]

  /** The keyword's first occurrence stands between dashes or at an end of the id. */
  predicate HasSegment(id: string, keyword: string) {
    var at := IndexOf(id, keyword);
    at.Some?
    && (at.value == 0 || id[at.value - 1] == '-')
    && (at.value + |keyword| == |id| || id[at.value + |keyword|] == '-')
  }

  predicate IsDistroRepo(section: string) {
    var id := Fold(section);
    id in DISTRO_REPOS
    || (id != "" && id != "@commandline" && id !in OFFICIAL_OPTIONAL_REPOS
        && exists k :: k in DISTRO_KEYWORDS && HasSegment(id, k))
  }

  // ----- Building -----

  /** Push onto the list kept under `k`, creating the list on first use. */
  function Push<K(==), V>(m: map<K, seq<V>>, k: K, v: V): map<K, seq<V>> {
    m[k := (if k in m then m[k] else []) + [v]]
  }

  function Insert<K(==), V(==)>(m: map<K, set<V>>, k: K, v: V): map<K, set<V>> {
    m[k := (if k in m then m[k] else {}) + {v}]
  }

  ghost function SectionPairs(path: string, sections: seq<Section>): set<(RepoId, string)> {
    set k | 0 <= k < |sections| :: (Fold(sections[k].id), path)
  }

  ghost function FilePairs(files: seq<RepoFile>): set<(RepoId, string)> {
    if files == [] then {}
    else FilePairs(files[..|files| - 1]) + SectionPairs(files[|files| - 1].path, files[|files| - 1].sections)
  }

  ghost function KeyPairsOf(id: RepoId, keys: seq<string>): set<(RepoId, string)> {
    set k | 0 <= k < |keys| :: (id, keys[k])
  }

  ghost function SectionKeyPairs(sections: seq<Section>): set<(RepoId, string)> {
    if sections == [] then {}
    else
      var last := sections[|sections| - 1];
      SectionKeyPairs(sections[..|sections| - 1]) + KeyPairsOf(Fold(last.id), last.gpgKeyPaths)
  }

  ghost function KeyPairs(files: seq<RepoFile>): set<(RepoId, string)> {
    if files == [] then {}
    else KeyPairs(files[..|files| - 1]) + SectionKeyPairs(files[|files| - 1].sections)
  }

  lemma {:induction false} FilePairsMeaning(files: seq<RepoFile>, id: RepoId, path: string)
    ensures (id, path) in FilePairs(files) <==> Defines(files, id, path)
  {
    if files != [] {
      var n := |files| - 1;
      var init, last := files[..n], files[n];
      FilePairsMeaning(init, id, path);
      if Defines(init, id, path) {
        var f, k :| SectionAt(init, f, k) && init[f].path == path && Fold(init[f].sections[k].id) == id;
        assert SectionAt(files, f, k);
      }
      if (id, path) in SectionPairs(last.path, last.sections) {
        var k :| 0 <= k < |last.sections| && (Fold(last.sections[k].id), last.path) == (id, path);
        assert SectionAt(files, n, k);
      }
      if Defines(files, id, path) {
        var f, k :| SectionAt(files, f, k) && files[f].path == path && Fold(files[f].sections[k].id) == id;
        if f < n {
          assert SectionAt(init, f, k);
        } else {
          assert (Fold(last.sections[k].id), last.path) in SectionPairs(last.path, last.sections);
        }
      }
    }
  }

  lemma {:induction false} SectionKeyPairsMeaning(sections: seq<Section>, id: RepoId, key: string)
    ensures (id, key) in SectionKeyPairs(sections) <==>
            exists k :: 0 <= k < |sections| && Fold(sections[k].id) == id && key in sections[k].gpgKeyPaths
  {
    if sections != [] {
      var n := |sections| - 1;
      SectionKeyPairsMeaning(sections[..n], id, key);
      assert forall k :: 0 <= k < n ==> sections[..n][k] == sections[k];
      if key in sections[n].gpgKeyPaths && Fold(sections[n].id) == id {
        var j :| 0 <= j < |sections[n].gpgKeyPaths| && sections[n].gpgKeyPaths[j] == key;
        assert (id, sections[n].gpgKeyPaths[j]) in KeyPairsOf(id, sections[n].gpgKeyPaths);
      }
    }
  }

  lemma {:induction false} KeyPairsMeaning(files: seq<RepoFile>, id: RepoId, key: string)
    ensures (id, key) in KeyPairs(files) <==> References(files, id, key)
  {
    if files != [] {
      var n := |files| - 1;
      var init, last := files[..n], files[n];
      KeyPairsMeaning(init, id, key);
      SectionKeyPairsMeaning(last.sections, id, key);
      if References(init, id, key) {
        var f, k :| SectionAt(init, f, k) && Fold(init[f].sections[k].id) == id
          && key in init[f].sections[k].gpgKeyPaths;
        assert SectionAt(files, f, k);
      }
      if (id, key) in SectionKeyPairs(last.sections) {
        var k :| 0 <= k < |last.sections| && Fold(last.sections[k].id) == id && key in last.sections[k].gpgKeyPaths;
        assert SectionAt(files, n, k);
      }
      if References(files, id, key) {
        var f, k :| SectionAt(files, f, k) && Fold(files[f].sections[k].id) == id
          && key in files[f].sections[k].gpgKeyPaths;
        if f < n {
          assert SectionAt(init, f, k);
        }
      }
    }
  }

  /** Sections by id after reading `(f, k)` and everything before it: later ones overwrite. */
  ghost predicate DefsUpTo(files: seq<RepoFile>, defs: map<RepoId, (nat, nat)>, f: int, k: int) {
    && (forall id :: id in defs ==>
          && SectionAt(files, defs[id].0, defs[id].1)
          && Before(defs[id].0, defs[id].1, f, k)
          && Fold(files[defs[id].0].sections[defs[id].1].id) == id)
    && (forall f', k' :: SectionAt(files, f', k') && Before(f', k', f, k) ==>
          var id := Fold(files[f'].sections[k'].id);
          id in defs && !Before(defs[id].0, defs[id].1, f', k'))
  }

  method Build(snap: Snapshot) returns (idx: Index)
    ensures IndexFor(snap, idx)
  {
    var files, keys, back, defs := ReadRepoFiles(snap.repoFiles);
    var byRepo := GroupPackages(snap.packages);
    var prov := Provenances(snap, defs, byRepo);
    idx := Index(byRepo, files, keys, back, prov);
    forall id, path
      ensures (id, path) in FilePairs(snap.repoFiles) <==> Defines(snap.repoFiles, id, path)
    {
      FilePairsMeaning(snap.repoFiles, id, path);
    }
    forall id, key
      ensures (id, key) in KeyPairs(snap.repoFiles) <==> References(snap.repoFiles, id, key)
    {
      KeyPairsMeaning(snap.repoFiles, id, key);
    }
    ProvenanceHolds(snap, defs, idx);
  }

  lemma ProvenanceHolds(snap: Snapshot, defs: map<RepoId, (nat, nat)>, idx: Index)
    requires DefsUpTo(snap.repoFiles, defs, |snap.repoFiles|, 0)
    requires forall id, name :: Lists(idx.packagesByRepo, id, name) <==> Attributed(snap.packages, id, name)
    requires forall id :: id in idx.packagesByRepo ==> idx.packagesByRepo[id] != []
    requires forall id :: id in idx.provenance <==> id in defs || id in idx.packagesByRepo
    requires SectionsSettled(snap, defs, idx.provenance)
    requires forall id :: id !in defs && id in idx.provenance ==> idx.provenance[id] == Stale
    ensures ProvenanceFor(snap, idx)
  {
    forall id, f, k | Decides(snap.repoFiles, id, f, k)
      ensures id in idx.provenance
              && idx.provenance[id] == SectionProvenance(snap.repoFiles[f].sections[k], CapturedKeys(snap.gpgKeys))
    {
      DefsDecide(snap.repoFiles, defs, id);
      OneDecides(snap.repoFiles, id, f, k, defs[id].0, defs[id].1);
    }
    forall id | id in idx.provenance && (forall f, k :: !Decides(snap.repoFiles, id, f, k))
      ensures idx.provenance[id] == Stale && exists name :: Attributed(snap.packages, id, name)
    {
      DefsDecide(snap.repoFiles, defs, id);
      assert Lists(idx.packagesByRepo, id, idx.packagesByRepo[id][0]);
    }
    forall id, name | Attributed(snap.packages, id, name)
      ensures id in idx.provenance
    {
      assert Lists(idx.packagesByRepo, id, name);
    }
  }

  ghost predicate ListsExactly(m: map<RepoId, seq<string>>, pairs: set<(RepoId, string)>) {
    forall id, v :: Lists(m, id, v) <==> (id, v) in pairs
  }

  ghost predicate HoldsExactly(m: map<string, set<RepoId>>, pairs: set<(RepoId, string)>) {
    forall v, id :: Holds(m, v, id) <==> (id, v) in pairs
  }

  lemma PushLists(m: map<RepoId, seq<string>>, pairs: set<(RepoId, string)>, id: RepoId, v: string)
    requires ListsExactly(m, pairs)
    ensures ListsExactly(Push(m, id, v), pairs + {(id, v)})
  {
    var m' := Push(m, id, v);
    forall id', v'
      ensures Lists(m', id', v') <==> (id', v') in pairs + {(id, v)}
    {
      assert Lists(m, id', v') <==> (id', v') in pairs;
    }
  }

  lemma InsertHolds(m: map<string, set<RepoId>>, pairs: set<(RepoId, string)>, v: string, id: RepoId)
    requires HoldsExactly(m, pairs)
    ensures HoldsExactly(Insert(m, v, id), pairs + {(id, v)})
  {
    var m' := Insert(m, v, id);
    forall v', id'
      ensures Holds(m', v', id') <==> (id', v') in pairs + {(id, v)}
    {
      assert Holds(m, v', id') <==> (id', v') in pairs;
    }
  }

  method ReadRepoFiles(repoFiles: seq<RepoFile>)
    returns (files: map<RepoId, seq<string>>, keys: map<RepoId, seq<string>>, back: map<string, set<RepoId>>,
      defs: map<RepoId, (nat, nat)>)
    ensures ListsExactly(files, FilePairs(repoFiles))
    ensures ListsExactly(keys, KeyPairs(repoFiles))
    ensures HoldsExactly(back, KeyPairs(repoFiles))
    ensures DefsUpTo(repoFiles, defs, |repoFiles|, 0)
  {
    files, keys, back, defs := map[], map[], map[], map[];
    for f := 0 to |repoFiles|
      invariant ListsExactly(files, FilePairs(repoFiles[..f]))
      invariant ListsExactly(keys, KeyPairs(repoFiles[..f]))
      invariant HoldsExactly(back, KeyPairs(repoFiles[..f]))
      invariant DefsUpTo(repoFiles, defs, f, 0)
    {
      files := ReadPaths(repoFiles[f], files, FilePairs(repoFiles[..f]));
      keys, back := ReadSectionKeys(repoFiles[f].sections, keys, back, KeyPairs(repoFiles[..f]));
      defs := ReadDefs(repoFiles, f, defs);
      assert repoFiles[..f + 1][..f] == repoFiles[..f];
    }
    assert repoFiles[..|repoFiles|] == repoFiles;
  }

  method ReadPaths(file: RepoFile, files0: map<RepoId, seq<string>>, ghost before: set<(RepoId, string)>)
    returns (files: map<RepoId, seq<string>>)
    requires ListsExactly(files0, before)
    ensures ListsExactly(files, before + SectionPairs(file.path, file.sections))
  {
    files := files0;
    ghost var pairs := before;
    for k := 0 to |file.sections|
      invariant pairs == before + SectionPairs(file.path, file.sections[..k])
      invariant ListsExactly(files, pairs)
    {
      var id := Fold(file.sections[k].id);
      PushLists(files, pairs, id, file.path);
      SectionPairsStep(file.path, file.sections, k);
      files, pairs := Push(files, id, file.path), pairs + {(id, file.path)};
    }
    assert file.sections[..|file.sections|] == file.sections;
  }

  method ReadSectionKeys(sections: seq<Section>, keys0: map<RepoId, seq<string>>, back0: map<string, set<RepoId>>,
                         ghost before: set<(RepoId, string)>)
    returns (keys: map<RepoId, seq<string>>, back: map<string, set<RepoId>>)
    requires ListsExactly(keys0, before) && HoldsExactly(back0, before)
    ensures ListsExactly(keys, before + SectionKeyPairs(sections))
    ensures HoldsExactly(back, before + SectionKeyPairs(sections))
  {
    keys, back := keys0, back0;
    ghost var pairs := before;
    for k := 0 to |sections|
      invariant pairs == before + SectionKeyPairs(sections[..k])
      invariant ListsExactly(keys, pairs) && HoldsExactly(back, pairs)
    {
      keys, back := ReadKeys(sections[k], keys, back, pairs);
      pairs := pairs + KeyPairsOf(Fold(sections[k].id), sections[k].gpgKeyPaths);
      assert sections[..k + 1][..k] == sections[..k];
    }
    assert sections[..|sections|] == sections;
  }

  method ReadDefs(repoFiles: seq<RepoFile>, f: nat, defs0: map<RepoId, (nat, nat)>)
    returns (defs: map<RepoId, (nat, nat)>)
    requires f < |repoFiles|
    requires DefsUpTo(repoFiles, defs0, f, 0)
    ensures DefsUpTo(repoFiles, defs, f + 1, 0)
  {
    defs := defs0;
    for k := 0 to |repoFiles[f].sections|
      invariant DefsUpTo(repoFiles, defs, f, k)
    {
      defs := defs[Fold(repoFiles[f].sections[k].id) := (f, k)];
    }
  }

  lemma SectionPairsStep(path: string, sections: seq<Section>, k: nat)
    requires k < |sections|
    ensures SectionPairs(path, sections[..k + 1]) == SectionPairs(path, sections[..k]) + {(Fold(sections[k].id), path)}
  {
    var more, less := sections[..k + 1], sections[..k];
    forall pair | pair in SectionPairs(path, less)
      ensures pair in SectionPairs(path, more)
    {
      var j :| 0 <= j < k && (Fold(less[j].id), path) == pair;
      assert more[j] == less[j];
    }
    forall pair | pair in SectionPairs(path, more)
      ensures pair in SectionPairs(path, less) + {(Fold(sections[k].id), path)}
    {
      var j :| 0 <= j < k + 1 && (Fold(more[j].id), path) == pair;
      if j < k {
        assert less[j] == more[j];
      }
    }
    assert (Fold(more[k].id), path) in SectionPairs(path, more);
  }

  lemma KeyPairsStep(id: RepoId, keys: seq<string>, j: nat)
    requires j < |keys|
    ensures KeyPairsOf(id, keys[..j + 1]) == KeyPairsOf(id, keys[..j]) + {(id, keys[j])}
  {
    var more, less := keys[..j + 1], keys[..j];
    forall pair | pair in KeyPairsOf(id, less)
      ensures pair in KeyPairsOf(id, more)
    {
      var i :| 0 <= i < j && (id, less[i]) == pair;
      assert more[i] == less[i];
    }
    forall pair | pair in KeyPairsOf(id, more)
      ensures pair in KeyPairsOf(id, less) + {(id, keys[j])}
    {
      var i :| 0 <= i < j + 1 && (id, more[i]) == pair;
      if i < j {
        assert less[i] == more[i];
      }
    }
    assert (id, more[j]) in KeyPairsOf(id, more);
  }

  method ReadKeys(section: Section, keys0: map<RepoId, seq<string>>, back0: map<string, set<RepoId>>,
                  ghost before: set<(RepoId, string)>)
    returns (keys: map<RepoId, seq<string>>, back: map<string, set<RepoId>>)
    requires ListsExactly(keys0, before) && HoldsExactly(back0, before)
    ensures ListsExactly(keys, before + KeyPairsOf(Fold(section.id), section.gpgKeyPaths))
    ensures HoldsExactly(back, before + KeyPairsOf(Fold(section.id), section.gpgKeyPaths))
  {
    keys, back := keys0, back0;
    var id := Fold(section.id);
    ghost var pairs := before;
    for j := 0 to |section.gpgKeyPaths|
      invariant pairs == before + KeyPairsOf(id, section.gpgKeyPaths[..j])
      invariant ListsExactly(keys, pairs) && HoldsExactly(back, pairs)
    {
      var key := section.gpgKeyPaths[j];
      PushLists(keys, pairs, id, key);
      InsertHolds(back, pairs, key, id);
      KeyPairsStep(id, section.gpgKeyPaths, j);
      keys, back, pairs := Push(keys, id, key), Insert(back, key, id), pairs + {(id, key)};
    }
    assert section.gpgKeyPaths[..|section.gpgKeyPaths|] == section.gpgKeyPaths;
  }

  method GroupPackages(packages: seq<Package>) returns (byRepo: map<RepoId, seq<string>>)
    ensures forall id, name :: Lists(byRepo, id, name) <==> Attributed(packages, id, name)
    ensures forall id :: id in byRepo ==> byRepo[id] != []
  {
    byRepo := map[];
    for i := 0 to |packages|
      invariant forall id :: id in byRepo ==> byRepo[id] != []
      invariant forall id, name :: Lists(byRepo, id, name) <==> Attributed(packages[..i], id, name)
    {
      var p := packages[i];
      ghost var old0 := byRepo;
      if p.sourceRepo != "" {
        byRepo := Push(byRepo, Fold(p.sourceRepo), p.name);
      }
      forall id, name
        ensures Lists(byRepo, id, name) <==> Attributed(packages[..i + 1], id, name)
      {
        AttributedStep(packages, i, id, name);
      }
    }
    assert packages[..|packages|] == packages;
  }

  lemma AttributedStep(packages: seq<Package>, i: nat, id: RepoId, name: string)
    requires i < |packages|
    ensures Attributed(packages[..i + 1], id, name) <==>
            Attributed(packages[..i], id, name)
            || (packages[i].name == name && packages[i].sourceRepo != "" && Fold(packages[i].sourceRepo) == id)
  {
    var more, less := packages[..i + 1], packages[..i];
    assert more[i] == packages[i];
    if Attributed(less, id, name) {
      var j :| 0 <= j < |less| && less[j].name == name && less[j].sourceRepo != "" && Fold(less[j].sourceRepo) == id;
      assert more[j] == less[j];
    }
    if Attributed(more, id, name) {
      var j :| 0 <= j < |more| && more[j].name == name && more[j].sourceRepo != "" && Fold(more[j].sourceRepo) == id;
      if j < i {
        assert less[j] == more[j];
      }
    }
  }

  lemma DefsDecide(files: seq<RepoFile>, defs: map<RepoId, (nat, nat)>, id: RepoId)
    requires DefsUpTo(files, defs, |files|, 0)
    ensures id in defs ==> Decides(files, id, defs[id].0, defs[id].1)
    ensures id !in defs ==> forall f, k :: !Decides(files, id, f, k)
  {
    if id in defs {
      var f, k := defs[id].0, defs[id].1;
      forall f', k' | SectionAt(files, f', k') && Before(f, k, f', k')
        ensures Fold(files[f'].sections[k'].id) != id
      {
        assert Before(f', k', |files|, 0);
      }
    } else {
      forall f, k
        ensures !Decides(files, id, f, k)
      {
        if SectionAt(files, f, k) {
          assert Before(f, k, |files|, 0);
        }
      }
    }
  }

  lemma OneDecides(files: seq<RepoFile>, id: RepoId, f: int, k: int, f': int, k': int)
    requires Decides(files, id, f, k) && Decides(files, id, f', k')
    ensures f == f' && k == k'
  {
    assert !Before(f, k, f', k') && !Before(f', k', f, k);
  }

  ghost predicate SectionsSettled(snap: Snapshot, defs: map<RepoId, (nat, nat)>, prov: map<RepoId, Provenance>) {
    forall id :: id in prov && id in defs ==>
      SectionAt(snap.repoFiles, defs[id].0, defs[id].1)
      && prov[id] == SectionProvenance(snap.repoFiles[defs[id].0].sections[defs[id].1], CapturedKeys(snap.gpgKeys))
  }

  /** Sections first; then every id only packages mention is stale. */
  method Provenances(snap: Snapshot, defs: map<RepoId, (nat, nat)>, byRepo: map<RepoId, seq<string>>)
    returns (prov: map<RepoId, Provenance>)
    requires DefsUpTo(snap.repoFiles, defs, |snap.repoFiles|, 0)
    ensures forall id :: id in prov <==> id in defs || id in byRepo
    ensures SectionsSettled(snap, defs, prov)
    ensures forall id :: id !in defs && id in prov ==> prov[id] == Stale
  {
    prov := SectionProvenances(snap, defs);
    ghost var fromSections := prov;
    var rest := byRepo.Keys;
    while rest != {}
      invariant rest <= byRepo.Keys
      invariant prov.Keys == defs.Keys + (byRepo.Keys - rest)
      invariant forall id :: id in defs ==> prov[id] == fromSections[id]
      invariant forall id :: id in prov && id !in defs ==> prov[id] == Stale
      decreases rest
    {
      var id :| id in rest;
      if id !in prov {
        prov := prov[id := Stale];
      }
      rest := rest - {id};
    }
  }

  method SectionProvenances(snap: Snapshot, defs: map<RepoId, (nat, nat)>) returns (prov: map<RepoId, Provenance>)
    requires DefsUpTo(snap.repoFiles, defs, |snap.repoFiles|, 0)
    ensures prov.Keys == defs.Keys && SectionsSettled(snap, defs, prov)
  {
    var captured := CapturedKeys(snap.gpgKeys);
    prov := map[];
    var rest := defs.Keys;
    while rest != {}
      invariant rest <= defs.Keys
      invariant prov.Keys == defs.Keys - rest
      invariant SectionsSettled(snap, defs, prov)
      decreases rest
    {
      var id :| id in rest;
      prov := prov[id := SectionProvenance(snap.repoFiles[defs[id].0].sections[defs[id].1], captured)];
      rest := rest - {id};
    }
  }
}
