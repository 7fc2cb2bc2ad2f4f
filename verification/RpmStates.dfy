/** The RPM facts that first-wave collection hands to the second wave. */
module RpmStates {
  import opened Types

  datatype Verified = Verified(path: string, package: Option<string>)

  /** The RPM inspector's section, packages reduced to their names. */
  datatype RpmData = RpmData(packages: seq<string>, verification: seq<Verified>, streams: seq<string>,
    ownership: seq<Ownership>)

  datatype RpmState = RpmState(
    installed: set<string>,
    ownedPaths: set<string>,
    packages: seq<string>,
    verification: seq<Verified>,
    streams: seq<string>,
    pathToPackage: map<string, nat>)

  const NO_RPM_STATE := RpmState({}, {}, [], [], [], map[])

  predicate IsEtc(path: string) {
    "/etc" <= path
  }

  // ----- What extraction computes -----

  /** Where each package name last stands in the list. */
  function PackageIndex(packages: seq<string>): (m: map<string, nat>)
    ensures m.Keys == set p | p in packages
    ensures forall name :: name in m ==> m[name] < |packages| && packages[m[name]] == name
  {
    if packages == [] then map[]
    else
      assert packages == packages[..|packages| - 1] + [packages[|packages| - 1]];
      PackageIndex(packages[..|packages| - 1])[packages[|packages| - 1] := |packages| - 1]
  }

  function Paths(paths: seq<string>): set<string> {
    set p | p in paths
  }

  function EtcPaths(paths: seq<string>): set<string> {
    set p | p in paths && IsEtc(p)
  }

  /** Every key in `keys` now maps to `value`. */
  function Assign<V>(m: map<string, V>, keys: set<string>, value: V): map<string, V> {
    m + (map k | k in keys :: value)
  }

  function OwnedAfter(owners: seq<Ownership>, owned: set<string>): set<string> {
    if owners == [] then owned else OwnedAfter(owners[..|owners| - 1], owned) + EtcPaths(owners[|owners| - 1].paths)
  }

  /** A later entry of an installed package takes its `/etc` paths over. */
  function IndexAfter(owners: seq<Ownership>, index: map<string, nat>, start: map<string, nat>): map<string, nat> {
    if owners == [] then start
    else
      var before, entry := IndexAfter(owners[..|owners| - 1], index, start), owners[|owners| - 1];
      if entry.package in index then Assign(before, EtcPaths(entry.paths), index[entry.package]) else before
  }

  /** The last package said to own each path, installed or not. */
  function OwnerNames(owners: seq<Ownership>): map<string, string> {
    if owners == [] then map[]
    else
      var entry := owners[|owners| - 1];
      Assign(OwnerNames(owners[..|owners| - 1]), Paths(entry.paths), entry.package)
  }

  function Attribute(v: Verified, names: map<string, string>): Verified {
    if v.package.None? && v.path in names then v.(package := Some(names[v.path])) else v
  }

  /** The state after extraction: lists are replaced, owned paths and the path index grow. */
  function Extracted(rpm: RpmData, state: RpmState): RpmState {
    var names := OwnerNames(rpm.ownership);
    RpmState(
      (set p | p in rpm.packages),
      OwnedAfter(rpm.ownership, state.ownedPaths),
      rpm.packages,
      seq(|rpm.verification|, i requires 0 <= i < |rpm.verification| => Attribute(rpm.verification[i], names)),
      rpm.streams,
      IndexAfter(rpm.ownership, PackageIndex(rpm.packages), state.pathToPackage))
  }

  method IndexPackages(packages: seq<string>) returns (index: map<string, nat>)
    ensures index == PackageIndex(packages)
  {
    index := map[];
    for i := 0 to |packages|
      invariant index == PackageIndex(packages[..i])
    {
      index := index[packages[i] := i];
      assert packages[..i + 1][..i] == packages[..i];
    }
    assert packages[..|packages|] == packages;
  }

  /** One ownership entry: every path gets its owner, and `/etc` paths are recorded. */
  method AddOwner(entry: Ownership, index: map<string, nat>, owned0: set<string>, paths0: map<string, nat>,
                  names0: map<string, string>)
    returns (owned: set<string>, paths: map<string, nat>, names: map<string, string>)
    ensures owned == owned0 + EtcPaths(entry.paths)
    ensures paths == if entry.package in index then Assign(paths0, EtcPaths(entry.paths), index[entry.package])
              else paths0
    ensures names == Assign(names0, Paths(entry.paths), entry.package)
  {
    hide Assign, EtcPaths, Paths;
    owned, paths, names := owned0, paths0, names0;
    NothingYet(paths0);
    NothingYet(names0);
    var all := entry.paths;
    for k := 0 to |all|
      invariant owned == owned0 + EtcPaths(all[..k])
      invariant paths == if entry.package in index then Assign(paths0, EtcPaths(all[..k]), index[entry.package])
                  else paths0
      invariant names == Assign(names0, Paths(all[..k]), entry.package)
    {
      var path := all[k];
      OneMorePath(all, k);
      AssignOne(names0, Paths(all[..k]), path, entry.package);
      names := names[path := entry.package];
      if IsEtc(path) {
        owned := owned + {path};
        if entry.package in index {
          AssignOne(paths0, EtcPaths(all[..k]), path, index[entry.package]);
          paths := paths[path := index[entry.package]];
        }
      }
    }
    assert all[..|all|] == all;
  }

  lemma NothingYet<V>(m: map<string, V>)
    ensures EtcPaths([]) == {} && Paths([]) == {} && forall v :: Assign(m, {}, v) == m
  {
  }

  lemma OneMorePath(all: seq<string>, k: nat)
    requires k < |all|
    ensures Paths(all[..k + 1]) == Paths(all[..k]) + {all[k]}
    ensures EtcPaths(all[..k + 1]) == if IsEtc(all[k]) then EtcPaths(all[..k]) + {all[k]} else EtcPaths(all[..k])
  {
    assert all[..k + 1] == all[..k] + [all[k]];
  }

  lemma AssignOne<V>(m: map<string, V>, keys: set<string>, key: string, value: V)
    ensures Assign(m, keys + {key}, value) == Assign(m, keys, value)[key := value]
  {
  }

  method ExtractRpmState(rpm: RpmData, state: RpmState) returns (r: RpmState)
    ensures r == Extracted(rpm, state)
  {
    hide PackageIndex, EtcPaths, Paths, Assign;
    var index := IndexPackages(rpm.packages);
    var owned, paths, names: map<string, string> := state.ownedPaths, state.pathToPackage, map[];
    var owners := rpm.ownership;
    for e := 0 to |owners|
      invariant owned == OwnedAfter(owners[..e], state.ownedPaths)
      invariant paths == IndexAfter(owners[..e], index, state.pathToPackage)
      invariant names == OwnerNames(owners[..e])
    {
      owned, paths, names := AddOwner(owners[e], index, owned, paths, names);
      assert owners[..e + 1][..e] == owners[..e];
    }
    assert owners[..|owners|] == owners;
    var verification := AttributeAll(rpm.verification, names);
    r := RpmState((set p | p in rpm.packages), owned, rpm.packages, verification, rpm.streams, paths);
  }

  method AttributeAll(verification: seq<Verified>, names: map<string, string>) returns (r: seq<Verified>)
    ensures r == seq(|verification|, i requires 0 <= i < |verification| => Attribute(verification[i], names))
  {
    r := verification;
    for i := 0 to |verification|
      invariant |r| == |verification|
      invariant forall j :: 0 <= j < i ==> r[j] == Attribute(verification[j], names)
      invariant forall j :: i <= j < |verification| ==> r[j] == verification[j]
    {
      if r[i].package.None? && r[i].path in names {
        r := r[i := r[i].(package := Some(names[r[i].path]))];
      }
    }
  }

  // ----- What the two lookups say about each other -----

  /** Every indexed path is an owned `/etc` path, and its entry is a listed owner of it. */
  lemma IndexedPathsAreOwned(rpm: RpmData, path: string)
    requires path in Extracted(rpm, NO_RPM_STATE).pathToPackage
    ensures var s := Extracted(rpm, NO_RPM_STATE);
            && IsEtc(path) && path in s.ownedPaths
            && s.pathToPackage[path] < |s.packages|
            && exists e :: 0 <= e < |rpm.ownership| && path in rpm.ownership[e].paths
                           && rpm.ownership[e].package == s.packages[s.pathToPackage[path]]
  {
    var e := OwnerOfIndexed(rpm.ownership, PackageIndex(rpm.packages), path);
  }

  lemma {:induction false} OwnerOfIndexed(owners: seq<Ownership>, index: map<string, nat>, path: string)
    returns (e: nat)
    requires path in IndexAfter(owners, index, map[])
    ensures IsEtc(path) && path in OwnedAfter(owners, {})
    ensures e < |owners| && path in owners[e].paths && owners[e].package in index
    ensures IndexAfter(owners, index, map[])[path] == index[owners[e].package]
  {
    var n := |owners| - 1;
    var entry := owners[n];
    if entry.package in index && path in EtcPaths(entry.paths) {
      e := n;
    } else {
      e := OwnerOfIndexed(owners[..n], index, path);
    }
  }

  /** The path index leads from `path` to a package called `name`. */
  predicate IndexNames(s: RpmState, path: string, name: string) {
    path in s.pathToPackage && s.pathToPackage[path] < |s.packages| && s.packages[s.pathToPackage[path]] == name
  }

  /** For an owned `/etc` path, the path index and the owner written on verification results
      name the same package exactly when that owner is an installed package. */
  lemma OwnersAgree(rpm: RpmData, path: string)
    requires IsEtc(path) && path in OwnerNames(rpm.ownership)
    ensures var s := Extracted(rpm, NO_RPM_STATE);
            var owner := OwnerNames(rpm.ownership)[path];
            IndexNames(s, path, owner) <==> owner in s.installed
  {
    var s := Extracted(rpm, NO_RPM_STATE);
    if path in s.pathToPackage {
      IndexedPathsAreOwned(rpm, path);
    }
    if OwnerNames(rpm.ownership)[path] in s.installed {
      InstalledOwnerIsIndexed(rpm.ownership, PackageIndex(rpm.packages), path);
    }
  }

  lemma {:induction false} InstalledOwnerIsIndexed(owners: seq<Ownership>, index: map<string, nat>, path: string)
    requires IsEtc(path) && path in OwnerNames(owners) && OwnerNames(owners)[path] in index
    ensures path in IndexAfter(owners, index, map[])
    ensures IndexAfter(owners, index, map[])[path] == index[OwnerNames(owners)[path]]
  {
    var n := |owners| - 1;
    var entry := owners[n];
    if path !in entry.paths {
      InstalledOwnerIsIndexed(owners[..n], index, path);
    } else {
      assert path in EtcPaths(entry.paths);
    }
  }

  /** What extraction leaves, in the inspector's own terms: names, packages and streams as listed;
      owned paths are those from before and every listed path under /etc; and a verification result
      without a package gets the one of the last record that lists its path, if any does. */
  lemma ExtractedIsExact(rpm: RpmData, state: RpmState)
    ensures var s := Extracted(rpm, state);
            && s.packages == rpm.packages && s.streams == rpm.streams
            && (forall name :: name in s.installed <==> name in rpm.packages)
            && (forall path :: path in s.ownedPaths <==>
                  path in state.ownedPaths
                  || ("/etc" <= path && exists o :: o in rpm.ownership && path in o.paths))
            && |s.verification| == |rpm.verification|
            && forall i :: 0 <= i < |rpm.verification| ==>
                 var v := rpm.verification[i];
                 && s.verification[i].path == v.path
                 && (v.package.Some? ==> s.verification[i] == v)
                 && (v.package.None? ==>
                       && (forall e :: IsLastListing(rpm.ownership, v.path, e) ==>
                             s.verification[i].package == Some(rpm.ownership[e].package))
                       && ((forall o :: o in rpm.ownership ==> v.path !in o.paths) ==>
                         s.verification[i].package == None))
  {
    hide PackageIndex, IndexAfter;
    forall path
      ensures path in OwnedAfter(rpm.ownership, state.ownedPaths) <==>
                path in state.ownedPaths || ("/etc" <= path && exists o :: o in rpm.ownership && path in o.paths)
    {
      OwnedIsSpelled(rpm.ownership, state.ownedPaths, path);
    }
    forall i | 0 <= i < |rpm.verification|
      ensures var path := rpm.verification[i].path;
              && (forall e :: IsLastListing(rpm.ownership, path, e) ==>
                    path in OwnerNames(rpm.ownership) && OwnerNames(rpm.ownership)[path] == rpm.ownership[e].package)
              && ((forall o :: o in rpm.ownership ==> path !in o.paths) ==> path !in OwnerNames(rpm.ownership))
    {
      OwnerNameIsSpelled(rpm.ownership, rpm.verification[i].path);
    }
  }

  /** Record `e` is the last one that lists the path. */
  ghost predicate IsLastListing(owners: seq<Ownership>, path: string, e: int) {
    0 <= e < |owners| && path in owners[e].paths && forall k :: e < k < |owners| ==> path !in owners[k].paths
  }

  lemma {:induction false} OwnedIsSpelled(owners: seq<Ownership>, owned: set<string>, path: string)
    ensures path in OwnedAfter(owners, owned) <==>
              path in owned || ("/etc" <= path && exists o :: o in owners && path in o.paths)
  {
    if owners != [] {
      var n := |owners| - 1;
      OwnedIsSpelled(owners[..n], owned, path);
      assert owners == owners[..n] + [owners[n]];
    }
  }

  lemma {:induction false} OwnerNameIsSpelled(owners: seq<Ownership>, path: string)
    ensures forall e :: IsLastListing(owners, path, e) ==>
              path in OwnerNames(owners) && OwnerNames(owners)[path] == owners[e].package
    ensures (forall o :: o in owners ==> path !in o.paths) ==> path !in OwnerNames(owners)
  {
    if owners != [] {
      var n := |owners| - 1;
      OwnerNameIsSpelled(owners[..n], path);
      OneMoreOwner(OwnerNames(owners[..n]), owners[n], path);
      hide Assign, Paths;
      assert owners == owners[..n] + [owners[n]];
      forall e | IsLastListing(owners, path, e) && e < n
        ensures IsLastListing(owners[..n], path, e)
      {
      }
    }
  }

  lemma OneMoreOwner(names: map<string, string>, owner: Ownership, path: string)
    ensures var more := Assign(names, Paths(owner.paths), owner.package);
            if path in owner.paths then path in more && more[path] == owner.package
            else (path in more <==> path in names) && (path in names ==> more[path] == names[path])
  {
  }

  /** The path index leads from an /etc path to the last installed package whose record lists it,
      at that package's last place in the list. */
  lemma PathIndexIsExact(rpm: RpmData, path: string, e: int)
    requires IsEtc(path) && 0 <= e < |rpm.ownership| && path in rpm.ownership[e].paths
               && rpm.ownership[e].package in rpm.packages
    requires forall k :: e < k < |rpm.ownership| && path in rpm.ownership[k].paths ==>
               rpm.ownership[k].package !in rpm.packages
    ensures var s := Extracted(rpm, NO_RPM_STATE);
            && path in s.pathToPackage && s.pathToPackage[path] < |rpm.packages|
            && rpm.packages[s.pathToPackage[path]] == rpm.ownership[e].package
            && forall k :: s.pathToPackage[path] < k < |rpm.packages| ==> rpm.packages[k] != rpm.ownership[e].package
  {
    LastInstalledIsIndexed(rpm.ownership, PackageIndex(rpm.packages), path, e);
    LastPlaceIsIndexed(rpm.packages, rpm.ownership[e].package);
  }

  lemma {:induction false} LastInstalledIsIndexed(owners: seq<Ownership>, index: map<string, nat>, path: string, e: int)
    requires IsEtc(path) && 0 <= e < |owners| && path in owners[e].paths && owners[e].package in index
    requires forall k :: e < k < |owners| && path in owners[k].paths ==> owners[k].package !in index
    ensures path in IndexAfter(owners, index, map[])
              && IndexAfter(owners, index, map[])[path] == index[owners[e].package]
  {
    var n := |owners| - 1;
    if e < n {
      assert forall k :: 0 <= k < n ==> owners[..n][k] == owners[k];
      LastInstalledIsIndexed(owners[..n], index, path, e);
    }
  }

  lemma {:induction false} LastPlaceIsIndexed(packages: seq<string>, name: string)
    requires name in packages
    ensures name in PackageIndex(packages)
    ensures forall k :: PackageIndex(packages)[name] < k < |packages| ==> packages[k] != name
  {
    var n := |packages| - 1;
    assert packages == packages[..n] + [packages[n]];
    if packages[n] != name {
      LastPlaceIsIndexed(packages[..n], name);
      assert forall k :: 0 <= k < n ==> packages[..n][k] == packages[k];
    }
  }

  /** Two packages list one file and only the first is installed: the path index leads to the
      first, verification results name the second. */
  lemma OwnersCanDisagree()
    ensures var rpm := RpmData(["a"], [Verified("/etc/f", None)], [],
              [Ownership("a", ["/etc/f"]), Ownership("b", ["/etc/f"])]);
            var s := Extracted(rpm, NO_RPM_STATE);
            IndexNames(s, "/etc/f", "a") && s.verification == [Verified("/etc/f", Some("b"))]
  {
    var first, second := Ownership("a", ["/etc/f"]), Ownership("b", ["/etc/f"]);
    var owners := [first, second];
    assert owners[..1] == [first] && [first][..0] == [];
    assert ["a"][..0] == [];
    assert PackageIndex(["a"])["a"] == 0 && "b" !in PackageIndex(["a"]);
    assert "/etc/f" in EtcPaths(["/etc/f"]) && "/etc/f" in Paths(["/etc/f"]);
    assert IndexAfter([first], PackageIndex(["a"]), map[])["/etc/f"] == 0;
    assert OwnerNames(owners)["/etc/f"] == "b";
  }
}
