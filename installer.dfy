/**
 * The dependency table the module installer builds from the releases
 * already installed: for each module name, the versions present and who
 * requires it.
 */
module Installer {
  import opened Wrappers

  /** One entry of a release's `dependencies`: a module name and its version requirement, if any. */
  datatype Dependency = Dependency(name: string, requirement: Option<string>)

  /**
   * An installed module as the table sees it: its metadata name, its
   * version (`None` for a module that has none, which Ruby reads as nil)
   * and its dependencies.
   */
  datatype Release = Release(name: string, version: Option<string>, dependencies: seq<Dependency>)

  /** One `:required_by` item: `"<name>@<version>"` of the requiring release, and its requirement. */
  datatype Requirer = Requirer(release: string, requirement: Option<string>)

  /** The inner hash of a key: `:versions` (which may hold nil) and `:required_by`, each absent until first set. */
  datatype Entry = Entry(versions: Option<seq<Option<string>>>, requiredBy: Option<seq<Requirer>>)

  type Deps = map<string, Entry>

  /** Ruby's `s.gsub('/', '-')`. */
  function DashName(s: string): (r: string)
    ensures |r| == |s|
    ensures forall i :: 0 <= i < |s| ==> r[i] == if s[i] == '/' then '-' else s[i]
  {
    if s == [] then [] else [if s[0] == '/' then '-' else s[0]] + DashName(s[1..])
  }

  /** A dependency key holds no `/`, and dashing it again leaves it as it is. */
  lemma DashNameNoSlash(s: string)
    ensures forall i :: 0 <= i < |DashName(s)| ==> DashName(s)[i] != '/'
    ensures DashName(DashName(s)) == DashName(s)
  {
  }

  /** The `"<name>@<version>"` label of a release; a nil version interpolates as nothing. */
  function Label(m: Release): string {
    m.name + "@" + m.version.GetOr("")
  }

  /** `deps[k] ||= {}` as read back: a missing key reads as an empty inner hash. */
  function Get(d: Deps, k: string): Entry {
    if k in d then d[k] else Entry(None, None)
  }

  /** One release's own entry: its version goes last in `:versions`, and `:required_by` is made to exist. */
  function AddRelease(d: Deps, m: Release): Deps {
    var e := Get(d, m.name);
    d[m.name := Entry(Some(e.versions.GetOr([]) + [m.version]), Some(e.requiredBy.GetOr([])))]
  }

  /** One dependency of `m`: its dashed key gains `m`'s label and the requirement at the end of `:required_by`. */
  function AddDependency(d: Deps, m: Release, dep: Dependency): Deps {
    var k := DashName(dep.name);
    var e := Get(d, k);
    d[k := e.(requiredBy := Some(e.requiredBy.GetOr([]) + [Requirer(Label(m), dep.requirement)]))]
  }

  function AddDependencies(d: Deps, m: Release, ds: seq<Dependency>): Deps {
    if ds == [] then d else AddDependency(AddDependencies(d, m, ds[..|ds| - 1]), m, ds[|ds| - 1])
  }

  /** The table after the releases `mods` have been visited in order. */
  function LocalDepsOf(mods: seq<Release>): Deps {
    if mods == [] then map[]
    else
      var m := mods[|mods| - 1];
      AddDependencies(AddRelease(LocalDepsOf(mods[..|mods| - 1]), m), m, m.dependencies)
  }

  /** `Installer#local_deps`. */
  method LocalDeps(mods: seq<Release>) returns (deps: Deps)
    ensures deps == LocalDepsOf(mods)
  {
    deps := map[];
    var i := 0;
    while i < |mods|
      invariant 0 <= i <= |mods|
      invariant deps == LocalDepsOf(mods[..i])
    {
      var m := mods[i];
      assert mods[..i + 1][..i] == mods[..i];
      var before := deps;
      if m.name !in deps {
        deps := deps[m.name := Entry(None, None)];
      }
      if deps[m.name].versions.None? {
        deps := deps[m.name := deps[m.name].(versions := Some([]))];
      }
      deps := deps[m.name := deps[m.name].(versions := Some(deps[m.name].versions.value + [m.version]))];
      if deps[m.name].requiredBy.None? {
        deps := deps[m.name := deps[m.name].(requiredBy := Some([]))];
      }
      assert deps == AddRelease(before, m);
      deps := AddDeps(deps, m);
      i := i + 1;
    }
    assert mods[..|mods|] == mods;
  }

  /** The inner loop over one release's dependencies. */
  method AddDeps(d: Deps, m: Release) returns (deps: Deps)
    ensures deps == AddDependencies(d, m, m.dependencies)
  {
    deps := d;
    var j := 0;
    var ds := m.dependencies;
    while j < |ds|
      invariant 0 <= j <= |ds|
      invariant deps == AddDependencies(d, m, ds[..j])
    {
      var dep := ds[j];
      assert ds[..j + 1][..j] == ds[..j];
      var before := deps;
      var key := DashName(dep.name);
      if key !in deps {
        deps := deps[key := Entry(None, None)];
      }
      if deps[key].requiredBy.None? {
        deps := deps[key := deps[key].(requiredBy := Some([]))];
      }
      deps := deps[key := deps[key].(requiredBy := Some(deps[key].requiredBy.value + [Requirer(Label(m), dep.requirement)]))];
      assert deps == AddDependency(before, m, dep);
      j := j + 1;
    }
    assert ds[..|ds|] == ds;
  }

  // Reference definitions, read straight off the releases.

  /** The versions of the releases named `n`, in the order visited. */
  function VersionsFor(mods: seq<Release>, n: string): seq<Option<string>> {
    if mods == [] then []
    else VersionsFor(mods[..|mods| - 1], n) + (if mods[|mods| - 1].name == n then [mods[|mods| - 1].version] else [])
  }

  /** What the dependencies `ds` of `m` whose dashed name is `k` contribute to `k`'s `:required_by`. */
  function RequirersIn(m: Release, ds: seq<Dependency>, k: string): seq<Requirer> {
    if ds == [] then []
    else
      RequirersIn(m, ds[..|ds| - 1], k) +
      (if DashName(ds[|ds| - 1].name) == k then [Requirer(Label(m), ds[|ds| - 1].requirement)] else [])
  }

  /** Every requirement on key `k`, over all releases in order. */
  function RequiredFor(mods: seq<Release>, k: string): seq<Requirer> {
    if mods == [] then []
    else RequiredFor(mods[..|mods| - 1], k) + RequirersIn(mods[|mods| - 1], mods[|mods| - 1].dependencies, k)
  }

  lemma {:induction false} AddDependenciesAt(d: Deps, m: Release, ds: seq<Dependency>, k: string)
    ensures k in AddDependencies(d, m, ds) <==> k in d || RequirersIn(m, ds, k) != []
    ensures Get(AddDependencies(d, m, ds), k).versions == Get(d, k).versions
    ensures RequirersIn(m, ds, k) != [] ==>
      Get(AddDependencies(d, m, ds), k).requiredBy == Some(Get(d, k).requiredBy.GetOr([]) + RequirersIn(m, ds, k))
    ensures RequirersIn(m, ds, k) == [] ==> Get(AddDependencies(d, m, ds), k) == Get(d, k)
  {
    if ds != [] {
      var init := ds[..|ds| - 1];
      AddDependenciesAt(d, m, init, k);
      var dd := AddDependencies(d, m, init);
      var e := Get(dd, k);
      var last := ds[|ds| - 1];
      assert AddDependencies(d, m, ds) == AddDependency(dd, m, last);
      if DashName(last.name) == k {
        var r := Requirer(Label(m), last.requirement);
        assert Get(AddDependency(dd, m, last), k) == e.(requiredBy := Some(e.requiredBy.GetOr([]) + [r]));
        assert RequirersIn(m, ds, k) == RequirersIn(m, init, k) + [r];
        if RequirersIn(m, init, k) == [] {
          assert e == Get(d, k);
          assert RequirersIn(m, ds, k) == [r];
        } else {
          assert e.requiredBy.GetOr([]) == Get(d, k).requiredBy.GetOr([]) + RequirersIn(m, init, k);
          assert e.requiredBy.GetOr([]) + [r] == Get(d, k).requiredBy.GetOr([]) + (RequirersIn(m, init, k) + [r]);
        }
      } else {
        assert Get(AddDependency(dd, m, last), k) == e;
        assert RequirersIn(m, ds, k) == RequirersIn(m, init, k);
      }
    }
  }

  /**
   * The table the loops build, key by key: a key is present exactly when
   * some release is named by it or some dependency's dashed name is it;
   * its `:versions` are that name's release versions in visiting order, or
   * absent when no release has the name; its `:required_by` always exists
   * and lists every requirement on it, in visiting order.
   */
  lemma {:induction false} LocalDepsAt(mods: seq<Release>, k: string)
    ensures k in LocalDepsOf(mods) <==> VersionsFor(mods, k) != [] || RequiredFor(mods, k) != []
    ensures Get(LocalDepsOf(mods), k).versions == if VersionsFor(mods, k) == [] then None else Some(VersionsFor(mods, k))
    ensures k in LocalDepsOf(mods) ==> Get(LocalDepsOf(mods), k).requiredBy == Some(RequiredFor(mods, k))
  {
    if mods != [] {
      var init := mods[..|mods| - 1];
      var m := mods[|mods| - 1];
      var before := LocalDepsOf(init);
      var d := AddRelease(before, m);
      LocalDepsAt(init, k);
      AddDependenciesAt(d, m, m.dependencies, k);
      assert VersionsFor(mods, k) == VersionsFor(init, k) + (if m.name == k then [m.version] else []);
      assert RequiredFor(mods, k) == RequiredFor(init, k) + RequirersIn(m, m.dependencies, k);
      assert Get(before, k).requiredBy.GetOr([]) == RequiredFor(init, k);
      if m.name == k {
        assert Get(before, k).versions.GetOr([]) == VersionsFor(init, k);
        assert Get(d, k) == Entry(Some(VersionsFor(mods, k)), Some(RequiredFor(init, k)));
      } else {
        assert Get(d, k) == Get(before, k);
        assert k in d <==> k in before;
        assert VersionsFor(mods, k) == VersionsFor(init, k);
      }
      if RequirersIn(m, m.dependencies, k) == [] {
        assert RequiredFor(mods, k) == RequiredFor(init, k);
      }
    }
  }

  /** Every release's version is recorded under its name, whose `:required_by` exists, possibly empty. */
  lemma ReleaseRecorded(mods: seq<Release>, i: nat)
    requires i < |mods|
    ensures mods[i].name in LocalDepsOf(mods)
    ensures Get(LocalDepsOf(mods), mods[i].name).versions.Some?
    ensures mods[i].version in Get(LocalDepsOf(mods), mods[i].name).versions.value
    ensures Get(LocalDepsOf(mods), mods[i].name).requiredBy.Some?
  {
    VersionsForHas(mods, i);
    LocalDepsAt(mods, mods[i].name);
  }

  lemma {:induction false} VersionsForHas(mods: seq<Release>, i: nat)
    requires i < |mods|
    ensures mods[i].version in VersionsFor(mods, mods[i].name)
  {
    if i < |mods| - 1 {
      VersionsForHas(mods[..|mods| - 1], i);
    }
  }

  /** A release without a version puts nil into `:versions`, and its requirements are labelled `"<name>@"`. */
  lemma MissingVersion(mods: seq<Release>, i: nat)
    requires i < |mods| && mods[i].version.None?
    ensures Get(LocalDepsOf(mods), mods[i].name).versions.Some?
    ensures None in Get(LocalDepsOf(mods), mods[i].name).versions.value
    ensures Label(mods[i]) == mods[i].name + "@"
  {
    ReleaseRecorded(mods, i);
  }

  /** A key that only dependencies name has a `:required_by` list and no `:versions`. */
  lemma DependencyOnlyKey(mods: seq<Release>, k: string)
    requires forall i :: 0 <= i < |mods| ==> mods[i].name != k
    requires k in LocalDepsOf(mods)
    ensures Get(LocalDepsOf(mods), k).versions.None?
    ensures Get(LocalDepsOf(mods), k).requiredBy.Some?
  {
    VersionsForNone(mods, k);
    LocalDepsAt(mods, k);
  }

  lemma {:induction false} VersionsForNone(mods: seq<Release>, n: string)
    requires forall i :: 0 <= i < |mods| ==> mods[i].name != n
    ensures VersionsFor(mods, n) == []
  {
    if mods != [] {
      VersionsForNone(mods[..|mods| - 1], n);
    }
  }

  // Counting: every declared dependency yields exactly one `:required_by` item.

  /** The number of dependencies declared over all releases. */
  function TotalDependencies(mods: seq<Release>): nat {
    if mods == [] then 0 else TotalDependencies(mods[..|mods| - 1]) + |mods[|mods| - 1].dependencies|
  }

  /** The `:required_by` items of the keys `ks` of `d`, counted. */
  function RequiredByCount(d: Deps, ks: seq<string>): nat {
    if ks == [] then 0 else |Get(d, ks[0]).requiredBy.GetOr([])| + RequiredByCount(d, ks[1..])
  }

  function SumRequired(mods: seq<Release>, ks: seq<string>): nat {
    if ks == [] then 0 else |RequiredFor(mods, ks[0])| + SumRequired(mods, ks[1..])
  }

  function SumRequirers(m: Release, ds: seq<Dependency>, ks: seq<string>): nat {
    if ks == [] then 0 else |RequirersIn(m, ds, ks[0])| + SumRequirers(m, ds, ks[1..])
  }

  function Occurrences(ks: seq<string>, x: string): nat {
    if ks == [] then 0 else (if ks[0] == x then 1 else 0) + Occurrences(ks[1..], x)
  }

  predicate Distinct(ks: seq<string>) {
    forall i, j :: 0 <= i < j < |ks| ==> ks[i] != ks[j]
  }

  lemma {:induction false} OccursOnce(ks: seq<string>, x: string)
    requires Distinct(ks) && x in ks
    ensures Occurrences(ks, x) == 1
  {
    if ks[0] == x {
      OccursNot(ks[1..], x);
    } else {
      OccursOnce(ks[1..], x);
    }
  }

  lemma {:induction false} OccursNot(ks: seq<string>, x: string)
    requires x !in ks
    ensures Occurrences(ks, x) == 0
  {
    if ks != [] {
      OccursNot(ks[1..], x);
    }
  }

  lemma {:induction false} SumRequirersSnoc(m: Release, ds: seq<Dependency>, d: Dependency, ks: seq<string>)
    ensures SumRequirers(m, ds + [d], ks) == SumRequirers(m, ds, ks) + Occurrences(ks, DashName(d.name))
  {
    if ks != [] {
      assert (ds + [d])[..|ds + [d]| - 1] == ds;
      SumRequirersSnoc(m, ds, d, ks[1..]);
    }
  }

  /** Summed over keys that list each dependency's key exactly once, one release's dependencies give one item each. */
  lemma {:induction false} SumRequirersAll(m: Release, ds: seq<Dependency>, ks: seq<string>)
    requires Distinct(ks)
    requires forall i :: 0 <= i < |ds| ==> DashName(ds[i].name) in ks
    ensures SumRequirers(m, ds, ks) == |ds|
  {
    if ds == [] {
      SumRequirersEmpty(m, ks);
    } else {
      var init := ds[..|ds| - 1];
      SumRequirersAll(m, init, ks);
      SumRequirersSnoc(m, init, ds[|ds| - 1], ks);
      assert init + [ds[|ds| - 1]] == ds;
      OccursOnce(ks, DashName(ds[|ds| - 1].name));
    }
  }

  lemma {:induction false} SumRequirersEmpty(m: Release, ks: seq<string>)
    ensures SumRequirers(m, [], ks) == 0
  {
    if ks != [] {
      SumRequirersEmpty(m, ks[1..]);
    }
  }

  lemma {:induction false} SumRequiredSnoc(mods: seq<Release>, ks: seq<string>)
    requires mods != []
    ensures SumRequired(mods, ks) ==
      SumRequired(mods[..|mods| - 1], ks) + SumRequirers(mods[|mods| - 1], mods[|mods| - 1].dependencies, ks)
  {
    if ks != [] {
      SumRequiredSnoc(mods, ks[1..]);
    }
  }

  lemma {:induction false} SumRequiredEmpty(ks: seq<string>)
    ensures SumRequired([], ks) == 0
  {
    if ks != [] {
      SumRequiredEmpty(ks[1..]);
    }
  }

  /** Every dependency key of every release is among `ks`. */
  predicate CoversDependencies(mods: seq<Release>, ks: seq<string>) {
    forall i, j :: 0 <= i < |mods| && 0 <= j < |mods[i].dependencies| ==> DashName(mods[i].dependencies[j].name) in ks
  }

  lemma {:induction false} SumRequiredTotal(mods: seq<Release>, ks: seq<string>)
    requires Distinct(ks) && CoversDependencies(mods, ks)
    ensures SumRequired(mods, ks) == TotalDependencies(mods)
  {
    if mods == [] {
      SumRequiredEmpty(ks);
    } else {
      var init := mods[..|mods| - 1];
      var m := mods[|mods| - 1];
      assert CoversDependencies(init, ks) by {
        forall i, j | 0 <= i < |init| && 0 <= j < |init[i].dependencies|
          ensures DashName(init[i].dependencies[j].name) in ks
        {
          assert init[i] == mods[i];
        }
      }
      SumRequiredTotal(init, ks);
      SumRequiredSnoc(mods, ks);
      assert forall j :: 0 <= j < |m.dependencies| ==> DashName(m.dependencies[j].name) in ks by {
        forall j | 0 <= j < |m.dependencies| ensures DashName(m.dependencies[j].name) in ks {
          assert mods[|mods| - 1] == m;
        }
      }
      SumRequirersAll(m, m.dependencies, ks);
    }
  }

  lemma {:induction false} RequiredByCountIsSum(mods: seq<Release>, ks: seq<string>)
    requires forall i :: 0 <= i < |ks| ==> ks[i] in LocalDepsOf(mods)
    ensures RequiredByCount(LocalDepsOf(mods), ks) == SumRequired(mods, ks)
  {
    if ks != [] {
      LocalDepsAt(mods, ks[0]);
      RequiredByCountIsSum(mods, ks[1..]);
    }
  }

  /** The dashed name of every dependency is a key of the table. */
  lemma DependencyKeyPresent(mods: seq<Release>, i: nat, j: nat)
    requires i < |mods| && j < |mods[i].dependencies|
    ensures DashName(mods[i].dependencies[j].name) in LocalDepsOf(mods)
  {
    var k := DashName(mods[i].dependencies[j].name);
    RequiredForHas(mods, i, j);
    LocalDepsAt(mods, k);
  }

  lemma {:induction false} RequiredForHas(mods: seq<Release>, i: nat, j: nat)
    requires i < |mods| && j < |mods[i].dependencies|
    ensures RequiredFor(mods, DashName(mods[i].dependencies[j].name)) != []
  {
    var k := DashName(mods[i].dependencies[j].name);
    if i < |mods| - 1 {
      RequiredForHas(mods[..|mods| - 1], i, j);
    } else {
      RequirersInHas(mods[i], mods[i].dependencies, j);
    }
  }

  lemma {:induction false} RequirersInHas(m: Release, ds: seq<Dependency>, j: nat)
    requires j < |ds|
    ensures RequirersIn(m, ds, DashName(ds[j].name)) != []
  {
    if j < |ds| - 1 {
      RequirersInHas(m, ds[..|ds| - 1], j);
    }
  }

  /**
   * Over any listing of the table's keys, each once, the `:required_by`
   * items number exactly the dependencies declared by all releases.
   */
  lemma RequiredByTotal(mods: seq<Release>, ks: seq<string>)
    requires Distinct(ks)
    requires forall k :: k in ks <==> k in LocalDepsOf(mods)
    ensures RequiredByCount(LocalDepsOf(mods), ks) == TotalDependencies(mods)
  {
    forall i, j | 0 <= i < |mods| && 0 <= j < |mods[i].dependencies|
      ensures DashName(mods[i].dependencies[j].name) in ks
    {
      DependencyKeyPresent(mods, i, j);
    }
    RequiredByCountIsSum(mods, ks);
    SumRequiredTotal(mods, ks);
  }
}
