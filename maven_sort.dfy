/**
 * The build order of a multi-module Maven build: projects sorted so that
 * every project comes after the input projects it depends on.  A project
 * depends on another input project when one of its declared dependencies
 * names that project's groupId and artifactId; dependencies on anything
 * outside the input are ignored.
 */
module MavenSort {
  import opened Wrappers

  datatype Dependency = Dependency(groupId: string, artifactId: string)

  /** A parsed project: its coordinates, the dependencies its model declares, and where it was read from. */
  datatype Maven = Maven(sourcePath: string, groupId: string, artifactId: string, dependencies: seq<Dependency>)

  predicate Provides(test: Maven, d: Dependency)
  {
    test.groupId == d.groupId && test.artifactId == d.artifactId
  }

  function Projects(mavens: seq<Maven>): set<Maven> { set m | m in mavens }

  /** The input projects with the coordinates of `d`. */
  function ProvidersOf(mavens: seq<Maven>, d: Dependency): (r: set<Maven>)
    ensures r <= Projects(mavens)
  {
    set t | t in mavens && Provides(t, d)
  }

  /** The input projects providing one of `deps`. */
  function Providers(mavens: seq<Maven>, deps: seq<Dependency>): (r: set<Maven>)
    ensures r <= Projects(mavens)
  {
    if deps == [] then {} else Providers(mavens, deps[..|deps| - 1]) + ProvidersOf(mavens, deps[|deps| - 1])
  }

  /** An input project is a dependency exactly when it has the coordinates of one of the declared dependencies. */
  lemma {:induction false} ProvidersMatch(mavens: seq<Maven>, deps: seq<Dependency>, t: Maven)
    ensures t in Providers(mavens, deps) <==> t in mavens && exists k :: 0 <= k < |deps| && Provides(t, deps[k])
  {
    if deps != [] {
      var init := deps[..|deps| - 1];
      ProvidersMatch(mavens, init, t);
      if t in mavens && exists k :: 0 <= k < |deps| && Provides(t, deps[k]) {
        var k :| 0 <= k < |deps| && Provides(t, deps[k]);
        if k < |init| {
          assert init[k] == deps[k];
        }
      }
      if t in Providers(mavens, init) {
        var k :| 0 <= k < |init| && Provides(t, init[k]);
        assert deps[k] == init[k];
      }
    }
  }

  /** The input projects `m` depends on. */
  function DependsOn(mavens: seq<Maven>, m: Maven): (r: set<Maven>)
    ensures r <= Projects(mavens)
  {
    Providers(mavens, m.dependencies)
  }

  /** Only matching coordinates make a dependency: one no input project provides adds nothing. */
  lemma UnmatchedDependencyIgnored(mavens: seq<Maven>, deps: seq<Dependency>, d: Dependency)
    requires forall t :: t in mavens ==> !Provides(t, d)
    ensures Providers(mavens, deps + [d]) == Providers(mavens, deps)
  {
    assert (deps + [d])[..|deps|] == deps;
  }

  /** No project occurs twice: each one is new when it is appended. */
  predicate Distinct(s: seq<Maven>)
  {
    s == [] || (Distinct(s[..|s| - 1]) && s[|s| - 1] !in s[..|s| - 1])
  }

  /** Every project comes after all the projects it depends on. */
  predicate DependenciesFirst(mavens: seq<Maven>, s: seq<Maven>)
  {
    s == [] || (DependenciesFirst(mavens, s[..|s| - 1]) && DependsOn(mavens, s[|s| - 1]) <= Projects(s[..|s| - 1]))
  }

  /** Distinct in the index-wise sense: no two positions hold the same project. */
  lemma {:induction false} DistinctPositions(s: seq<Maven>, p: nat, q: nat)
    requires Distinct(s) && p < q < |s|
    ensures s[p] != s[q]
  {
    var init := s[..|s| - 1];
    if q < |s| - 1 {
      DistinctPositions(init, p, q);
    } else {
      assert s[p] == init[p];
    }
  }

  /** Dependencies first in the index-wise sense: all of a project's dependencies sit before its position. */
  lemma {:induction false} DependenciesBefore(mavens: seq<Maven>, s: seq<Maven>, p: nat)
    requires DependenciesFirst(mavens, s) && p < |s|
    ensures DependsOn(mavens, s[p]) <= Projects(s[..p])
  {
    var init := s[..|s| - 1];
    if p < |s| - 1 {
      DependenciesBefore(mavens, init, p);
      assert init[..p] == s[..p];
    }
  }

  /**
   * A dependency cycle: a non-empty set of projects each of which depends
   * on a project of the set.
   */
  predicate Cycle(mavens: seq<Maven>, c: set<Maven>)
  {
    c != {} && c <= Projects(mavens) && forall m {:trigger DependsOn(mavens, m)} :: m in c ==> DependsOn(mavens, m) * c != {}
  }

  /** The table the first phase builds: every project mapped to the projects it depends on. */
  predicate DependencyTable(mavens: seq<Maven>, t: map<Maven, set<Maven>>)
  {
    t.Keys == Projects(mavens) && forall m :: m in t ==> t[m] == DependsOn(mavens, m)
  }

  /** The first phase of sort: for each project, each declared dependency checked against every input project. */
  method BuildTable(mavens: seq<Maven>) returns (byDependedOn: map<Maven, set<Maven>>)
    ensures DependencyTable(mavens, byDependedOn)
  {
    byDependedOn := map[];
    var i := 0;
    while i < |mavens|
      invariant 0 <= i <= |mavens|
      invariant byDependedOn.Keys == Projects(mavens[..i])
      invariant forall m :: m in byDependedOn ==> byDependedOn[m] == DependsOn(mavens, m)
    {
      var maven := mavens[i];
      var base: set<Maven> := if maven in byDependedOn then byDependedOn[maven] else {};
      var found := AddDependencies(mavens, maven.dependencies, base);
      assert mavens[..i + 1] == mavens[..i] + [maven];
      byDependedOn := byDependedOn[maven := found];
      i := i + 1;
    }
    assert mavens[..i] == mavens;
  }

  /** The loop over one project's declared dependencies. */
  method AddDependencies(mavens: seq<Maven>, deps: seq<Dependency>, found0: set<Maven>) returns (found: set<Maven>)
    ensures found == found0 + Providers(mavens, deps)
  {
    found := found0;
    var j := 0;
    while j < |deps|
      invariant 0 <= j <= |deps|
      invariant found == found0 + Providers(mavens, deps[..j])
    {
      found := AddProviders(mavens, deps[j], found);
      assert deps[..j + 1][..j] == deps[..j];
      j := j + 1;
    }
    assert deps[..j] == deps;
  }

  /** The loop over the input projects for one dependency: each one with matching coordinates is added. */
  method AddProviders(mavens: seq<Maven>, d: Dependency, found0: set<Maven>) returns (found: set<Maven>)
    ensures found == found0 + ProvidersOf(mavens, d)
  {
    found := found0;
    var k := 0;
    while k < |mavens|
      invariant 0 <= k <= |mavens|
      invariant found == found0 + ProvidersOf(mavens[..k], d)
    {
      if Provides(mavens[k], d) {
        found := found + {mavens[k]};
      }
      assert mavens[..k + 1] == mavens[..k] + [mavens[k]];
      k := k + 1;
    }
    assert mavens[..k] == mavens;
  }

  /**
   * What the main loop of sort keeps: the table holds exactly the projects
   * not yet sorted, each with its dependencies not yet sorted; the sorted
   * list has no duplicates and puts dependencies first.
   */
  predicate SortState(mavens: seq<Maven>, table: map<Maven, set<Maven>>, out: seq<Maven>)
  {
    && table.Keys !! Projects(out) && table.Keys + Projects(out) == Projects(mavens)
    && Distinct(out) && DependenciesFirst(mavens, out)
    && forall m {:trigger table[m]} :: m in table ==> table[m] == DependsOn(mavens, m) - Projects(out)
  }

  /** The table after `maven` is taken: its entry gone and `maven` deleted from every other set. */
  function Without(table: map<Maven, set<Maven>>, maven: Maven): (r: map<Maven, set<Maven>>)
    requires maven in table
    ensures r.Keys == table.Keys - {maven} && |r| < |table|
    ensures forall m {:trigger r[m]} :: m in r ==> r[m] == table[m] - {maven}
  {
    var rest := table - {maven};
    assert |rest.Keys| < |table.Keys| by {
      assert rest.Keys == table.Keys - {maven};
    }
    map m | m in rest :: rest[m] - {maven}
  }

  /**
   * MavenProjectParser.sort: repeatedly takes a project whose remaining
   * dependencies are all sorted already, appends it and removes it from
   * every other project's remaining set.  The table is a hash map, so which
   * ready project is taken first is not fixed.  When no project is ready
   * the source spins forever; here the loop stops and returns the projects
   * left over, which form a dependency cycle.
   */
  method Sort(mavens: seq<Maven>) returns (sorted: Option<seq<Maven>>, stuck: set<Maven>)
    ensures sorted.Some? ==> Distinct(sorted.value) && Projects(sorted.value) == Projects(mavens)
    ensures sorted.Some? ==> DependenciesFirst(mavens, sorted.value)
    ensures sorted.None? ==> Cycle(mavens, stuck)
  {
    var table := BuildTable(mavens);
    var out: seq<Maven> := [];
    Start(mavens, table);
    while table != map[]
      invariant SortState(mavens, table, out)
      decreases |table|
    {
      var ready := FindReady(table);
      if ready.None? {
        ReadySetIsCycle(mavens, table, out);
        return None, table.Keys;
      }
      var maven := ready.value;
      Take(mavens, table, out, maven);
      table := Without(table, maven);
      out := out + [maven];
    }
    Finish(mavens, table, out);
    return Some(out), {};
  }

  /** The scan over the entry set for a project with no remaining dependencies, in unspecified order. */
  method FindReady(table: map<Maven, set<Maven>>) returns (r: Option<Maven>)
    ensures r.Some? ==> r.value in table && table[r.value] == {}
    ensures r.None? ==> forall m {:trigger table[m]} :: m in table ==> table[m] != {}
  {
    if m :| m in table && table[m] == {} {
      return Some(m);
    }
    return None;
  }

  /** Before the loop nothing is sorted and every set holds all of a project's dependencies. */
  lemma Start(mavens: seq<Maven>, table: map<Maven, set<Maven>>)
    requires DependencyTable(mavens, table)
    ensures SortState(mavens, table, [])
  {
    assert Projects([]) == {};
  }

  /** With the table empty, every project has been sorted. */
  lemma Finish(mavens: seq<Maven>, table: map<Maven, set<Maven>>, out: seq<Maven>)
    requires SortState(mavens, table, out) && table == map[]
    ensures Distinct(out) && Projects(out) == Projects(mavens) && DependenciesFirst(mavens, out)
  {
    assert table.Keys == {};
  }

  /** Taking a ready project keeps the loop's state. */
  lemma Take(mavens: seq<Maven>, table: map<Maven, set<Maven>>, out: seq<Maven>, maven: Maven)
    requires SortState(mavens, table, out) && maven in table && table[maven] == {}
    ensures SortState(mavens, Without(table, maven), out + [maven])
  {
    ReadyIsSorted(mavens, table, out, maven);
    Appended(mavens, out, maven);
    TakeSets(mavens, table, out, maven);
    TakeKeys(mavens, table, out, maven);
  }

  /** The taken project moves from the table to the sorted list. */
  lemma TakeKeys(mavens: seq<Maven>, table: map<Maven, set<Maven>>, out: seq<Maven>, maven: Maven)
    requires table.Keys !! Projects(out) && table.Keys + Projects(out) == Projects(mavens) && maven in table
    ensures var next := Without(table, maven);
      next.Keys !! Projects(out + [maven]) && next.Keys + Projects(out + [maven]) == Projects(mavens)
  {
    assert Projects(out + [maven]) == Projects(out) + {maven};
  }

  /** A ready project has all its dependencies sorted and is not sorted itself. */
  lemma ReadyIsSorted(mavens: seq<Maven>, table: map<Maven, set<Maven>>, out: seq<Maven>, maven: Maven)
    requires SortState(mavens, table, out) && maven in table && table[maven] == {}
    ensures maven !in Projects(out) && DependsOn(mavens, maven) <= Projects(out)
  {
    assert DependsOn(mavens, maven) - Projects(out) == {};
    forall t | t in DependsOn(mavens, maven)
      ensures t in Projects(out)
    {
      assert t !in DependsOn(mavens, maven) - Projects(out);
    }
  }

  /** Deleting the taken project from every set keeps each set the project's unsorted dependencies. */
  lemma TakeSets(mavens: seq<Maven>, table: map<Maven, set<Maven>>, out: seq<Maven>, maven: Maven)
    requires maven in table
    requires forall m {:trigger table[m]} :: m in table ==> table[m] == DependsOn(mavens, m) - Projects(out)
    ensures Projects(out + [maven]) == Projects(out) + {maven}
    ensures var next := Without(table, maven);
      forall m {:trigger next[m]} :: m in next ==> next[m] == DependsOn(mavens, m) - Projects(out + [maven])
  {
    assert Projects(out + [maven]) == Projects(out) + {maven};
  }

  /** Appending a project whose dependencies are all out keeps the order and the distinctness. */
  lemma Appended(mavens: seq<Maven>, out: seq<Maven>, maven: Maven)
    requires Distinct(out) && DependenciesFirst(mavens, out)
    requires maven !in Projects(out) && DependsOn(mavens, maven) <= Projects(out)
    ensures Distinct(out + [maven]) && DependenciesFirst(mavens, out + [maven])
    ensures Projects(out + [maven]) == Projects(out) + {maven}
  {
    assert (out + [maven])[..|out|] == out;
  }

  /** When no remaining project is ready the remaining projects depend on one another: a cycle. */
  lemma ReadySetIsCycle(mavens: seq<Maven>, table: map<Maven, set<Maven>>, out: seq<Maven>)
    requires table != map[] && forall m {:trigger table[m]} :: m in table ==> table[m] != {}
    requires SortState(mavens, table, out)
    ensures Cycle(mavens, table.Keys)
  {
  }

  /** No order puts every project after its dependencies when a cycle exists. */
  lemma CycleHasNoOrder(mavens: seq<Maven>, c: set<Maven>, s: seq<Maven>)
    requires Cycle(mavens, c) && DependenciesFirst(mavens, s)
    ensures !(c <= Projects(s))
  {
    CycleAbsent(mavens, c, s);
  }

  /** No project of a cycle can occur in a list that puts dependencies first. */
  lemma {:induction false} CycleAbsent(mavens: seq<Maven>, c: set<Maven>, s: seq<Maven>)
    requires Cycle(mavens, c) && DependenciesFirst(mavens, s)
    ensures c !! Projects(s)
  {
    if s != [] {
      var init := s[..|s| - 1];
      CycleAbsent(mavens, c, init);
      assert Projects(s) == Projects(init) + {s[|s| - 1]} by {
        assert s == init + [s[|s| - 1]];
      }
    }
  }

  /**
   * The sort succeeds exactly when the projects can be ordered at all: when
   * it gives up, no order puts every project after its dependencies.
   */
  lemma SortFailsOnlyOnCycles(mavens: seq<Maven>, stuck: set<Maven>, s: seq<Maven>)
    requires Cycle(mavens, stuck)
    requires Projects(s) == Projects(mavens)
    ensures !DependenciesFirst(mavens, s)
  {
    if DependenciesFirst(mavens, s) {
      CycleHasNoOrder(mavens, stuck, s);
    }
  }
}
