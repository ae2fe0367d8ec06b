/**
 * The UsesJavaVersion search: a compilation unit whose JavaVersion marker
 * reports a major version within an inclusive range gets a search-result
 * marker.
 */
module JavaVersions {
  import opened Wrappers
  import opened Numbers

  /** The markers a compilation unit carries, as far as this search tells them apart. */
  datatype Marker = JavaVersion(majorVersion: int) | SearchResult | OtherMarker(name: string)

  datatype CompilationUnit = CompilationUnit(markers: seq<Marker>, source: string)

  /** UsesJavaVersion's two `int` fields, which only its constructors set. */
  datatype UsesJavaVersion = UsesJavaVersion(majorVersionMin: int, majorVersionMax: int)

  /** UsesJavaVersion(majorVersion): no upper bound below Integer.MAX_VALUE. */
  function AtLeast(majorVersion: int): (r: UsesJavaVersion)
  {
    UsesJavaVersion(majorVersion, MaxInt)
  }

  /** UsesJavaVersion(majorVersionMin, majorVersionMax) */
  function Between(majorVersionMin: int, majorVersionMax: int): (r: UsesJavaVersion)
  {
    UsesJavaVersion(majorVersionMin, majorVersionMax)
  }

  /** isVersionInRange: a positive minimum, and both bounds inclusive. */
  predicate IsVersionInRange(u: UsesJavaVersion, majorVersion: int)
  {
    u.majorVersionMin > 0 && u.majorVersionMin <= majorVersion && majorVersion <= u.majorVersionMax
  }

  /** markers.findFirst(JavaVersion.class): the first JavaVersion marker, if any. */
  function FindJavaVersion(ms: seq<Marker>): (r: Option<int>)
    ensures r.None? <==> forall k :: 0 <= k < |ms| ==> !ms[k].JavaVersion?
    ensures r.Some? ==> exists k :: 0 <= k < |ms| && ms[k] == JavaVersion(r.value)
                                    && forall j :: 0 <= j < k ==> !ms[j].JavaVersion?
  {
    if ms == [] then None
    else if ms[0].JavaVersion? then Some(ms[0].majorVersion)
    else
      var r := FindJavaVersion(ms[1..]);
      assert forall k :: 1 <= k < |ms| ==> ms[k] == ms[1..][k - 1];
      if r.Some? then
        var k :| 0 <= k < |ms[1..]| && ms[1..][k] == JavaVersion(r.value) && forall j :: 0 <= j < k ==> !ms[1..][j].JavaVersion?;
        assert ms[k + 1] == JavaVersion(r.value);
        r
      else r
  }

  /** markers.searchResult(): the unit is marked as a search result. */
  function WithSearchResult(cu: CompilationUnit): CompilationUnit
  {
    cu.(markers := cu.markers + [SearchResult])
  }

  /** visitCompilationUnit */
  function VisitCompilationUnit(u: UsesJavaVersion, cu: CompilationUnit): (r: CompilationUnit)
    ensures FindJavaVersion(cu.markers).None? ==> r == cu
    ensures FindJavaVersion(cu.markers).Some? ==>
              (r == WithSearchResult(cu) <==> IsVersionInRange(u, FindJavaVersion(cu.markers).value))
    ensures r == cu || r == WithSearchResult(cu)
  {
    var javaVersion := FindJavaVersion(cu.markers);
    if javaVersion.Some? && IsVersionInRange(u, javaVersion.value) then WithSearchResult(cu) else cu
  }

  /** With one bound, every Java `int` version from the minimum up is in range. */
  lemma AtLeastRange(majorVersion: int, v: int)
    requires v <= MaxInt
    ensures IsVersionInRange(AtLeast(majorVersion), v) <==> majorVersion > 0 && majorVersion <= v
  {
  }

  /** A minimum of zero or below matches no version, whatever the maximum. */
  lemma NonPositiveMinimumNeverMatches(u: UsesJavaVersion, cu: CompilationUnit)
    requires u.majorVersionMin <= 0
    ensures VisitCompilationUnit(u, cu) == cu
  {
  }

  /** Only the first JavaVersion marker is consulted. */
  lemma FirstMarkerDecides(u: UsesJavaVersion, v: int, rest: seq<Marker>, source: string)
    ensures var cu := CompilationUnit([JavaVersion(v)] + rest, source);
            VisitCompilationUnit(u, cu) == (if IsVersionInRange(u, v) then WithSearchResult(cu) else cu)
  {
  }
}
