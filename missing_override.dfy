/**
 * The MissingOverrideAnnotation recipe: a method declaration gets
 * `@Override` when one of its declaring type's ancestors (interfaces first,
 * then the supertype, recursively) declares a method the declaration's own
 * signature, re-targeted at that ancestor, matches.
 *
 * `MethodMatcher(pattern).matches(m)` is a parameter `matches(pattern, m)`:
 * parsing a signature pattern is not part of this model.
 */
module MissingOverride {
  import opened Wrappers
  import opened JavaTypes
  import opened MethodMatching

  const OverrideName: string := "java.lang.Override"

  /**
   * The part of a J.MethodDeclaration the recipe reads: its simple name, its
   * type attribution, whether it carries the `static` modifier and, per
   * annotation, the fully-qualified name AnnotationMatcher compares.
   */
  datatype MethodDecl = MethodDecl(simpleName: string, methodType: Option<Ref>, isStatic: bool, annotations: seq<string>)

  /** The nearest enclosing class scope: an anonymous class body or a class declaration. */
  datatype Scope = NewClassScope | ClassDeclarationScope

  /** The recipe's two nullable Boolean options. */
  datatype Options = Options(ignoreObjectMethods: Option<bool>, ignoreAnonymousClassMethods: Option<bool>)

  /** FindOverriddenAndImplementedMethodDeclarations: the declaration and its declaring type. */
  datatype Finder = Finder(target: MethodDecl, declaringType: Ref)

  predicate DeclOk(a: seq<Desc>, d: MethodDecl)
  {
    d.methodType.Some? ==> d.methodType.value < |a| && a[d.methodType.value].Method?
  }

  predicate FinderOk(a: seq<Desc>, f: Finder)
    requires WellFormed(a)
  {
    DeclOk(a, f.target) && IsFQ(a, f.declaringType)
  }

  /**
   * methodPattern of the declaration after `withDeclaringType(t)`: the
   * searched type's name, the simple name and the resolved parameter types.
   * Re-targeting at the declaring type itself changes nothing.
   */
  function SearchPattern(a: seq<Desc>, target: MethodDecl, t: Ref): (r: string)
    requires WellFormed(a) && DeclOk(a, target) && target.methodType.Some? && t < |a|
    ensures t == a[target.methodType.value].declaringType ==> r == MethodPatternText(a, target.methodType.value, target.simpleName)
    ensures FullyQualifiedName(a, t) + " " + target.simpleName + "(" <= r && r[|r| - 1] == ')'
  {
    var m := target.methodType.value;
    MethodRefs(a, m);
    FullyQualifiedName(a, t) + " " + target.simpleName + "(" + SignatureText(a, a[m].resolvedSignature) + ")"
  }

  /** `java.lang.Object` is skipped unless ignoreObjectMethods is explicitly false. */
  predicate Skipped(a: seq<Desc>, ignoreObjectMethods: Option<bool>, t: Ref)
    requires Acyclic(a) && t < |a|
  {
    (ignoreObjectMethods.None? || ignoreObjectMethods == Some(true)) && FullyQualifiedName(a, t) == ObjectName
  }

  /** The filtering predicate: a class's abstract methods and any other kind's static methods do not count. */
  predicate Candidate(a: seq<Desc>, t: Ref, m: Ref, pattern: string, matches: (string, Ref) -> bool)
    requires Acyclic(a) && t < |a| && m < |a|
  {
    if KindOf(a, t) == ClassKind then !HasFlags(a, m, [Abstract]) && matches(pattern, m)
    else !HasFlags(a, m, [Static]) && matches(pattern, m)
  }

  /** A searched type other than the declaring type (by name) has a method that counts. */
  predicate OwnHit(a: seq<Desc>, f: Finder, t: Ref, matches: (string, Ref) -> bool)
    requires WellFormed(a) && FinderOk(a, f) && f.target.methodType.Some? && t < |a|
  {
    var ms := Methods(a, t);
    FullyQualifiedName(a, f.declaringType) != FullyQualifiedName(a, t)
    && exists k :: 0 <= k < |ms| && Candidate(a, t, ms[k], SearchPattern(a, f.target, t), matches)
  }

  /** hasAny(typeToSearch) */
  function HasAny(a: seq<Desc>, f: Finder, ignoreObjectMethods: Option<bool>, typeToSearch: Option<Ref>,
                  matches: (string, Ref) -> bool): (r: bool)
    requires WellFormed(a) && FinderOk(a, f) && OptFQ(a, typeToSearch)
    ensures typeToSearch.None? || f.target.methodType.None? ==> !r
    ensures typeToSearch.Some? && Skipped(a, ignoreObjectMethods, typeToSearch.value) ==> !r
    ensures (typeToSearch.Some? && FullyQualifiedName(a, typeToSearch.value) == FullyQualifiedName(a, f.declaringType)
             && Interfaces(a, typeToSearch.value) == [] && Supertype(a, typeToSearch.value).None?) ==> !r
    decreases if typeToSearch.Some? then typeToSearch.value + 1 else 0
  {
    if typeToSearch.None? || f.target.methodType.None? || Skipped(a, ignoreObjectMethods, typeToSearch.value) then false
    else
      var t := typeToSearch.value;
      var ifs := Interfaces(a, t);
      if OwnHit(a, f, t, matches) then true
      else if exists k :: 0 <= k < |ifs| && HasAny(a, f, ignoreObjectMethods, Some(ifs[k]), matches) then true
      else if Supertype(a, t).Some? then HasAny(a, f, ignoreObjectMethods, Supertype(a, t), matches)
      else false
  }

  // ---------------------------------------------------------------------------
  // A reference definition: a chain of ancestors ending in a type with a hit

  /** `u` is one of the types hasAny searches from `t`: an interface or the supertype. */
  predicate Parent(a: seq<Desc>, t: Ref, u: Ref)
    requires WellFormed(a) && t < |a|
  {
    u in Interfaces(a, t) || Supertype(a, t) == Some(u)
  }

  /** A chain of searched, non-skipped types, each an interface or the supertype of the one before. */
  predicate SearchPath(a: seq<Desc>, ignoreObjectMethods: Option<bool>, path: seq<Ref>)
    requires WellFormed(a)
  {
    && |path| >= 1
    && (forall k :: 0 <= k < |path| ==> IsFQ(a, path[k]) && !Skipped(a, ignoreObjectMethods, path[k]))
    && (forall k :: 0 <= k < |path| - 1 ==> Parent(a, path[k], path[k + 1]))
  }

  lemma PathCons(a: seq<Desc>, ignoreObjectMethods: Option<bool>, t: Ref, p: seq<Ref>)
    requires WellFormed(a) && SearchPath(a, ignoreObjectMethods, p)
    requires IsFQ(a, t) && !Skipped(a, ignoreObjectMethods, t) && Parent(a, t, p[0])
    ensures SearchPath(a, ignoreObjectMethods, [t] + p)
  {
    var q := [t] + p;
    forall k | 0 <= k < |q| - 1
      ensures Parent(a, q[k], q[k + 1])
    {
      if k > 0 {
        assert q[k] == p[k - 1] && q[k + 1] == p[k];
      }
    }
  }

  lemma PathTail(a: seq<Desc>, ignoreObjectMethods: Option<bool>, path: seq<Ref>)
    requires WellFormed(a) && SearchPath(a, ignoreObjectMethods, path) && |path| >= 2
    ensures SearchPath(a, ignoreObjectMethods, path[1..]) && Parent(a, path[0], path[1])
  {
    var q := path[1..];
    forall k | 0 <= k < |q| - 1
      ensures Parent(a, q[k], q[k + 1])
    {
      assert q[k] == path[k + 1] && q[k + 1] == path[k + 2];
    }
  }

  /** Every ancestor chain ending in a hit makes hasAny true at its start. */
  lemma {:induction false} HitGivesHasAny(a: seq<Desc>, f: Finder, ignoreObjectMethods: Option<bool>, path: seq<Ref>,
                                          matches: (string, Ref) -> bool)
    requires WellFormed(a) && FinderOk(a, f) && f.target.methodType.Some?
    requires SearchPath(a, ignoreObjectMethods, path) && OwnHit(a, f, path[|path| - 1], matches)
    ensures HasAny(a, f, ignoreObjectMethods, Some(path[0]), matches)
    decreases |path|
  {
    if |path| >= 2 {
      PathTail(a, ignoreObjectMethods, path);
      HitGivesHasAny(a, f, ignoreObjectMethods, path[1..], matches);
      var t, u := path[0], path[1];
      var ifs := Interfaces(a, t);
      if u in ifs {
        var k :| 0 <= k < |ifs| && ifs[k] == u;
        assert HasAny(a, f, ignoreObjectMethods, Some(ifs[k]), matches);
      }
    }
  }

  /** A witness chain from a searched type's interface or supertype extends to the type itself. */
  lemma ExtendWitness(a: seq<Desc>, f: Finder, ignoreObjectMethods: Option<bool>, t: Ref, u: Ref,
                      matches: (string, Ref) -> bool)
    requires WellFormed(a) && FinderOk(a, f) && IsFQ(a, t) && f.target.methodType.Some?
    requires !Skipped(a, ignoreObjectMethods, t) && Parent(a, t, u)
    requires exists p :: SearchPath(a, ignoreObjectMethods, p) && p[0] == u && OwnHit(a, f, p[|p| - 1], matches)
    ensures exists path :: SearchPath(a, ignoreObjectMethods, path) && path[0] == t && OwnHit(a, f, path[|path| - 1], matches)
  {
    var p :| SearchPath(a, ignoreObjectMethods, p) && p[0] == u && OwnHit(a, f, p[|p| - 1], matches);
    PathCons(a, ignoreObjectMethods, t, p);
    var q := [t] + p;
    assert q[|q| - 1] == p[|p| - 1] && q[0] == t;
    assert SearchPath(a, ignoreObjectMethods, q) && OwnHit(a, f, q[|q| - 1], matches);
  }

  /** hasAny is true only through an ancestor chain ending in a hit. */
  lemma {:induction false} HasAnyHasWitness(a: seq<Desc>, f: Finder, ignoreObjectMethods: Option<bool>, t: Ref,
                                            matches: (string, Ref) -> bool)
    requires WellFormed(a) && FinderOk(a, f) && IsFQ(a, t)
    requires HasAny(a, f, ignoreObjectMethods, Some(t), matches)
    ensures exists path :: SearchPath(a, ignoreObjectMethods, path) && path[0] == t && OwnHit(a, f, path[|path| - 1], matches)
    decreases t
  {
    var ifs := Interfaces(a, t);
    if OwnHit(a, f, t, matches) {
      assert SearchPath(a, ignoreObjectMethods, [t]);
    } else {
      var u: Ref;
      if exists k :: 0 <= k < |ifs| && HasAny(a, f, ignoreObjectMethods, Some(ifs[k]), matches) {
        var k :| 0 <= k < |ifs| && HasAny(a, f, ignoreObjectMethods, Some(ifs[k]), matches);
        u := ifs[k];
      } else {
        u := Supertype(a, t).value;
      }
      HasAnyHasWitness(a, f, ignoreObjectMethods, u, matches);
      ExtendWitness(a, f, ignoreObjectMethods, t, u, matches);
    }
  }

  /**
   * hasAny from a type is true exactly when some chain of its interfaces and
   * supertypes, skipping `java.lang.Object` as the options say, reaches a
   * type other than the declaring type with a method that counts.
   */
  lemma HasAnyIffHit(a: seq<Desc>, f: Finder, ignoreObjectMethods: Option<bool>, t: Ref, matches: (string, Ref) -> bool)
    requires WellFormed(a) && FinderOk(a, f) && IsFQ(a, t) && f.target.methodType.Some?
    ensures HasAny(a, f, ignoreObjectMethods, Some(t), matches) <==>
            exists path :: SearchPath(a, ignoreObjectMethods, path) && path[0] == t && OwnHit(a, f, path[|path| - 1], matches)
  {
    if HasAny(a, f, ignoreObjectMethods, Some(t), matches) {
      HasAnyHasWitness(a, f, ignoreObjectMethods, t, matches);
    }
    if exists path :: SearchPath(a, ignoreObjectMethods, path) && path[0] == t && OwnHit(a, f, path[|path| - 1], matches) {
      var path :| SearchPath(a, ignoreObjectMethods, path) && path[0] == t && OwnHit(a, f, path[|path| - 1], matches);
      HitGivesHasAny(a, f, ignoreObjectMethods, path, matches);
    }
  }

  /** A hit on an interface or on the supertype is enough, however deep it sits. */
  lemma InheritedHit(a: seq<Desc>, f: Finder, ignoreObjectMethods: Option<bool>, t: Ref, u: Ref, matches: (string, Ref) -> bool)
    requires WellFormed(a) && FinderOk(a, f) && IsFQ(a, t) && f.target.methodType.Some?
    requires !Skipped(a, ignoreObjectMethods, t) && Parent(a, t, u)
    requires HasAny(a, f, ignoreObjectMethods, Some(u), matches)
    ensures HasAny(a, f, ignoreObjectMethods, Some(t), matches)
  {
    assert IsFQ(a, u);
    HasAnyHasWitness(a, f, ignoreObjectMethods, u, matches);
    ExtendWitness(a, f, ignoreObjectMethods, t, u, matches);
    HasAnyIffHit(a, f, ignoreObjectMethods, t, matches);
  }

  // ---------------------------------------------------------------------------
  // visitMethodDeclaration

  /** The declaration with `@Override` added (its place among the other annotations is not modelled). */
  function WithOverride(d: MethodDecl): MethodDecl
  {
    d.(annotations := d.annotations + [OverrideName])
  }

  /** The cheap checks before the search: attributed, not static, no `@Override` yet, not a skipped anonymous class. */
  predicate Eligible(o: Options, scope: Scope, d: MethodDecl)
  {
    d.methodType.Some? && !d.isStatic && OverrideName !in d.annotations
    && !(o.ignoreAnonymousClassMethods == Some(true) && scope == NewClassScope)
  }

  /** getDeclaringType of an attributed method: a fully-qualified type of the arena. */
  function DeclaringType(a: seq<Desc>, m: Ref): (r: Ref)
    requires WellFormed(a) && m < |a| && a[m].Method?
    ensures IsFQ(a, r) && r == a[m].declaringType
  {
    MethodRefs(a, m);
    a[m].declaringType
  }

  /** visitMethodDeclaration: annotate when the guards pass and the ancestors declare the method. */
  function VisitMethodDeclaration(a: seq<Desc>, o: Options, scope: Scope, d: MethodDecl,
                                  matches: (string, Ref) -> bool): (r: MethodDecl)
    requires WellFormed(a) && DeclOk(a, d)
    ensures r == d || r == WithOverride(d)
    ensures r != d ==> Eligible(o, scope, d)
    ensures d.isStatic || d.methodType.None? || OverrideName in d.annotations ==> r == d
    ensures o.ignoreAnonymousClassMethods == Some(true) && scope == NewClassScope ==> r == d
    ensures Eligible(o, scope, d) ==>
      var t := DeclaringType(a, d.methodType.value);
      (r != d <==> HasAny(a, Finder(d, t), o.ignoreObjectMethods, Some(t), matches))
  {
    if d.methodType.Some? && !d.isStatic && OverrideName !in d.annotations then
      if !(o.ignoreAnonymousClassMethods == Some(true) && scope == NewClassScope) then
        var declaringType := DeclaringType(a, d.methodType.value);
        if HasAny(a, Finder(d, declaringType), o.ignoreObjectMethods, Some(declaringType), matches) then WithOverride(d)
        else d
      else d
    else d
  }

  /** A second visit of a visited declaration changes nothing. */
  lemma VisitIdempotent(a: seq<Desc>, o: Options, scope: Scope, d: MethodDecl, matches: (string, Ref) -> bool)
    requires WellFormed(a) && DeclOk(a, d)
    ensures var r := VisitMethodDeclaration(a, o, scope, d, matches);
            VisitMethodDeclaration(a, o, scope, r, matches) == r
  {
    var r := VisitMethodDeclaration(a, o, scope, d, matches);
    if r != d {
      assert OverrideName == r.annotations[|r.annotations| - 1];
    }
  }

  /**
   * A method whose declaring type inherits nothing (no interfaces, no
   * supertype) is never annotated.
   */
  lemma NoAncestorsNoOverride(a: seq<Desc>, o: Options, scope: Scope, d: MethodDecl, matches: (string, Ref) -> bool)
    requires WellFormed(a) && DeclOk(a, d) && d.methodType.Some?
    requires Interfaces(a, a[d.methodType.value].declaringType) == []
    requires Supertype(a, a[d.methodType.value].declaringType).None?
    ensures VisitMethodDeclaration(a, o, scope, d, matches) == d
  {
    MethodRefs(a, d.methodType.value);
  }
}
