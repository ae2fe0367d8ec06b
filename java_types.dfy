/**
 * The JavaType object model.
 *
 * Java type objects form a heap of shared, mostly immutable objects whose
 * identity matters (the interning tables hand out "the same instance").  The
 * model keeps that heap as an arena: a sequence of descriptors, where a `Ref`
 * is an index into it and reference identity is index equality.  Every
 * reference held by a descriptor points to an earlier entry, so the object
 * graph is acyclic (the source breaks cycles with `Cyclic` placeholders).
 * The thirteen primitives are pre-allocated at refs 0..12 in enum order and
 * `Class.OBJECT` (`java.lang.Object`) sits at ref 13.
 */
module JavaTypes {
  import opened Wrappers
  import opened Strings

  type Ref = nat

  /** JavaType.Primitive, in enum order; `NoneType` is the source's `Primitive.None`. */
  datatype Primitive =
    | Boolean | Byte | Char | Double | Float | Int | Long | Short | Void | String
    | NoneType | Wildcard | Null

  /** JavaType.Class.Kind */
  datatype Kind = ClassKind | EnumKind | InterfaceKind | AnnotationKind

  /** The modifier flags a type, field or method carries (Flag's bit encoding is not modelled). */
  datatype Flag = Public | Private | Protected | Static | Final | Synchronized | Volatile | Transient | Abstract

  datatype Signature = Signature(returnType: Option<Ref>, paramTypes: seq<Ref>)

  /** One object of the JavaType hierarchy; the references it holds are arena indices. */
  datatype Desc =
    | PrimitiveType(primitive: Primitive)
    | Class(flags: set<Flag>, fqn: string, kind: Kind, members: seq<Ref>, interfaces: seq<Ref>,
            methods: seq<Ref>, supertype: Option<Ref>, owningClass: Option<Ref>, annotations: seq<Ref>)
    | ShallowClass(fqn: string)
    | Cyclic(fqn: string)
    | Parameterized(rawType: Ref, typeParameters: seq<Ref>)
    | GenericTypeVariable(fqn: string, bound: Option<Ref>)
    | Array(elemType: Option<Ref>)
    | MultiCatch(throwableTypes: seq<Ref>)
    | Variable(name: string, owner: Ref, varType: Option<Ref>, annotations: seq<Ref>, flags: set<Flag>)
    | Method(flags: set<Flag>, declaringType: Ref, name: string, genericSignature: Option<Signature>,
             resolvedSignature: Option<Signature>, paramNames: seq<string>, thrownExceptions: seq<Ref>,
             annotations: seq<Ref>)

  // ---------------------------------------------------------------------------
  // Primitive keywords

  function Keyword(p: Primitive): (r: string)
    ensures FromKeyword(r) == Some(p)
  {
    match p
    case Boolean => "boolean"
    case Byte => "byte"
    case Char => "char"
    case Double => "double"
    case Float => "float"
    case Int => "int"
    case Long => "long"
    case Short => "short"
    case Void => "void"
    case String => "String"
    case Wildcard => "*"
    case Null => "null"
    case NoneType => ""
  }

  /** Primitive.fromKeyword: the primitive whose keyword is `s`, or null. */
  function FromKeyword(s: string): (r: Option<Primitive>)
  {
    if s == "boolean" then Some(Boolean)
    else if s == "byte" then Some(Byte)
    else if s == "char" then Some(Char)
    else if s == "double" then Some(Double)
    else if s == "float" then Some(Float)
    else if s == "int" then Some(Int)
    else if s == "long" then Some(Long)
    else if s == "short" then Some(Short)
    else if s == "void" then Some(Void)
    else if s == "String" then Some(String)
    else if s == "*" then Some(Wildcard)
    else if s == "null" then Some(Null)
    else if s == "" then Some(NoneType)
    else None
  }

  /** fromKeyword only recognises keywords: it is the exact inverse of getKeyword. */
  lemma FromKeywordInverse(s: string)
    ensures FromKeyword(s).Some? ==> Keyword(FromKeyword(s).value) == s
    ensures FromKeyword(s).None? ==> forall p: Primitive :: Keyword(p) != s
  {
  }

  function Ordinal(p: Primitive): (r: nat)
    ensures r < 13 && PrimitiveAt(r) == p
  {
    match p
    case Boolean => 0
    case Byte => 1
    case Char => 2
    case Double => 3
    case Float => 4
    case Int => 5
    case Long => 6
    case Short => 7
    case Void => 8
    case String => 9
    case NoneType => 10
    case Wildcard => 11
    case Null => 12
  }

  function PrimitiveAt(k: nat): Primitive
    requires k < 13
  {
    [Boolean, Byte, Char, Double, Float, Int, Long, Short, Void, String, NoneType, Wildcard, Null][k]
  }

  /** Class.OBJECT, built from "java.lang.Object" when the registry starts. */
  const OBJECT: Ref := 13
  const ObjectName: string := "java.lang.Object"
  const ObjectDesc: Desc := Class({Public}, ObjectName, ClassKind, [], [], [], None, None, [])

  // ---------------------------------------------------------------------------
  // Shape of the arena

  predicate AllBelow(xs: seq<Ref>, b: nat) { forall k :: 0 <= k < |xs| ==> xs[k] < b }

  predicate OptBelow(o: Option<Ref>, b: nat) { o.Some? ==> o.value < b }

  predicate SigBelow(s: Option<Signature>, b: nat)
  {
    s.Some? ==> OptBelow(s.value.returnType, b) && AllBelow(s.value.paramTypes, b)
  }

  /** Every reference held by `d` is below `b`. */
  predicate Below(d: Desc, b: nat)
  {
    match d
    case PrimitiveType(_) => true
    case Class(_, _, _, ms, ifs, mts, st, oc, an) =>
      AllBelow(ms, b) && AllBelow(ifs, b) && AllBelow(mts, b) && OptBelow(st, b) && OptBelow(oc, b) && AllBelow(an, b)
    case ShallowClass(_) => true
    case Cyclic(_) => true
    case Parameterized(t, ps) => t < b && AllBelow(ps, b)
    case GenericTypeVariable(_, bd) => OptBelow(bd, b)
    case Array(e) => OptBelow(e, b)
    case MultiCatch(ts) => AllBelow(ts, b)
    case Variable(_, o, t, an, _) => o < b && OptBelow(t, b) && AllBelow(an, b)
    case Method(_, dt, _, g, r, _, th, an) => dt < b && SigBelow(g, b) && SigBelow(r, b) && AllBelow(th, b) && AllBelow(an, b)
  }

  predicate Acyclic(a: seq<Desc>)
  {
    forall i :: 0 <= i < |a| ==> Below(a[i], i)
  }

  /** JavaType.FullyQualified: the classes, shallow/cyclic placeholders, parameterized types and type variables. */
  predicate IsFullyQualified(d: Desc)
  {
    d.Class? || d.ShallowClass? || d.Cyclic? || d.Parameterized? || d.GenericTypeVariable?
  }

  predicate IsFQ(a: seq<Desc>, r: Ref) { r < |a| && IsFullyQualified(a[r]) }

  predicate AllFQ(a: seq<Desc>, xs: seq<Ref>) { forall k :: 0 <= k < |xs| ==> IsFQ(a, xs[k]) }

  predicate OptFQ(a: seq<Desc>, o: Option<Ref>) { o.Some? ==> IsFQ(a, o.value) }

  predicate AllVariables(a: seq<Desc>, xs: seq<Ref>) { forall k :: 0 <= k < |xs| ==> xs[k] < |a| && a[xs[k]].Variable? }

  predicate AllMethods(a: seq<Desc>, xs: seq<Ref>) { forall k :: 0 <= k < |xs| ==> xs[k] < |a| && a[xs[k]].Method? }

  /** The static types of the source's fields: the references typed FullyQualified point at such objects. */
  predicate Typed(a: seq<Desc>, d: Desc)
  {
    match d
    case Class(_, _, _, ms, ifs, mts, st, oc, an) =>
      AllVariables(a, ms) && AllMethods(a, mts) && AllFQ(a, ifs) && OptFQ(a, st) && OptFQ(a, oc) && AllFQ(a, an)
    case Parameterized(t, _) => IsFQ(a, t)
    case GenericTypeVariable(_, bd) => OptFQ(a, bd)
    case Variable(_, o, _, an, _) => IsFQ(a, o) && AllFQ(a, an)
    case Method(_, dt, _, _, _, _, th, an) => IsFQ(a, dt) && AllFQ(a, th) && AllFQ(a, an)
    case _ => true
  }

  /** The primitive singletons at 0..12, Class.OBJECT at 13, and an acyclic, well-typed heap. */
  predicate WellFormed(a: seq<Desc>)
  {
    && |a| >= 14
    && (forall k :: 0 <= k < 13 ==> a[k] == PrimitiveType(PrimitiveAt(k)))
    && a[OBJECT] == ObjectDesc
    && Acyclic(a)
    && (forall i :: 0 <= i < |a| ==> Typed(a, a[i]))
  }

  function InitialArena(): (a: seq<Desc>)
    ensures WellFormed(a) && |a| == 14
  {
    seq(13, k requires 0 <= k < 13 => PrimitiveType(PrimitiveAt(k))) + [ObjectDesc]
  }

  lemma PrimitiveRefs(a: seq<Desc>, p: Primitive)
    requires WellFormed(a)
    ensures a[Ordinal(p)] == PrimitiveType(p)
  {
  }

  /** A fully-qualified reference other than OBJECT lies above OBJECT. */
  lemma FQAboveObject(a: seq<Desc>, r: Ref)
    requires WellFormed(a) && IsFQ(a, r)
    ensures r >= OBJECT
  {
  }

  /** Appending a descriptor that only refers to existing, correctly typed objects keeps the arena well formed. */
  lemma AppendWellFormed(a: seq<Desc>, d: Desc)
    requires WellFormed(a) && Below(d, |a|) && Typed(a, d)
    ensures WellFormed(a + [d])
  {
    var a' := a + [d];
    forall i | 0 <= i < |a'| ensures Typed(a', a'[i]) {
      TypedExtends(a, a', a'[i]);
    }
  }

  lemma TypedExtends(a: seq<Desc>, a': seq<Desc>, d: Desc)
    requires Typed(a, d) && a <= a'
    ensures Typed(a', d)
  {
    assert forall r: Ref :: IsFQ(a, r) ==> IsFQ(a', r) by {
      forall r: Ref | IsFQ(a, r) ensures IsFQ(a', r) { assert a'[r] == a[r]; }
    }
    assert forall r: Ref :: r < |a| ==> a'[r] == a[r];
  }

  // ---------------------------------------------------------------------------
  // deepEquals (with TypeUtils.deepEquals taken as null-safe and element-wise on lists)

  /** `i.deepEquals(j)`: identical, or structurally equal as each class's deepEquals defines it. */
  function DeepEqRef(a: seq<Desc>, i: Ref, j: Ref): bool
    requires Acyclic(a) && i < |a| && j < |a|
    decreases i + j + 1, 3, 0
  {
    i == j || DeepEqDesc(a, a[i], i, a[j], j)
  }

  /** TypeUtils.deepEquals on two nullable types. */
  function DeepEqOpt(a: seq<Desc>, x: Option<Ref>, bx: nat, y: Option<Ref>, bw: nat): bool
    requires Acyclic(a) && bx <= |a| && bw <= |a| && OptBelow(x, bx) && OptBelow(y, bw)
    decreases bx + bw, 0, 0
  {
    if x.Some? && y.Some? then DeepEqRef(a, x.value, y.value) else x.None? && y.None?
  }

  /** TypeUtils.deepEquals on two lists. */
  function DeepEqList(a: seq<Desc>, xs: seq<Ref>, bx: nat, ys: seq<Ref>, bw: nat): bool
    requires Acyclic(a) && bx <= |a| && bw <= |a| && AllBelow(xs, bx) && AllBelow(ys, bw)
    decreases bx + bw, 0, |xs|
  {
    |xs| == |ys| && (|xs| == 0 || (DeepEqRef(a, xs[0], ys[0]) && DeepEqList(a, xs[1..], bx, ys[1..], bw)))
  }

  /** Method.signatureDeepEquals */
  function DeepEqSig(a: seq<Desc>, s: Option<Signature>, bs: nat, t: Option<Signature>, bt: nat): bool
    requires Acyclic(a) && bs <= |a| && bt <= |a| && SigBelow(s, bs) && SigBelow(t, bt)
    decreases bs + bt, 1, 0
  {
    if s.None? then t.None?
    else
      t.Some?
      && DeepEqOpt(a, s.value.returnType, bs, t.value.returnType, bt)
      && DeepEqList(a, s.value.paramTypes, bs, t.value.paramTypes, bt)
  }

  /**
   * `d.deepEquals(e)` for two objects whose references lie below `bd` and `be`.
   * Class compares kind, flags, name, members, interfaces, supertype and
   * annotations (not methods, not owningClass); Method compares everything but
   * its name; Array needs a non-null element type on both sides.
   */
  function DeepEqDesc(a: seq<Desc>, d: Desc, bd: nat, e: Desc, be: nat): bool
    requires Acyclic(a) && bd <= |a| && be <= |a| && Below(d, bd) && Below(e, be)
    decreases bd + be, 2, 0
  {
    match d
    case PrimitiveType(p) => e.PrimitiveType? && p == e.primitive
    case Class(f, n, k, ms, ifs, _, st, _, an) =>
      && e.Class? && k == e.kind && f == e.flags && n == e.fqn
      && DeepEqList(a, ms, bd, e.members, be) && DeepEqList(a, ifs, bd, e.interfaces, be)
      && DeepEqOpt(a, st, bd, e.supertype, be) && DeepEqList(a, an, bd, e.annotations, be)
    case ShallowClass(n) => e.ShallowClass? && n == e.fqn
    case Cyclic(n) => e.Cyclic? && n == e.fqn
    case Parameterized(t, ps) =>
      e.Parameterized? && DeepEqRef(a, t, e.rawType) && DeepEqList(a, ps, bd, e.typeParameters, be)
    case GenericTypeVariable(n, b) =>
      e.GenericTypeVariable? && n == e.fqn && DeepEqOpt(a, b, bd, e.bound, be)
    case Array(el) =>
      e.Array? && el.Some? && e.elemType.Some? && DeepEqRef(a, el.value, e.elemType.value)
    case MultiCatch(ts) => e.MultiCatch? && DeepEqList(a, ts, bd, e.throwableTypes, be)
    case Variable(n, o, t, an, f) =>
      && e.Variable? && n == e.name && f == e.flags && DeepEqRef(a, o, e.owner)
      && DeepEqOpt(a, t, bd, e.varType, be) && DeepEqList(a, an, bd, e.annotations, be)
    case Method(f, dt, _, g, r, pn, th, an) =>
      && e.Method? && pn == e.paramNames && f == e.flags && DeepEqRef(a, dt, e.declaringType)
      && DeepEqSig(a, g, bd, e.genericSignature, be) && DeepEqSig(a, r, bd, e.resolvedSignature, be)
      && DeepEqList(a, th, bd, e.thrownExceptions, be) && DeepEqList(a, an, bd, e.annotations, be)
  }

  lemma {:induction false} DeepEqListRefl(a: seq<Desc>, xs: seq<Ref>, bx: nat, bw: nat)
    requires Acyclic(a) && bx <= |a| && bw <= |a| && AllBelow(xs, bx) && AllBelow(xs, bw)
    ensures DeepEqList(a, xs, bx, xs, bw)
    decreases |xs|
  {
    if |xs| > 0 {
      DeepEqListRefl(a, xs[1..], bx, bw);
    }
  }

  /**
   * Every object is deep-equal to itself, whatever bounds its references are
   * checked against, except an array with a null element type (which only its
   * own identity matches).
   */
  lemma DeepEqDescRefl(a: seq<Desc>, d: Desc, bd: nat, be: nat)
    requires Acyclic(a) && bd <= |a| && be <= |a| && Below(d, bd) && Below(d, be)
    requires !(d.Array? && d.elemType.None?)
    ensures DeepEqDesc(a, d, bd, d, be)
  {
    match d
    case Class(_, _, _, ms, ifs, _, _, _, an) =>
      DeepEqListRefl(a, ms, bd, be);
      DeepEqListRefl(a, ifs, bd, be);
      DeepEqListRefl(a, an, bd, be);
    case Parameterized(_, ps) =>
      DeepEqListRefl(a, ps, bd, be);
    case MultiCatch(ts) =>
      DeepEqListRefl(a, ts, bd, be);
    case Variable(_, _, _, an, _) =>
      DeepEqListRefl(a, an, bd, be);
    case Method(_, _, _, g, r, _, th, an) =>
      if g.Some? { DeepEqListRefl(a, g.value.paramTypes, bd, be); }
      assert DeepEqSig(a, g, bd, g, be);
      if r.Some? { DeepEqListRefl(a, r.value.paramTypes, bd, be); }
      assert DeepEqSig(a, r, bd, r, be);
      DeepEqListRefl(a, th, bd, be);
      DeepEqListRefl(a, an, bd, be);
    case _ =>
  }

  /** Method.deepEquals never looks at the method's name. */
  lemma MethodDeepEqualsIgnoresName(a: seq<Desc>, m: Desc, b: nat, otherName: string)
    requires Acyclic(a) && b <= |a| && m.Method? && Below(m, b)
    ensures DeepEqDesc(a, m, b, Method(m.flags, m.declaringType, otherName, m.genericSignature,
      m.resolvedSignature, m.paramNames, m.thrownExceptions, m.annotations), b)
  {
    DeepEqDescRefl(a, m, b, b);
  }

  // Deep equality of existing objects does not change when the arena grows.

  lemma {:induction false} DeepEqRefExtends(a: seq<Desc>, a': seq<Desc>, i: Ref, j: Ref)
    requires Acyclic(a) && Acyclic(a') && a <= a' && i < |a| && j < |a|
    ensures DeepEqRef(a, i, j) == DeepEqRef(a', i, j)
    decreases i + j + 1, 3, 0
  {
    assert a'[i] == a[i] && a'[j] == a[j];
    DeepEqDescExtends(a, a', a[i], i, a[j], j);
  }

  lemma {:induction false} DeepEqOptExtends(a: seq<Desc>, a': seq<Desc>, x: Option<Ref>, bx: nat, y: Option<Ref>, bw: nat)
    requires Acyclic(a) && Acyclic(a') && a <= a' && bx <= |a| && bw <= |a| && OptBelow(x, bx) && OptBelow(y, bw)
    ensures DeepEqOpt(a, x, bx, y, bw) == DeepEqOpt(a', x, bx, y, bw)
    decreases bx + bw, 0, 0
  {
    if x.Some? && y.Some? {
      DeepEqRefExtends(a, a', x.value, y.value);
    }
  }

  lemma {:induction false} DeepEqListExtends(a: seq<Desc>, a': seq<Desc>, xs: seq<Ref>, bx: nat, ys: seq<Ref>, bw: nat)
    requires Acyclic(a) && Acyclic(a') && a <= a' && bx <= |a| && bw <= |a| && AllBelow(xs, bx) && AllBelow(ys, bw)
    ensures DeepEqList(a, xs, bx, ys, bw) == DeepEqList(a', xs, bx, ys, bw)
    decreases bx + bw, 0, |xs|
  {
    if |xs| == |ys| && |xs| > 0 {
      DeepEqRefExtends(a, a', xs[0], ys[0]);
      DeepEqListExtends(a, a', xs[1..], bx, ys[1..], bw);
    }
  }

  lemma {:induction false} DeepEqSigExtends(a: seq<Desc>, a': seq<Desc>, s: Option<Signature>, bs: nat, t: Option<Signature>, bt: nat)
    requires Acyclic(a) && Acyclic(a') && a <= a' && bs <= |a| && bt <= |a| && SigBelow(s, bs) && SigBelow(t, bt)
    ensures DeepEqSig(a, s, bs, t, bt) == DeepEqSig(a', s, bs, t, bt)
    decreases bs + bt, 1, 0
  {
    if s.Some? && t.Some? {
      DeepEqOptExtends(a, a', s.value.returnType, bs, t.value.returnType, bt);
      DeepEqListExtends(a, a', s.value.paramTypes, bs, t.value.paramTypes, bt);
    }
  }

  lemma {:induction false} DeepEqDescExtends(a: seq<Desc>, a': seq<Desc>, d: Desc, bd: nat, e: Desc, be: nat)
    requires Acyclic(a) && Acyclic(a') && a <= a' && bd <= |a| && be <= |a| && Below(d, bd) && Below(e, be)
    ensures DeepEqDesc(a, d, bd, e, be) == DeepEqDesc(a', d, bd, e, be)
    decreases bd + be, 2, 0
  {
    match d
    case Class(_, _, _, m1, i1, _, s1, _, an1) =>
      if e.Class? {
        DeepEqListExtends(a, a', m1, bd, e.members, be);
        DeepEqListExtends(a, a', i1, bd, e.interfaces, be);
        DeepEqOptExtends(a, a', s1, bd, e.supertype, be);
        DeepEqListExtends(a, a', an1, bd, e.annotations, be);
      }
    case Parameterized(t1, ps1) =>
      if e.Parameterized? {
        DeepEqRefExtends(a, a', t1, e.rawType);
        DeepEqListExtends(a, a', ps1, bd, e.typeParameters, be);
      }
    case GenericTypeVariable(_, b1) =>
      if e.GenericTypeVariable? {
        DeepEqOptExtends(a, a', b1, bd, e.bound, be);
      }
    case Array(e1) =>
      if e.Array? && e1.Some? && e.elemType.Some? {
        DeepEqRefExtends(a, a', e1.value, e.elemType.value);
      }
    case MultiCatch(t1) =>
      if e.MultiCatch? {
        DeepEqListExtends(a, a', t1, bd, e.throwableTypes, be);
      }
    case Variable(_, o1, t1, an1, _) =>
      if e.Variable? {
        DeepEqRefExtends(a, a', o1, e.owner);
        DeepEqOptExtends(a, a', t1, bd, e.varType, be);
        DeepEqListExtends(a, a', an1, bd, e.annotations, be);
      }
    case Method(_, dt1, _, g1, r1, _, th1, an1) =>
      if e.Method? {
        DeepEqRefExtends(a, a', dt1, e.declaringType);
        DeepEqSigExtends(a, a', g1, bd, e.genericSignature, be);
        DeepEqSigExtends(a, a', r1, bd, e.resolvedSignature, be);
        DeepEqListExtends(a, a', th1, bd, e.thrownExceptions, be);
        DeepEqListExtends(a, a', an1, bd, e.annotations, be);
      }
    case _ =>
  }

  /** The bounds only serve termination: the verdict on lists does not depend on them. */
  lemma {:induction false} DeepEqListBounds(a: seq<Desc>, xs: seq<Ref>, bx: nat, ys: seq<Ref>, bw: nat, bx2: nat, bw2: nat)
    requires Acyclic(a) && bx <= |a| && bw <= |a| && AllBelow(xs, bx) && AllBelow(ys, bw)
    requires bx2 <= |a| && bw2 <= |a| && AllBelow(xs, bx2) && AllBelow(ys, bw2)
    ensures DeepEqList(a, xs, bx, ys, bw) == DeepEqList(a, xs, bx2, ys, bw2)
    decreases |xs|
  {
    if |xs| == |ys| && |xs| > 0 {
      DeepEqListBounds(a, xs[1..], bx, ys[1..], bw, bx2, bw2);
    }
  }

  lemma DeepEqSigBounds(a: seq<Desc>, s: Option<Signature>, bs: nat, t: Option<Signature>, bt: nat, bs2: nat, bt2: nat)
    requires Acyclic(a) && bs <= |a| && bt <= |a| && SigBelow(s, bs) && SigBelow(t, bt)
    requires bs2 <= |a| && bt2 <= |a| && SigBelow(s, bs2) && SigBelow(t, bt2)
    ensures DeepEqSig(a, s, bs, t, bt) == DeepEqSig(a, s, bs2, t, bt2)
  {
    if s.Some? && t.Some? {
      DeepEqListBounds(a, s.value.paramTypes, bs, t.value.paramTypes, bt, bs2, bt2);
    }
  }

  /** deepEquals on two objects does not depend on the bounds their references are checked against. */
  lemma DeepEqDescBounds(a: seq<Desc>, d: Desc, bd: nat, e: Desc, be: nat, bd2: nat, be2: nat)
    requires Acyclic(a) && bd <= |a| && be <= |a| && Below(d, bd) && Below(e, be)
    requires bd2 <= |a| && be2 <= |a| && Below(d, bd2) && Below(e, be2)
    ensures DeepEqDesc(a, d, bd, e, be) == DeepEqDesc(a, d, bd2, e, be2)
  {
    match d
    case Class(_, _, _, m1, i1, _, _, _, an1) =>
      if e.Class? {
        DeepEqListBounds(a, m1, bd, e.members, be, bd2, be2);
        DeepEqListBounds(a, i1, bd, e.interfaces, be, bd2, be2);
        DeepEqListBounds(a, an1, bd, e.annotations, be, bd2, be2);
      }
    case Parameterized(_, ps1) =>
      if e.Parameterized? {
        DeepEqListBounds(a, ps1, bd, e.typeParameters, be, bd2, be2);
      }
    case MultiCatch(t1) =>
      if e.MultiCatch? {
        DeepEqListBounds(a, t1, bd, e.throwableTypes, be, bd2, be2);
      }
    case Variable(_, _, _, an1, _) =>
      if e.Variable? {
        DeepEqListBounds(a, an1, bd, e.annotations, be, bd2, be2);
      }
    case Method(_, _, _, g1, r1, _, th1, an1) =>
      if e.Method? {
        DeepEqSigBounds(a, g1, bd, e.genericSignature, be, bd2, be2);
        DeepEqSigBounds(a, r1, bd, e.resolvedSignature, be, bd2, be2);
        DeepEqListBounds(a, th1, bd, e.thrownExceptions, be, bd2, be2);
        DeepEqListBounds(a, an1, bd, e.annotations, be, bd2, be2);
      }
    case _ =>
  }

  // ---------------------------------------------------------------------------
  // Java `equals`, as the classes' Lombok annotations define it: identity for
  // Class, Method and the primitives; field-wise for the value-like classes.
  // The interning buckets of Variable.build and Method.build are keyed by it.

  function JEqRef(a: seq<Desc>, i: Ref, j: Ref): bool
    requires Acyclic(a) && i < |a| && j < |a|
    decreases i + j + 1, 2, 0
  {
    i == j || JEqDesc(a, a[i], i, a[j], j)
  }

  function JEqDesc(a: seq<Desc>, d: Desc, bd: nat, e: Desc, be: nat): bool
    requires Acyclic(a) && bd <= |a| && be <= |a| && Below(d, bd) && Below(e, be)
    decreases bd + be, 1, 0
  {
    match d
    case ShallowClass(n) => e.ShallowClass? && n == e.fqn
    case Cyclic(n) => e.Cyclic? && n == e.fqn
    case Parameterized(t, ps) =>
      e.Parameterized? && JEqRef(a, t, e.rawType) && JEqList(a, ps, bd, e.typeParameters, be)
    case GenericTypeVariable(n, b) =>
      e.GenericTypeVariable? && n == e.fqn && JEqOpt(a, b, bd, e.bound, be)
    case Array(el) => e.Array? && JEqOpt(a, el, bd, e.elemType, be)
    case MultiCatch(ts) => e.MultiCatch? && JEqList(a, ts, bd, e.throwableTypes, be)
    case Variable(n, o, t, an, f) =>
      && e.Variable? && n == e.name && f == e.flags && JEqRef(a, o, e.owner)
      && JEqOpt(a, t, bd, e.varType, be) && JEqList(a, an, bd, e.annotations, be)
    case _ => false
  }

  /** Objects.equals on two nullable types. */
  function JEqOpt(a: seq<Desc>, x: Option<Ref>, bx: nat, y: Option<Ref>, bw: nat): bool
    requires Acyclic(a) && bx <= |a| && bw <= |a| && OptBelow(x, bx) && OptBelow(y, bw)
    decreases bx + bw, 0, 0
  {
    if x.Some? && y.Some? then JEqRef(a, x.value, y.value) else x.None? && y.None?
  }

  function JEqList(a: seq<Desc>, xs: seq<Ref>, bx: nat, ys: seq<Ref>, bw: nat): bool
    requires Acyclic(a) && bx <= |a| && bw <= |a| && AllBelow(xs, bx) && AllBelow(ys, bw)
    decreases bx + bw, 0, |xs|
  {
    |xs| == |ys| && (|xs| == 0 || (JEqRef(a, xs[0], ys[0]) && JEqList(a, xs[1..], bx, ys[1..], bw)))
  }

  lemma {:induction false} JEqRefExtends(a: seq<Desc>, a': seq<Desc>, i: Ref, j: Ref)
    requires Acyclic(a) && Acyclic(a') && a <= a' && i < |a| && j < |a|
    ensures JEqRef(a, i, j) == JEqRef(a', i, j)
    decreases i + j + 1, 2, 0
  {
    assert a'[i] == a[i] && a'[j] == a[j];
    JEqDescExtends(a, a', a[i], i, a[j], j);
  }

  lemma {:induction false} JEqDescExtends(a: seq<Desc>, a': seq<Desc>, d: Desc, bd: nat, e: Desc, be: nat)
    requires Acyclic(a) && Acyclic(a') && a <= a' && bd <= |a| && be <= |a| && Below(d, bd) && Below(e, be)
    ensures JEqDesc(a, d, bd, e, be) == JEqDesc(a', d, bd, e, be)
    decreases bd + be, 1, 0
  {
    match d
    case Parameterized(t1, ps1) =>
      if e.Parameterized? {
        JEqRefExtends(a, a', t1, e.rawType);
        JEqListExtends(a, a', ps1, bd, e.typeParameters, be);
      }
    case GenericTypeVariable(_, b1) =>
      if e.GenericTypeVariable? {
        JEqOptExtends(a, a', b1, bd, e.bound, be);
      }
    case Array(e1) =>
      if e.Array? {
        JEqOptExtends(a, a', e1, bd, e.elemType, be);
      }
    case MultiCatch(t1) =>
      if e.MultiCatch? {
        JEqListExtends(a, a', t1, bd, e.throwableTypes, be);
      }
    case Variable(_, o1, t1, an1, _) =>
      if e.Variable? {
        JEqRefExtends(a, a', o1, e.owner);
        JEqOptExtends(a, a', t1, bd, e.varType, be);
        JEqListExtends(a, a', an1, bd, e.annotations, be);
      }
    case _ =>
  }

  lemma {:induction false} JEqOptExtends(a: seq<Desc>, a': seq<Desc>, x: Option<Ref>, bx: nat, y: Option<Ref>, bw: nat)
    requires Acyclic(a) && Acyclic(a') && a <= a' && bx <= |a| && bw <= |a| && OptBelow(x, bx) && OptBelow(y, bw)
    ensures JEqOpt(a, x, bx, y, bw) == JEqOpt(a', x, bx, y, bw)
    decreases bx + bw, 0, 0
  {
    if x.Some? && y.Some? {
      JEqRefExtends(a, a', x.value, y.value);
    }
  }

  lemma {:induction false} JEqListExtends(a: seq<Desc>, a': seq<Desc>, xs: seq<Ref>, bx: nat, ys: seq<Ref>, bw: nat)
    requires Acyclic(a) && Acyclic(a') && a <= a' && bx <= |a| && bw <= |a| && AllBelow(xs, bx) && AllBelow(ys, bw)
    ensures JEqList(a, xs, bx, ys, bw) == JEqList(a', xs, bx, ys, bw)
    decreases bx + bw, 0, |xs|
  {
    if |xs| == |ys| && |xs| > 0 {
      JEqRefExtends(a, a', xs[0], ys[0]);
      JEqListExtends(a, a', xs[1..], bx, ys[1..], bw);
    }
  }

  // ---------------------------------------------------------------------------
  // The FullyQualified accessors.  Shallow and cyclic placeholders answer with
  // empty lists and OBJECT as supertype; a parameterized type forwards to its
  // raw type; a type variable forwards to its bound, or answers empty/null.

  function FullyQualifiedName(a: seq<Desc>, i: Ref): string
    requires Acyclic(a) && i < |a|
    decreases i
  {
    match a[i]
    case Class(_, n, _, _, _, _, _, _, _) => n
    case ShallowClass(n) => n
    case Cyclic(n) => n
    case GenericTypeVariable(n, _) => n
    case Parameterized(t, _) => FullyQualifiedName(a, t)
    case _ => ""
  }

  function KindOf(a: seq<Desc>, i: Ref): Kind
    requires Acyclic(a) && i < |a|
    decreases i
  {
    match a[i]
    case Class(_, _, k, _, _, _, _, _, _) => k
    case Parameterized(t, _) => KindOf(a, t)
    case _ => ClassKind
  }

  function FlagsOf(a: seq<Desc>, i: Ref): set<Flag>
    requires Acyclic(a) && i < |a|
    decreases i
  {
    match a[i]
    case Class(f, _, _, _, _, _, _, _, _) => f
    case Variable(_, _, _, _, f) => f
    case Method(f, _, _, _, _, _, _, _) => f
    case ShallowClass(_) => {Public}
    case Cyclic(_) => {Public}
    case Parameterized(t, _) => FlagsOf(a, t)
    case GenericTypeVariable(_, b) => if b.Some? then FlagsOf(a, b.value) else {}
    case _ => {}
  }

  /** Flag.hasFlags on a flag set: every tested flag is present. */
  predicate FlagSetHas(flags: set<Flag>, test: seq<Flag>) { forall t :: t in test ==> t in flags }

  /**
   * hasFlags as the source writes it.  Parameterized.hasFlags calls
   * `type.hasFlags()` without forwarding `test`.
   */
  function HasFlagsAsWritten(a: seq<Desc>, i: Ref, test: seq<Flag>): (r: bool)
    requires Acyclic(a) && i < |a|
    ensures a[i].Parameterized? && a[a[i].rawType].ShallowClass? ==> !r
    decreases i
  {
    match a[i]
    case Class(f, _, _, _, _, _, _, _, _) => FlagSetHas(f, test)
    case Variable(_, _, _, _, f) => FlagSetHas(f, test)
    case Method(f, _, _, _, _, _, _, _) => FlagSetHas(f, test)
    case ShallowClass(_) => |test| == 1 && test[0] == Public
    case Cyclic(_) => |test| == 1 && test[0] == Public
    case Parameterized(t, _) => HasFlagsAsWritten(a, t, [])
    case GenericTypeVariable(_, b) => b.Some? && HasFlagsAsWritten(a, b.value, test)
    case _ => false
  }

  /** hasFlags with the tested flags forwarded to the raw type. */
  function HasFlags(a: seq<Desc>, i: Ref, test: seq<Flag>): (r: bool)
    requires Acyclic(a) && i < |a|
    ensures a[i].Parameterized? ==> r == HasFlags(a, a[i].rawType, test)
    ensures a[i].ShallowClass? || a[i].Cyclic? ==> (r <==> test == [Public])
    ensures a[i].Class? || a[i].Variable? || a[i].Method? ==> (r <==> forall t :: t in test ==> t in FlagsOf(a, i))
    decreases i
  {
    match a[i]
    case Class(f, _, _, _, _, _, _, _, _) => FlagSetHas(f, test)
    case Variable(_, _, _, _, f) => FlagSetHas(f, test)
    case Method(f, _, _, _, _, _, _, _) => FlagSetHas(f, test)
    case ShallowClass(_) => |test| == 1 && test[0] == Public
    case Cyclic(_) => |test| == 1 && test[0] == Public
    case Parameterized(t, _) => HasFlags(a, t, test)
    case GenericTypeVariable(_, b) => b.Some? && HasFlags(a, b.value, test)
    case _ => false
  }

  /** A parameterized type over a shallow class: the flag test it should pass and the one as written fails. */
  lemma ParameterizedHasFlagsDropsTest()
    ensures var a := InitialArena() + [ShallowClass("java.util.List"), Parameterized(14, [])];
      && WellFormed(a)
      && HasFlags(a, 14, [Public])
      && !HasFlagsAsWritten(a, 15, [Public])
      && HasFlags(a, 15, [Public])
  {
    var a0 := InitialArena();
    AppendWellFormed(a0, ShallowClass("java.util.List"));
    var a1 := a0 + [ShallowClass("java.util.List")];
    AppendWellFormed(a1, Parameterized(14, []));
    var a := a1 + [Parameterized(14, [])];
    assert a == InitialArena() + [ShallowClass("java.util.List"), Parameterized(14, [])];
    assert a[14] == ShallowClass("java.util.List") && a[15] == Parameterized(14, []);
  }

  /** getSupertype: always an earlier, fully-qualified object. */
  function Supertype(a: seq<Desc>, i: Ref): (r: Option<Ref>)
    requires WellFormed(a) && i < |a|
    ensures r.Some? ==> r.value < i && IsFQ(a, r.value)
    ensures a[i].Class? ==> r == a[i].supertype
    ensures a[i].ShallowClass? || a[i].Cyclic? ==> r == Some(OBJECT)
    ensures !IsFullyQualified(a[i]) ==> r.None?
    decreases i
  {
    match a[i]
    case Class(_, _, _, _, _, _, st, _, _) => st
    case ShallowClass(_) => FQAboveObject(a, i); Some(OBJECT)
    case Cyclic(_) => FQAboveObject(a, i); Some(OBJECT)
    case Parameterized(t, _) => Supertype(a, t)
    case GenericTypeVariable(_, b) => if b.Some? then Supertype(a, b.value) else None
    case _ => None
  }

  /** getInterfaces: earlier, fully-qualified objects. */
  function Interfaces(a: seq<Desc>, i: Ref): (r: seq<Ref>)
    requires WellFormed(a) && i < |a|
    ensures AllBelow(r, i) && AllFQ(a, r)
    ensures a[i].Class? ==> r == a[i].interfaces
    ensures !a[i].Class? && !a[i].Parameterized? && !a[i].GenericTypeVariable? ==> r == []
    decreases i
  {
    match a[i]
    case Class(_, _, _, _, ifs, _, _, _, _) => ifs
    case Parameterized(t, _) => Interfaces(a, t)
    case GenericTypeVariable(_, b) => if b.Some? then Interfaces(a, b.value) else []
    case _ => []
  }

  function Members(a: seq<Desc>, i: Ref): (r: seq<Ref>)
    requires WellFormed(a) && i < |a|
    ensures AllBelow(r, i)
    ensures a[i].Class? ==> r == a[i].members
    ensures a[i].ShallowClass? || a[i].Cyclic? ==> r == []
    decreases i
  {
    match a[i]
    case Class(_, _, _, ms, _, _, _, _, _) => ms
    case Parameterized(t, _) => Members(a, t)
    case GenericTypeVariable(_, b) => if b.Some? then Members(a, b.value) else []
    case _ => []
  }

  function Methods(a: seq<Desc>, i: Ref): (r: seq<Ref>)
    requires WellFormed(a) && i < |a|
    ensures AllBelow(r, i)
    ensures a[i].Class? ==> r == a[i].methods
    ensures a[i].ShallowClass? || a[i].Cyclic? ==> r == []
    decreases i
  {
    match a[i]
    case Class(_, _, _, _, _, mts, _, _, _) => mts
    case Parameterized(t, _) => Methods(a, t)
    case GenericTypeVariable(_, b) => if b.Some? then Methods(a, b.value) else []
    case _ => []
  }

  function OwningClass(a: seq<Desc>, i: Ref): (r: Option<Ref>)
    requires WellFormed(a) && i < |a|
    ensures r.Some? ==> r.value < i
    ensures !a[i].Class? && !a[i].Parameterized? && !a[i].GenericTypeVariable? ==> r.None?
    decreases i
  {
    match a[i]
    case Class(_, _, _, _, _, _, _, oc, _) => oc
    case Parameterized(t, _) => OwningClass(a, t)
    case GenericTypeVariable(_, b) => if b.Some? then OwningClass(a, b.value) else None
    case _ => None
  }

  function Annotations(a: seq<Desc>, i: Ref): (r: seq<Ref>)
    requires WellFormed(a) && i < |a|
    ensures AllBelow(r, i)
    ensures a[i].ShallowClass? || a[i].Cyclic? ==> r == []
    decreases i
  {
    match a[i]
    case Class(_, _, _, _, _, _, _, _, an) => an
    case Parameterized(t, _) => Annotations(a, t)
    case GenericTypeVariable(_, b) => if b.Some? then Annotations(a, b.value) else []
    case _ => []
  }

  predicate IsPrivate(a: seq<Desc>, m: Ref)
    requires Acyclic(a) && m < |a|
  {
    HasFlags(a, m, [Private])
  }

  function NonPrivate(a: seq<Desc>, ms: seq<Ref>): (r: seq<Ref>)
    requires Acyclic(a) && AllBelow(ms, |a|)
    ensures forall m :: m in r <==> m in ms && !IsPrivate(a, m)
    ensures |r| <= |ms|
  {
    if ms == [] then []
    else (if IsPrivate(a, ms[0]) then [] else [ms[0]]) + NonPrivate(a, ms[1..])
  }

  /**
   * getVisibleSupertypeMembers of a Class: the supertype's non-private
   * members, then the supertype's own visible supertype members.
   */
  function VisibleSupertypeMembers(a: seq<Desc>, i: Ref): (r: seq<Ref>)
    requires WellFormed(a) && i < |a|
    ensures forall m :: m in r ==> m < |a| && !IsPrivate(a, m)
    ensures a[i].Class? && a[i].supertype.None? ==> r == []
    ensures a[i].Class? && a[i].supertype.Some? ==>
      forall m :: m in Members(a, a[i].supertype.value) && !IsPrivate(a, m) ==> m in r
    ensures a[i].ShallowClass? || a[i].Cyclic? ==> r == []
    decreases i
  {
    match a[i]
    case Class(_, _, _, _, _, _, st, _, _) =>
      if st.Some? then NonPrivate(a, Members(a, st.value)) + VisibleSupertypeMembers(a, st.value) else []
    case Parameterized(t, _) => VisibleSupertypeMembers(a, t)
    case GenericTypeVariable(_, b) => if b.Some? then VisibleSupertypeMembers(a, b.value) else []
    case _ => []
  }

  lemma {:induction false} NonPrivateSnoc(a: seq<Desc>, ms: seq<Ref>, m: Ref)
    requires Acyclic(a) && AllBelow(ms, |a|) && m < |a|
    ensures NonPrivate(a, ms + [m]) == NonPrivate(a, ms) + (if IsPrivate(a, m) then [] else [m])
    decreases |ms|
  {
    if ms == [] {
      assert [] + [m] == [m];
    } else {
      assert (ms + [m])[1..] == ms[1..] + [m];
      NonPrivateSnoc(a, ms[1..], m);
    }
  }

  /** The loop of getVisibleSupertypeMembers over one supertype's members. */
  method CollectNonPrivate(a: seq<Desc>, own: seq<Ref>) returns (members: seq<Ref>)
    requires Acyclic(a) && AllBelow(own, |a|)
    ensures members == NonPrivate(a, own)
  {
    members := [];
    var k := 0;
    while k < |own|
      invariant 0 <= k <= |own|
      invariant members == NonPrivate(a, own[..k])
    {
      NonPrivateSnoc(a, own[..k], own[k]);
      assert own[..k + 1] == own[..k] + [own[k]];
      if !IsPrivate(a, own[k]) {
        members := members + [own[k]];
      }
      k := k + 1;
    }
    assert own[..|own|] == own;
  }

  /**
   * getVisibleSupertypeMembers as the source runs it: the supertype's
   * non-private members, then the supertype's own answer appended.
   */
  method CollectVisibleSupertypeMembers(a: seq<Desc>, i: Ref) returns (members: seq<Ref>)
    requires WellFormed(a) && i < |a|
    ensures members == VisibleSupertypeMembers(a, i)
    decreases i
  {
    match a[i]
    case Class(_, _, _, _, _, _, st, _, _) =>
      if st.Some? {
        members := CollectNonPrivate(a, Members(a, st.value));
        var inherited := CollectVisibleSupertypeMembers(a, st.value);
        members := members + inherited;
      } else {
        members := [];
      }
    case Parameterized(t, _) =>
      members := CollectVisibleSupertypeMembers(a, t);
    case GenericTypeVariable(_, b) =>
      if b.Some? {
        members := CollectVisibleSupertypeMembers(a, b.value);
      } else {
        members := [];
      }
    case _ =>
      members := [];
  }

  /** The members the walk collects belong to objects on the strict supertype chain. */
  ghost predicate OnSupertypeChain(a: seq<Desc>, i: Ref, s: Ref)
    requires WellFormed(a) && i < |a|
    decreases i
  {
    var st := Supertype(a, i);
    st.Some? && (st.value == s || OnSupertypeChain(a, st.value, s))
  }

  lemma {:induction false} VisibleMembersFromChain(a: seq<Desc>, i: Ref, m: Ref)
    requires WellFormed(a) && i < |a| && a[i].Class? && m in VisibleSupertypeMembers(a, i)
    ensures exists s :: 0 <= s < |a| && OnSupertypeChain(a, i, s) && m in Members(a, s)
    decreases i, 0
  {
    var st := a[i].supertype.value;
    if m in NonPrivate(a, Members(a, st)) {
      assert OnSupertypeChain(a, i, st);
    } else {
      assert m in VisibleSupertypeMembers(a, st);
      ChainMembers(a, st, m);
      var s :| 0 <= s < |a| && OnSupertypeChain(a, st, s) && m in Members(a, s);
      assert OnSupertypeChain(a, i, s);
    }
  }

  lemma {:induction false} ChainMembers(a: seq<Desc>, j: Ref, m: Ref)
    requires WellFormed(a) && j < |a| && m in VisibleSupertypeMembers(a, j)
    ensures exists s :: 0 <= s < |a| && OnSupertypeChain(a, j, s) && m in Members(a, s)
    decreases j, 1
  {
    match a[j]
    case Class(_, _, _, _, _, _, _, _, _) =>
      VisibleMembersFromChain(a, j, m);
    case Parameterized(t, _) =>
      ChainMembers(a, t, m);
      var s :| 0 <= s < |a| && OnSupertypeChain(a, t, s) && m in Members(a, s);
      ChainSame(a, j, t, s);
    case GenericTypeVariable(_, b) =>
      ChainMembers(a, b.value, m);
      var s :| 0 <= s < |a| && OnSupertypeChain(a, b.value, s) && m in Members(a, s);
      ChainSame(a, j, b.value, s);
  }

  /** The converse: every non-private member of every type on the supertype chain is collected. */
  lemma {:induction false} ChainMembersVisible(a: seq<Desc>, i: Ref, s: Ref, m: Ref)
    requires WellFormed(a) && i < |a| && s < |a| && m < |a|
    requires OnSupertypeChain(a, i, s) && m in Members(a, s) && !IsPrivate(a, m)
    ensures m in VisibleSupertypeMembers(a, i)
    decreases i
  {
    match a[i]
    case Class(_, _, _, _, _, _, st, _, _) =>
      if st.value != s {
        ChainMembersVisible(a, st.value, s, m);
      }
    case ShallowClass(_) =>
      ObjectEndsChain(a, s);
    case Cyclic(_) =>
      ObjectEndsChain(a, s);
    case Parameterized(t, _) =>
      ChainSame(a, i, t, s);
      ChainMembersVisible(a, t, s, m);
    case GenericTypeVariable(_, b) =>
      ChainSame(a, i, b.value, s);
      ChainMembersVisible(a, b.value, s, m);
  }

  /** Above a shallow or cyclic class the chain holds only OBJECT, which declares no members. */
  lemma ObjectEndsChain(a: seq<Desc>, s: Ref)
    requires WellFormed(a) && s < |a|
    ensures OnSupertypeChain(a, OBJECT, s) == false
    ensures Members(a, OBJECT) == []
  {
  }

  lemma ChainSame(a: seq<Desc>, j: Ref, t: Ref, s: Ref)
    requires WellFormed(a) && t < j < |a| && Supertype(a, j) == Supertype(a, t)
    ensures OnSupertypeChain(a, j, s) == OnSupertypeChain(a, t, s)
  {
  }

  // ---------------------------------------------------------------------------
  // isAssignableFrom

  /**
   * FullyQualified.isAssignableFrom(clazz): clazz is non-null and this is
   * OBJECT, or clazz has this name, or its supertype or one of its interfaces
   * is (recursively) assignable.
   */
  function IsAssignableFrom(a: seq<Desc>, t: Ref, c: Option<Ref>): bool
    requires WellFormed(a) && t < |a| && OptBelow(c, |a|)
    decreases if c.Some? then c.value + 1 else 0, 0, 0
  {
    c.Some? &&
    (t == OBJECT
     || FullyQualifiedName(a, t) == FullyQualifiedName(a, c.value)
     || IsAssignableFrom(a, t, Supertype(a, c.value))
     || AnyAssignable(a, t, Interfaces(a, c.value), c.value))
  }

  function AnyAssignable(a: seq<Desc>, t: Ref, ks: seq<Ref>, bound: Ref): bool
    requires WellFormed(a) && t < |a| && bound < |a| && AllBelow(ks, bound)
    decreases bound, 2, |ks|
  {
    |ks| > 0 && (IsAssignableFrom(a, t, Some(ks[0])) || AnyAssignable(a, t, ks[1..], bound))
  }

  /** `c` together with everything reachable from it through supertypes and interfaces. */
  ghost function Ancestry(a: seq<Desc>, c: Ref): (r: set<Ref>)
    requires WellFormed(a) && c < |a|
    ensures forall x :: x in r ==> x <= c
    decreases c, 1, 0
  {
    var st := Supertype(a, c);
    {c} + (if st.Some? then Ancestry(a, st.value) else {}) + AncestryAll(a, Interfaces(a, c), c)
  }

  ghost function AncestryAll(a: seq<Desc>, ks: seq<Ref>, bound: Ref): (r: set<Ref>)
    requires WellFormed(a) && bound < |a| && AllBelow(ks, bound)
    ensures forall x :: x in r ==> x < bound
    decreases bound, 0, |ks|
  {
    if ks == [] then {} else Ancestry(a, ks[0]) + AncestryAll(a, ks[1..], bound)
  }

  /** Some member of `s` carries the fully qualified name of `t`. */
  ghost predicate NamedIn(a: seq<Desc>, s: set<Ref>, t: Ref)
    requires Acyclic(a) && t < |a|
  {
    exists x :: x in s && x < |a| && FullyQualifiedName(a, x) == FullyQualifiedName(a, t)
  }

  lemma NamedInUnion(a: seq<Desc>, s1: set<Ref>, s2: set<Ref>, t: Ref)
    requires Acyclic(a) && t < |a|
    ensures NamedIn(a, s1 + s2, t) <==> NamedIn(a, s1, t) || NamedIn(a, s2, t)
  {
    if NamedIn(a, s1 + s2, t) {
      var x :| x in s1 + s2 && x < |a| && FullyQualifiedName(a, x) == FullyQualifiedName(a, t);
      if x in s1 { assert NamedIn(a, s1, t); } else { assert NamedIn(a, s2, t); }
    }
  }

  /** isAssignableFrom holds exactly when this is OBJECT or some ancestor of clazz carries this name. */
  lemma {:induction false} IsAssignableFromAncestry(a: seq<Desc>, t: Ref, c: Ref)
    requires WellFormed(a) && t < |a| && c < |a|
    ensures IsAssignableFrom(a, t, Some(c)) <==> (t == OBJECT || NamedIn(a, Ancestry(a, c), t))
    decreases c, 1, 0
  {
    var st := Supertype(a, c);
    var up := if st.Some? then Ancestry(a, st.value) else {};
    var side := AncestryAll(a, Interfaces(a, c), c);
    if st.Some? {
      IsAssignableFromAncestry(a, t, st.value);
    }
    AnyAssignableAncestry(a, t, Interfaces(a, c), c);
    NamedInUnion(a, {c}, up, t);
    NamedInUnion(a, {c} + up, side, t);
    assert NamedIn(a, {c}, t) <==> FullyQualifiedName(a, c) == FullyQualifiedName(a, t) by {
      if FullyQualifiedName(a, c) == FullyQualifiedName(a, t) { assert c in {c}; }
    }
  }

  lemma {:induction false} AnyAssignableAncestry(a: seq<Desc>, t: Ref, ks: seq<Ref>, bound: Ref)
    requires WellFormed(a) && t < |a| && bound < |a| && AllBelow(ks, bound)
    ensures AnyAssignable(a, t, ks, bound) <==> (|ks| > 0 && (t == OBJECT || NamedIn(a, AncestryAll(a, ks, bound), t)))
    decreases bound, 0, |ks|
  {
    if |ks| > 0 {
      IsAssignableFromAncestry(a, t, ks[0]);
      AnyAssignableAncestry(a, t, ks[1..], bound);
      NamedInUnion(a, Ancestry(a, ks[0]), AncestryAll(a, ks[1..], bound), t);
    }
  }

  // ---------------------------------------------------------------------------
  // getClassName / getPackageName.  Both split the name at every '.' (dropping
  // trailing empty segments, as String.split does) and read the first
  // character of a segment; an empty segment read that way makes the source
  // throw StringIndexOutOfBoundsException, modelled as None.

  /** The segments getClassName keeps: from the first segment not led by a lower-case letter on. */
  function ClassSegments(parts: seq<string>): (r: Option<seq<string>>)
    ensures r.Some? ==> |r.value| <= |parts|
    ensures r.Some? ==> r.value == parts[|parts| - |r.value|..]
    ensures r.Some? ==> forall k :: 0 <= k < |parts| - |r.value| ==> parts[k] != "" && IsLower(parts[k][0])
    ensures r.Some? && r.value != [] ==> r.value[0] != "" && !IsLower(r.value[0][0])
    ensures r.None? <==> exists k :: 0 <= k < |parts| && parts[k] == "" && forall q :: 0 <= q < k ==> parts[q] != "" && IsLower(parts[q][0])
  {
    if parts == [] then Some([])
    else if parts[0] == "" then None
    else if !IsLower(parts[0][0]) then Some(parts)
    else
      var rest := ClassSegments(parts[1..]);
      assert rest.None? ==> exists k :: 0 <= k < |parts| && parts[k] == "" && forall q :: 0 <= q < k ==> parts[q] != "" && IsLower(parts[q][0]) by {
        if rest.None? {
          var k :| 0 <= k < |parts[1..]| && parts[1..][k] == "" && forall q :: 0 <= q < k ==> parts[1..][q] != "" && IsLower(parts[1..][q][0]);
          assert parts[k + 1] == "";
          forall q | 0 <= q < k + 1 ensures parts[q] != "" && IsLower(parts[q][0]) {
            if q > 0 { assert parts[q] == parts[1..][q - 1]; }
          }
        }
      }
      rest
  }

  /** The segments getPackageName keeps: the leading segments not led by an upper-case letter. */
  function PackageSegments(parts: seq<string>): (r: Option<seq<string>>)
    ensures r.Some? ==> |r.value| <= |parts|
    ensures r.Some? ==> r.value == parts[..|r.value|]
    ensures r.Some? ==> forall k :: 0 <= k < |r.value| ==> parts[k] != "" && !IsUpper(parts[k][0])
    ensures r.Some? && |r.value| < |parts| ==> parts[|r.value|] != "" && IsUpper(parts[|r.value|][0])
    ensures r.None? <==> exists k :: 0 <= k < |parts| && parts[k] == "" && forall q :: 0 <= q < k ==> parts[q] != "" && !IsUpper(parts[q][0])
  {
    if parts == [] then Some([])
    else if parts[0] == "" then None
    else if IsUpper(parts[0][0]) then Some([])
    else
      var rest := PackageSegments(parts[1..]);
      assert rest.None? ==> exists k :: 0 <= k < |parts| && parts[k] == "" && forall q :: 0 <= q < k ==> parts[q] != "" && !IsUpper(parts[q][0]) by {
        if rest.None? {
          var k :| 0 <= k < |parts[1..]| && parts[1..][k] == "" && forall q :: 0 <= q < k ==> parts[1..][q] != "" && !IsUpper(parts[1..][q][0]);
          assert parts[k + 1] == "";
          forall q | 0 <= q < k + 1 ensures parts[q] != "" && !IsUpper(parts[q][0]) {
            if q > 0 { assert parts[q] == parts[1..][q - 1]; }
          }
        }
      }
      if rest.None? then None else Some([parts[0]] + rest.value)
  }

  function ClassName(fqn: string): Option<string>
  {
    var s := ClassSegments(SplitOn(fqn, '.'));
    if s.Some? then Some(Join(s.value, ".")) else None
  }

  function PackageName(fqn: string): Option<string>
  {
    var s := PackageSegments(SplitOn(fqn, '.'));
    if s.Some? then Some(Join(s.value, ".")) else None
  }

  predicate LetterLed(part: string) { part != "" && (IsUpper(part[0]) || IsLower(part[0])) }

  /** When every segment starts with an ASCII letter, package segments then class segments are exactly the segments. */
  lemma PackageThenClassSegments(parts: seq<string>)
    requires forall k :: 0 <= k < |parts| ==> LetterLed(parts[k])
    ensures PackageSegments(parts).Some? && ClassSegments(parts).Some?
    ensures PackageSegments(parts).value + ClassSegments(parts).value == parts
  {
    var pkg := PackageSegments(parts).value;
    var cls := ClassSegments(parts).value;
    var n := |parts| - |cls|;
    SplitPoint(parts, |pkg|, n);
    TakeDrop(parts, n);
  }

  /** The first upper-case-led segment and the first segment not led by a lower-case letter coincide. */
  lemma SplitPoint(parts: seq<string>, p: nat, n: nat)
    requires forall k :: 0 <= k < |parts| ==> LetterLed(parts[k])
    requires p <= |parts| && n <= |parts|
    requires forall k :: 0 <= k < p ==> parts[k] != "" && !IsUpper(parts[k][0])
    requires p < |parts| ==> parts[p] != "" && IsUpper(parts[p][0])
    requires forall k :: 0 <= k < n ==> parts[k] != "" && IsLower(parts[k][0])
    requires n < |parts| ==> parts[n] != "" && !IsLower(parts[n][0])
    ensures p == n
  {
    assert n < |parts| ==> LetterLed(parts[n]);
  }

  /** An example: in `a._b.C` the segment `_b`, led by neither a lower- nor an upper-case letter, lands in both the package and the class name. */
  lemma SegmentInBothNames()
    ensures PackageName("a._b.C") == Some("a._b")
    ensures ClassName("a._b.C") == Some("_b.C")
  {
    SplitExample();
    PackageExample();
    ClassExample();
    JoinExample();
  }

  lemma JoinExample()
    ensures Join(["a", "_b"], ".") == "a._b" && Join(["_b", "C"], ".") == "_b.C"
  {
    assert ["a", "_b"][1..] == ["_b"] && Join(["a", "_b"], ".") == "a" + "." + "_b" == "a._b";
    assert ["_b", "C"][1..] == ["C"] && Join(["_b", "C"], ".") == "_b" + "." + "C" == "_b.C";
  }

  lemma SplitExample()
    ensures SplitOn("a._b.C", '.') == ["a", "_b", "C"]
  {
    var s := "a._b.C";
    assert SplitAll(s[6..], '.') == [""];
    assert s[5..][1..] == s[6..] && s[5] == 'C' && ['C'] + "" == "C";
    assert SplitAll(s[5..], '.') == ["C"];
    assert s[4..][1..] == s[5..] && s[4] == '.';
    assert SplitAll(s[4..], '.') == ["", "C"];
    assert s[3..][1..] == s[4..] && s[3] == 'b' && ['b'] + "" == "b" && ["", "C"][1..] == ["C"];
    assert SplitAll(s[3..], '.') == ["b", "C"];
    assert s[2..][1..] == s[3..] && s[2] == '_' && ['_'] + "b" == "_b" && ["b", "C"][1..] == ["C"];
    assert SplitAll(s[2..], '.') == ["_b", "C"];
    assert s[1..][1..] == s[2..] && s[1] == '.';
    assert SplitAll(s[1..], '.') == ["", "_b", "C"];
    assert s[0] == 'a' && ['a'] + "" == "a" && ["", "_b", "C"][1..] == ["_b", "C"];
    assert SplitAll(s, '.') == ["a", "_b", "C"];
    assert DropTrailingEmpty(["a", "_b", "C"]) == ["a", "_b", "C"];
  }

  lemma PackageExample()
    ensures PackageSegments(["a", "_b", "C"]) == Some(["a", "_b"])
  {
    var parts := ["a", "_b", "C"];
    assert ["C"][0] == "C" && "C" != "" && "C"[0] == 'C';
    assert PackageSegments(["C"]) == Some([]);
    assert ["_b", "C"][1..] == ["C"] && ["_b", "C"][0] == "_b" && "_b" != "" && "_b"[0] == '_';
    assert ["_b"] + [] == ["_b"];
    assert PackageSegments(["_b", "C"]) == Some(["_b"]);
    assert parts[1..] == ["_b", "C"] && parts[0] == "a" && "a" != "" && "a"[0] == 'a' && ["a"] + ["_b"] == ["a", "_b"];
  }

  lemma ClassExample()
    ensures ClassSegments(["a", "_b", "C"]) == Some(["_b", "C"])
  {
    var parts := ["a", "_b", "C"];
    assert ["_b", "C"][0] == "_b" && "_b" != "" && "_b"[0] == '_';
    assert ClassSegments(["_b", "C"]) == Some(["_b", "C"]);
    assert parts[1..] == ["_b", "C"] && parts[0] == "a" && "a" != "" && "a"[0] == 'a';
  }

  // ---------------------------------------------------------------------------
  // Owning-class derivation in Class.build(String)

  /** The index of the first segment led by an upper-case letter, as the loop in Class.build(String) finds it (0 if none). */
  predicate ClassStartAt(s: string, i: nat)
  {
    1 <= i < |s| && s[i - 1] == '.' && IsUpper(s[i])
  }

  function FirstClassFrom(s: string, i: nat): (r: nat)
    decreases |s| - i
  {
    if i >= |s| then 0 else if ClassStartAt(s, i) then i else FirstClassFrom(s, i + 1)
  }

  /** The index of the first upper-case letter that follows a '.', or 0 when there is none. */
  function FirstClassNameIndex(s: string): nat { FirstClassFrom(s, 1) }

  /** The index of the last '.', or 0 when there is none (a '.' at index 0 also gives 0). */
  function LastDot(s: string): nat
  {
    var k := LastIndexOf(s, '.');
    if k > 0 then k else 0
  }

  lemma {:induction false} FirstClassFromSpec(s: string, i: nat)
    requires i >= 1
    ensures var r := FirstClassFrom(s, i);
      && (r == 0 ==> forall k :: i <= k < |s| ==> !ClassStartAt(s, k))
      && (r != 0 ==> i <= r && ClassStartAt(s, r) && forall k :: i <= k < r ==> !ClassStartAt(s, k))
    decreases |s| - i
  {
    if i < |s| && !ClassStartAt(s, i) {
      FirstClassFromSpec(s, i + 1);
    }
  }

  /** FirstClassNameIndex finds the first class-name start, and 0 means there is none. */
  lemma FirstClassNameIndexSpec(s: string)
    ensures var r := FirstClassNameIndex(s);
      && (r == 0 ==> forall k :: 1 <= k < |s| ==> !ClassStartAt(s, k))
      && (r != 0 ==> ClassStartAt(s, r) && forall k :: 1 <= k < r ==> !ClassStartAt(s, k))
  {
    FirstClassFromSpec(s, 1);
  }

  /** Those two facts pin FirstClassNameIndex down. */
  lemma FirstClassNameIndexUnique(s: string, f: nat)
    requires f == 0 ==> forall k :: 1 <= k < |s| ==> !ClassStartAt(s, k)
    requires f != 0 ==> ClassStartAt(s, f) && forall k :: 1 <= k < f ==> !ClassStartAt(s, k)
    ensures f == FirstClassNameIndex(s)
  {
    FirstClassNameIndexSpec(s);
  }

  /**
   * The name of the owning class Class.build(String) derives: the prefix
   * before the last '.', when that '.' lies after the first class-name start.
   */
  function OwnerName(s: string): (r: Option<string>)
    ensures r.Some? ==> |r.value| < |s| && r.value == s[..LastDot(s)]
  {
    if LastDot(s) > FirstClassNameIndex(s) then Some(s[..LastDot(s)]) else None
  }

  /** An owning class is derived exactly when a '.' occurs after the first class-name start (after index 0 when none). */
  lemma OwnerNameWhenDotAfterClass(s: string)
    ensures OwnerName(s).Some? <==> exists j :: FirstClassNameIndex(s) < j < |s| && s[j] == '.'
  {
    var f := FirstClassNameIndex(s);
    if exists j :: f < j < |s| && s[j] == '.' {
      var j :| f < j < |s| && s[j] == '.';
      assert LastIndexOf(s, '.') >= j;
    }
  }

  /**
   * The scan of Class.build(String): the first index where an upper-case
   * letter follows a '.', and the index of the last '.'.  An owning class
   * exists when `lastDot > firstClassNameIndex`.
   */
  method ScanClassName(fqn: string) returns (firstClassNameIndex: nat, lastDot: nat)
    ensures firstClassNameIndex == FirstClassNameIndex(fqn)
    ensures lastDot == LastDot(fqn)
  {
    firstClassNameIndex, lastDot := 0, 0;
    var prev := ' ';
    var i := 0;
    while i < |fqn|
      invariant 0 <= i <= |fqn|
      invariant i > 0 ==> prev == fqn[i - 1]
      invariant i == 0 ==> prev == ' '
      invariant firstClassNameIndex == 0 ==> forall k :: 1 <= k < i ==> !ClassStartAt(fqn, k)
      invariant firstClassNameIndex != 0 ==> firstClassNameIndex < i && ClassStartAt(fqn, firstClassNameIndex) && (forall k :: 1 <= k < firstClassNameIndex ==> !ClassStartAt(fqn, k))
      invariant lastDot < i || lastDot == 0
      invariant lastDot != 0 ==> fqn[lastDot] == '.'
      invariant forall k :: lastDot < k < i ==> fqn[k] != '.'
    {
      var c := fqn[i];
      if firstClassNameIndex == 0 && prev == '.' && IsUpper(c) {
        firstClassNameIndex := i;
      } else if c == '.' {
        lastDot := i;
      }
      prev := c;
      i := i + 1;
    }
    FirstClassNameIndexUnique(fqn, firstClassNameIndex);
  }
}
