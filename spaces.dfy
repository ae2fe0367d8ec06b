/**
 * The spacing formatter: every rule inserts one space where the style wants
 * one and the whitespace is empty, removes a whitespace that is exactly one
 * space where the style wants none, and leaves any other whitespace alone.
 * The rules are applied to the prefixes and paddings of list elements,
 * operators and parentheses.
 */
module Spaces {
  import opened Wrappers
  import opened Formatting

  // ---------------------------------------------------------------------------
  // Style

  datatype BeforeParentheses = BeforeParentheses(methodDeclaration: bool, methodCall: bool, forParentheses: bool)

  datatype BeforeLeftBrace = BeforeLeftBrace(
    methodLeftBrace: bool, forLeftBrace: bool, arrayInitializerLeftBrace: bool,
    annotationArrayInitializerLeftBrace: bool)

  datatype AroundOperators = AroundOperators(
    logical: bool, equality: bool, relational: bool, bitwise: bool, additive: bool, multiplicative: bool,
    shift: bool, unary: bool, methodReferenceDoubleColon: bool)

  datatype Within = Within(
    emptyMethodDeclarationParentheses: bool, methodDeclarationParentheses: bool,
    emptyMethodCallParentheses: bool, methodCallParentheses: bool, angleBrackets: bool, forParentheses: bool,
    arrayInitializerBraces: bool, emptyArrayInitializerBraces: bool, annotationParentheses: bool)

  datatype Other = Other(beforeComma: bool, afterComma: bool, beforeForSemicolon: bool, afterForSemicolon: bool)

  datatype TypeArguments = TypeArguments(afterComma: bool, beforeOpeningAngleBracket: bool, afterClosingAngleBracket: bool)

  datatype SpacesStyle = SpacesStyle(
    beforeParentheses: BeforeParentheses, aroundOperators: AroundOperators, beforeLeftBrace: BeforeLeftBrace,
    within: Within, other: Other, typeArguments: TypeArguments)

  // ---------------------------------------------------------------------------
  // Tree shapes: only the spaces the formatter touches

  /** A tree element: its prefix, and whether it is a J.Empty (the placeholder of an empty list). */
  datatype Elem = Elem(prefix: Space, empty: bool)

  /** JRightPadded: an element and the space after it (before the comma or the closing parenthesis). */
  datatype Padded = Padded(element: Elem, after: Space)

  /** JContainer: the space before the opening delimiter and the padded elements. */
  datatype Container = Container(before: Space, elements: seq<Padded>)

  // ---------------------------------------------------------------------------
  // The basic rule

  /**
   * The rule shared by every spaceBefore overload: a wanted space is
   * inserted into empty whitespace, an unwanted single space is removed, and
   * nothing else changes.
   */
  function SpaceRule(ws: string, want: bool): (r: string)
    ensures want ==> r != ""
    ensures !want ==> r != " "
    ensures r == ws || (want && ws == "" && r == " ") || (!want && ws == " " && r == "")
  {
    if want && ws == "" then " "
    else if !want && ws == " " then ""
    else ws
  }

  /** Applying the rule a second time changes nothing. */
  lemma SpaceRuleIdempotent(ws: string, want: bool)
    ensures SpaceRule(SpaceRule(ws, want), want) == SpaceRule(ws, want)
  {
  }

  /** Whitespace that is neither empty nor one space (a line break, two spaces, a tab) is never touched. */
  lemma SpaceRuleKeepsOtherWhitespace(ws: string, want: bool)
    requires ws != "" && ws != " "
    ensures SpaceRule(ws, want) == ws
  {
  }

  function WithWhitespace(s: Space, ws: string): (r: Space)
    ensures r.whitespace == ws && r.comments == s.comments
  {
    s.(whitespace := ws)
  }

  /** spaceBefore on a tree element: the rule applied to its prefix. */
  function SpaceBefore(e: Elem, want: bool): (r: Elem)
    ensures r.empty == e.empty && r.prefix == WithWhitespace(e.prefix, SpaceRule(e.prefix.whitespace, want))
  {
    e.(prefix := WithWhitespace(e.prefix, SpaceRule(e.prefix.whitespace, want)))
  }

  /** spaceBefore on a container or a left-padded element: the rule applied to the space before it. */
  function SpaceBeforeSpace(s: Space, want: bool): (r: Space)
  {
    WithWhitespace(s, SpaceRule(s.whitespace, want))
  }

  function SpaceBeforeContainer(c: Container, want: bool): (r: Container)
    ensures r.elements == c.elements && r.before == SpaceBeforeSpace(c.before, want)
  {
    c.(before := SpaceBeforeSpace(c.before, want))
  }

  /** spaceBeforeRightPaddedElement: the rule applied to the padded element's prefix. */
  function SpaceBeforeElement(p: Padded, want: bool): (r: Padded)
    ensures r.after == p.after && r.element == SpaceBefore(p.element, want)
  {
    p.(element := SpaceBefore(p.element, want))
  }

  /**
   * spaceAfter: the rule on the space after a padded element, except that a
   * single space is removed only when the space carries no comments.
   */
  function SpaceAfterRule(s: Space, want: bool): (r: string)
    ensures want ==> r != ""
    ensures !want && s.comments == [] ==> r != " "
    ensures r == s.whitespace || (want && s.whitespace == "" && r == " ")
         || (!want && s.whitespace == " " && s.comments == [] && r == "")
  {
    if want && s.whitespace == "" then " "
    else if !want && s.whitespace == " " && s.comments == [] then ""
    else s.whitespace
  }

  function SpaceAfter(p: Padded, want: bool): (r: Padded)
    ensures r.element == p.element && r.after == WithWhitespace(p.after, SpaceAfterRule(p.after, want))
  {
    p.(after := WithWhitespace(p.after, SpaceAfterRule(p.after, want)))
  }

  /** Without comments spaceAfter is the basic rule; with comments a single space is kept. */
  lemma SpaceAfterIsRule(s: Space, want: bool)
    ensures s.comments == [] ==> SpaceAfterRule(s, want) == SpaceRule(s.whitespace, want)
    ensures s.comments != [] && s.whitespace == " " ==> SpaceAfterRule(s, want) == " "
  {
  }

  lemma SpaceAfterIdempotent(p: Padded, want: bool)
    ensures SpaceAfter(SpaceAfter(p, want), want) == SpaceAfter(p, want)
  {
  }

  // ---------------------------------------------------------------------------
  // Per-index list rules

  /**
   * What ListUtils.map does to the element at each index: the first element's
   * prefix, the other elements' prefixes, the last element's `after` and the
   * other elements' `after`, each following its flag or left alone (None).
   */
  datatype ListRule = ListRule(first: Option<bool>, rest: Option<bool>, last: Option<bool>, between: Option<bool>)

  function MaybeBefore(p: Padded, want: Option<bool>): Padded
  {
    if want.Some? then SpaceBeforeElement(p, want.value) else p
  }

  function MaybeAfter(p: Padded, want: Option<bool>): Padded
  {
    if want.Some? then SpaceAfter(p, want.value) else p
  }

  /** The element at index `i` of `n` after the rule. */
  function ApplyAt(rule: ListRule, p: Padded, i: nat, n: nat): Padded
  {
    var before := MaybeBefore(p, if i == 0 then rule.first else rule.rest);
    MaybeAfter(before, if i == n - 1 then rule.last else rule.between)
  }

  function MapList(rule: ListRule, ps: seq<Padded>): (r: seq<Padded>)
    ensures |r| == |ps|
  {
    seq(|ps|, i requires 0 <= i < |ps| => ApplyAt(rule, ps[i], i, |ps|))
  }

  /** Optional whitespace rule: the rule when a flag is given, the whitespace itself otherwise. */
  function MaybeRule(ws: string, want: Option<bool>): string
  {
    if want.Some? then SpaceRule(ws, want.value) else ws
  }

  function MaybeAfterRule(s: Space, want: Option<bool>): string
  {
    if want.Some? then SpaceAfterRule(s, want.value) else s.whitespace
  }

  /**
   * The list keeps its length, its elements and their comments; element 0's
   * prefix follows `first` and every later one `rest`, the last element's
   * `after` follows `last` and every other one `between`.
   */
  lemma MapListRule(rule: ListRule, ps: seq<Padded>)
    ensures |MapList(rule, ps)| == |ps|
    ensures forall i :: 0 <= i < |ps| ==>
      MapList(rule, ps)[i].element.empty == ps[i].element.empty
      && MapList(rule, ps)[i].element.prefix.comments == ps[i].element.prefix.comments
      && MapList(rule, ps)[i].after.comments == ps[i].after.comments
    ensures |ps| > 0 ==> MapList(rule, ps)[0].element.prefix.whitespace == MaybeRule(ps[0].element.prefix.whitespace, rule.first)
    ensures forall i :: 0 < i < |ps| ==>
      MapList(rule, ps)[i].element.prefix.whitespace == MaybeRule(ps[i].element.prefix.whitespace, rule.rest)
    ensures |ps| > 0 ==> MapList(rule, ps)[|ps| - 1].after.whitespace == MaybeAfterRule(ps[|ps| - 1].after, rule.last)
    ensures forall i :: 0 <= i < |ps| - 1 ==>
      MapList(rule, ps)[i].after.whitespace == MaybeAfterRule(ps[i].after, rule.between)
  {
  }

  lemma ApplyAtIdempotent(rule: ListRule, p: Padded, i: nat, n: nat)
    ensures ApplyAt(rule, ApplyAt(rule, p, i, n), i, n) == ApplyAt(rule, p, i, n)
  {
    var want := if i == 0 then rule.first else rule.rest;
    var b := MaybeBefore(p, want);
    if want.Some? {
      SpaceRuleIdempotent(p.element.prefix.whitespace, want.value);
    }
    var wantAfter := if i == n - 1 then rule.last else rule.between;
    if wantAfter.Some? {
      SpaceAfterIdempotent(b, wantAfter.value);
    }
  }

  /** Applying a list rule twice is applying it once. */
  lemma MapListIdempotent(rule: ListRule, ps: seq<Padded>)
    ensures MapList(rule, MapList(rule, ps)) == MapList(rule, ps)
  {
    var once := MapList(rule, ps);
    forall i | 0 <= i < |ps|
      ensures ApplyAt(rule, once[i], i, |ps|) == once[i]
    {
      ApplyAtIdempotent(rule, ps[i], i, |ps|);
    }
  }

  /** Every element's prefix follows one flag. */
  function MapBefore(ps: seq<Padded>, want: bool): (r: seq<Padded>)
    ensures |r| == |ps|
  {
    MapList(ListRule(Some(want), Some(want), None, None), ps)
  }

  /** The rule for parameter, argument and initializer lists: `within` at both ends, the comma flags between. */
  function ParenthesizedList(st: SpacesStyle, within: bool): ListRule
  {
    ListRule(Some(within), Some(st.other.afterComma), Some(within), Some(st.other.beforeComma))
  }

  /**
   * A list whose first element is a J.Empty has every prefix follow the
   * empty-parentheses flag and keeps its `after` spaces; any other list takes
   * the parenthesized-list rule.
   */
  function ParenthesizedElements(st: SpacesStyle, ps: seq<Padded>, whenEmpty: bool, within: bool): (r: seq<Padded>)
    requires |ps| > 0
    ensures |r| == |ps|
  {
    if ps[0].element.empty then MapBefore(ps, whenEmpty) else MapList(ParenthesizedList(st, within), ps)
  }

  // ---------------------------------------------------------------------------
  // Method declarations and invocations

  datatype MethodDeclaration = MethodDeclaration(
    parameters: Container, body: Option<Elem>, typeParameters: Option<seq<Padded>>)

  /** visitMethodDeclaration. Its parameter list always holds an element (a J.Empty when there is no parameter). */
  function VisitMethodDeclaration(st: SpacesStyle, m: MethodDeclaration): (r: MethodDeclaration)
    requires |m.parameters.elements| > 0
    ensures |r.parameters.elements| == |m.parameters.elements|
  {
    var params := SpaceBeforeContainer(m.parameters, st.beforeParentheses.methodDeclaration);
    var body := if m.body.Some? then Some(SpaceBefore(m.body.value, st.beforeLeftBrace.methodLeftBrace)) else None;
    var elements := ParenthesizedElements(st, params.elements, st.within.emptyMethodDeclarationParentheses,
                                          st.within.methodDeclarationParentheses);
    var angle := st.within.angleBrackets;
    var typeParameters := if m.typeParameters.Some?
      then Some(MapList(ListRule(Some(angle), Some(st.other.afterComma), Some(angle), None), m.typeParameters.value))
      else None;
    MethodDeclaration(params.(elements := elements), body, typeParameters)
  }

  datatype MethodInvocation = MethodInvocation(arguments: Container, typeParameters: Option<Container>, name: Elem)

  /** visitMethodInvocation. Its argument list always holds an element (a J.Empty when there is no argument). */
  function VisitMethodInvocation(st: SpacesStyle, m: MethodInvocation): (r: MethodInvocation)
    requires |m.arguments.elements| > 0
    ensures |r.arguments.elements| == |m.arguments.elements|
  {
    var args := SpaceBeforeContainer(m.arguments, st.beforeParentheses.methodCall);
    var elements := ParenthesizedElements(st, args.elements, st.within.emptyMethodCallParentheses,
                                          st.within.methodCallParentheses);
    if m.typeParameters.Some? then
      var tp := SpaceBeforeContainer(m.typeParameters.value, st.typeArguments.beforeOpeningAngleBracket);
      var name := SpaceBefore(m.name, st.typeArguments.afterClosingAngleBracket);
      var tpElements := MapList(ListRule(None, Some(st.typeArguments.afterComma), None, None), tp.elements);
      MethodInvocation(args.(elements := elements), Some(tp.(elements := tpElements)), name)
    else
      MethodInvocation(args.(elements := elements), None, m.name)
  }

  /** A list led by J.Empty: every prefix follows the empty-parentheses flag and the `after` spaces stay. */
  lemma ParenthesizedEmpty(st: SpacesStyle, ps: seq<Padded>, whenEmpty: bool, within: bool)
    requires |ps| > 0 && ps[0].element.empty
    ensures forall i :: 0 <= i < |ps| ==>
      ParenthesizedElements(st, ps, whenEmpty, within)[i].element.prefix.whitespace
        == SpaceRule(ps[i].element.prefix.whitespace, whenEmpty)
    ensures forall i :: 0 <= i < |ps| ==> ParenthesizedElements(st, ps, whenEmpty, within)[i].after == ps[i].after
  {
  }

  /**
   * Any other list: element 0 follows the within flag and later ones
   * afterComma; the last `after` follows the within flag and the others
   * beforeComma.
   */
  lemma ParenthesizedNonEmpty(st: SpacesStyle, ps: seq<Padded>, whenEmpty: bool, within: bool)
    requires |ps| > 0 && !ps[0].element.empty
    ensures ParenthesizedElements(st, ps, whenEmpty, within)[0].element.prefix.whitespace
      == SpaceRule(ps[0].element.prefix.whitespace, within)
    ensures forall i :: 0 < i < |ps| ==>
      ParenthesizedElements(st, ps, whenEmpty, within)[i].element.prefix.whitespace
        == SpaceRule(ps[i].element.prefix.whitespace, st.other.afterComma)
    ensures ParenthesizedElements(st, ps, whenEmpty, within)[|ps| - 1].after.whitespace
      == SpaceAfterRule(ps[|ps| - 1].after, within)
    ensures forall i :: 0 <= i < |ps| - 1 ==>
      ParenthesizedElements(st, ps, whenEmpty, within)[i].after.whitespace
        == SpaceAfterRule(ps[i].after, st.other.beforeComma)
  {
    MapListRule(ParenthesizedList(st, within), ps);
  }

  /** visitMethodDeclaration's parameter list: the parenthesized rule with the method-declaration flags. */
  lemma MethodDeclarationParameters(st: SpacesStyle, m: MethodDeclaration)
    requires |m.parameters.elements| > 0
    ensures VisitMethodDeclaration(st, m).parameters.elements
      == ParenthesizedElements(st, m.parameters.elements, st.within.emptyMethodDeclarationParentheses,
                               st.within.methodDeclarationParentheses)
    ensures VisitMethodDeclaration(st, m).parameters.before
      == SpaceBeforeSpace(m.parameters.before, st.beforeParentheses.methodDeclaration)
  {
  }

  /** visitMethodInvocation's argument list: the parenthesized rule with the method-call flags. */
  lemma MethodInvocationArguments(st: SpacesStyle, m: MethodInvocation)
    requires |m.arguments.elements| > 0
    ensures VisitMethodInvocation(st, m).arguments.elements
      == ParenthesizedElements(st, m.arguments.elements, st.within.emptyMethodCallParentheses,
                               st.within.methodCallParentheses)
    ensures VisitMethodInvocation(st, m).arguments.before
      == SpaceBeforeSpace(m.arguments.before, st.beforeParentheses.methodCall)
  {
  }

  lemma ParenthesizedElementsIdempotent(st: SpacesStyle, ps: seq<Padded>, whenEmpty: bool, within: bool)
    requires |ps| > 0
    ensures ParenthesizedElements(st, ParenthesizedElements(st, ps, whenEmpty, within), whenEmpty, within)
         == ParenthesizedElements(st, ps, whenEmpty, within)
  {
    if ps[0].element.empty {
      MapListIdempotent(ListRule(Some(whenEmpty), Some(whenEmpty), None, None), ps);
    } else {
      MapListIdempotent(ParenthesizedList(st, within), ps);
    }
  }

  /** Formatting a formatted method declaration changes nothing. */
  lemma VisitMethodDeclarationIdempotent(st: SpacesStyle, m: MethodDeclaration)
    requires |m.parameters.elements| > 0
    ensures VisitMethodDeclaration(st, VisitMethodDeclaration(st, m)) == VisitMethodDeclaration(st, m)
  {
    var r := VisitMethodDeclaration(st, m);
    var r2 := VisitMethodDeclaration(st, r);
    assert r2.parameters == r.parameters by {
      var params := SpaceBeforeContainer(m.parameters, st.beforeParentheses.methodDeclaration);
      SpaceRuleIdempotent(m.parameters.before.whitespace, st.beforeParentheses.methodDeclaration);
      ParenthesizedElementsIdempotent(st, params.elements, st.within.emptyMethodDeclarationParentheses,
                                      st.within.methodDeclarationParentheses);
    }
    assert r2.body == r.body by {
      if m.body.Some? {
        SpaceRuleIdempotent(m.body.value.prefix.whitespace, st.beforeLeftBrace.methodLeftBrace);
      }
    }
    assert r2.typeParameters == r.typeParameters by {
      if m.typeParameters.Some? {
        var angle := st.within.angleBrackets;
        MapListIdempotent(ListRule(Some(angle), Some(st.other.afterComma), Some(angle), None), m.typeParameters.value);
      }
    }
  }

  /** Formatting a formatted method invocation changes nothing. */
  lemma VisitMethodInvocationIdempotent(st: SpacesStyle, m: MethodInvocation)
    requires |m.arguments.elements| > 0
    ensures VisitMethodInvocation(st, VisitMethodInvocation(st, m)) == VisitMethodInvocation(st, m)
  {
    var args := SpaceBeforeContainer(m.arguments, st.beforeParentheses.methodCall);
    SpaceRuleIdempotent(m.arguments.before.whitespace, st.beforeParentheses.methodCall);
    ParenthesizedElementsIdempotent(st, args.elements, st.within.emptyMethodCallParentheses,
                                    st.within.methodCallParentheses);
    if m.typeParameters.Some? {
      var tp := m.typeParameters.value;
      SpaceRuleIdempotent(tp.before.whitespace, st.typeArguments.beforeOpeningAngleBracket);
      SpaceRuleIdempotent(m.name.prefix.whitespace, st.typeArguments.afterClosingAngleBracket);
      MapListIdempotent(ListRule(None, Some(st.typeArguments.afterComma), None, None), tp.elements);
    }
  }

  // ---------------------------------------------------------------------------
  // Array initializers

  datatype NewArray = NewArray(prefix: Space, initializer: Option<Container>)

  /**
   * visitNewArray. `inAnnotation` says whether the first J met on the
   * way up, starting at the parent frame itself, is an annotation. A present initializer always holds an
   * element (a J.Empty for `{}`).
   */
  function VisitNewArray(st: SpacesStyle, n: NewArray, inAnnotation: bool): (r: NewArray)
    requires n.initializer.Some? ==> |n.initializer.value.elements| > 0
    ensures r.initializer.Some? <==> n.initializer.Some?
    ensures r.initializer.Some? ==> |r.initializer.value.elements| == |n.initializer.value.elements|
  {
    var n1 :=
      if inAnnotation then
        if !st.within.annotationParentheses
        then n.(prefix := SpaceBeforeSpace(n.prefix, st.beforeLeftBrace.annotationArrayInitializerLeftBrace))
        else n
      else if n.initializer.Some?
      then n.(initializer := Some(SpaceBeforeContainer(n.initializer.value, st.beforeLeftBrace.arrayInitializerLeftBrace)))
      else n;
    if n1.initializer.None? then n1
    else
      var i := n1.initializer.value;
      var commas := if st.other.afterComma then MapList(ListRule(None, Some(true), None, None), i.elements)
                    else i.elements;
      var elements := ParenthesizedElements(st, commas, st.within.emptyArrayInitializerBraces,
                                            st.within.arrayInitializerBraces);
      n1.(initializer := Some(i.(elements := elements)))
  }

  /**
   * With afterComma on, the pass that puts a space before every element but
   * the first is subsumed by the list rule for a list not led by J.Empty.
   */
  lemma AfterCommaPassSubsumed(st: SpacesStyle, ps: seq<Padded>)
    requires |ps| > 0 && !ps[0].element.empty && st.other.afterComma
    ensures MapList(ParenthesizedList(st, st.within.arrayInitializerBraces),
                    MapList(ListRule(None, Some(true), None, None), ps))
         == MapList(ParenthesizedList(st, st.within.arrayInitializerBraces), ps)
  {
    var commas := MapList(ListRule(None, Some(true), None, None), ps);
    forall i | 0 < i < |ps|
      ensures ApplyAt(ParenthesizedList(st, st.within.arrayInitializerBraces), commas[i], i, |ps|)
           == ApplyAt(ParenthesizedList(st, st.within.arrayInitializerBraces), ps[i], i, |ps|)
    {
      SpaceRuleIdempotent(ps[i].element.prefix.whitespace, true);
    }
    assert commas[0] == ps[0];
  }

  /**
   * Inside an annotation only the array's own prefix can change, and only when
   * the within-annotation-parentheses flag is off; elsewhere the initializer's
   * opening brace follows the array-initializer flag.
   */
  lemma NewArrayBrace(st: SpacesStyle, n: NewArray, inAnnotation: bool)
    requires n.initializer.Some? ==> |n.initializer.value.elements| > 0
    ensures inAnnotation && !st.within.annotationParentheses ==>
      VisitNewArray(st, n, inAnnotation).prefix
        == SpaceBeforeSpace(n.prefix, st.beforeLeftBrace.annotationArrayInitializerLeftBrace)
    ensures !(inAnnotation && !st.within.annotationParentheses) ==> VisitNewArray(st, n, inAnnotation).prefix == n.prefix
    ensures n.initializer.Some? && inAnnotation ==>
      VisitNewArray(st, n, inAnnotation).initializer.value.before == n.initializer.value.before
    ensures n.initializer.Some? && !inAnnotation ==>
      VisitNewArray(st, n, inAnnotation).initializer.value.before
        == SpaceBeforeSpace(n.initializer.value.before, st.beforeLeftBrace.arrayInitializerLeftBrace)
  {
  }

  /** An initializer not led by J.Empty is spaced by the parenthesized rule with the array-initializer flags. */
  lemma NewArrayElements(st: SpacesStyle, n: NewArray, inAnnotation: bool)
    requires n.initializer.Some? && |n.initializer.value.elements| > 0
    requires !n.initializer.value.elements[0].element.empty
    ensures VisitNewArray(st, n, inAnnotation).initializer.value.elements
      == MapList(ParenthesizedList(st, st.within.arrayInitializerBraces), n.initializer.value.elements)
  {
    var ps := n.initializer.value.elements;
    if st.other.afterComma {
      AfterCommaPassSubsumed(st, ps);
      assert MapList(ListRule(None, Some(true), None, None), ps)[0] == ps[0];
    }
  }

  // ---------------------------------------------------------------------------
  // for loops

  datatype ForControl = ForControl(prefix: Space, init: seq<Padded>, condition: Padded, update: seq<Padded>)

  datatype ForLoop = ForLoop(control: ForControl, body: Padded)

  /** Whether the first init statement takes a space: the empty-initializer pad style when set and the slot is empty. */
  function InitSpace(st: SpacesStyle, emptyInitPad: Option<bool>, init: seq<Padded>): bool
    requires emptyInitPad.Some? ==> |init| > 0
  {
    if emptyInitPad.Some? && init[0].element.empty then emptyInitPad.value else st.within.forParentheses
  }

  function MapFirst(ps: seq<Padded>, f: Padded -> Padded): (r: seq<Padded>)
    ensures |r| == |ps| && (|ps| > 0 ==> r[0] == f(ps[0]) && r[1..] == ps[1..])
  {
    if ps == [] then ps else [f(ps[0])] + ps[1..]
  }

  /** The init statements: only the first is spaced, before by InitSpace and after by the before-semicolon flag. */
  function ForInit(st: SpacesStyle, emptyInitPad: Option<bool>, init: seq<Padded>): (r: seq<Padded>)
    requires emptyInitPad.Some? ==> |init| > 0
    ensures |r| == |init|
  {
    var putSpaceOnInit := InitSpace(st, emptyInitPad, init);
    MapFirst(init, p => SpaceAfter(SpaceBeforeElement(p, putSpaceOnInit), st.other.beforeForSemicolon))
  }

  /** The update statements: a single J.Empty follows the iterator pad style when set; otherwise the list rule. */
  function ForUpdate(st: SpacesStyle, emptyIterPad: Option<bool>, update: seq<Padded>): (r: seq<Padded>)
    ensures |r| == |update|
  {
    if emptyIterPad.Some? && |update| == 1 && update[0].element.empty
    then MapBefore(update, emptyIterPad.value)
    else MapList(ListRule(Some(st.other.afterForSemicolon), Some(st.other.afterComma),
                          Some(st.within.forParentheses), Some(st.other.beforeComma)), update)
  }

  /**
   * visitForLoop. `emptyInitPad` and `emptyIterPad` are the space settings
   * of EmptyForInitializerPadStyle and EmptyForIteratorPadStyle (None when
   * absent or unset).
   */
  function VisitForLoop(st: SpacesStyle, emptyInitPad: Option<bool>, emptyIterPad: Option<bool>, f: ForLoop)
    : (r: ForLoop)
    requires emptyInitPad.Some? ==> |f.control.init| > 0
    ensures r.control.init == ForInit(st, emptyInitPad, f.control.init)
    ensures r.control.update == ForUpdate(st, emptyIterPad, f.control.update)
  {
    var c := f.control;
    var prefix := SpaceBeforeSpace(c.prefix, st.beforeParentheses.forParentheses);
    var beforeSemicolon, afterSemicolon := st.other.beforeForSemicolon, st.other.afterForSemicolon;
    var condition := SpaceBeforeElement(SpaceAfter(c.condition, beforeSemicolon), afterSemicolon);
    var control := ForControl(prefix, ForInit(st, emptyInitPad, c.init), condition, ForUpdate(st, emptyIterPad, c.update));
    ForLoop.ForLoop(control, SpaceBeforeElement(f.body, st.beforeLeftBrace.forLeftBrace))
  }

  /**
   * The empty-initializer pad style, when set, overrides the within flag for
   * an empty first init statement; otherwise the within flag governs it.
   */
  lemma ForInitPad(st: SpacesStyle, emptyInitPad: Option<bool>, init: seq<Padded>)
    requires |init| > 0
    ensures emptyInitPad.Some? && init[0].element.empty ==>
      ForInit(st, emptyInitPad, init)[0].element.prefix.whitespace
        == SpaceRule(init[0].element.prefix.whitespace, emptyInitPad.value)
    ensures !(emptyInitPad.Some? && init[0].element.empty) ==>
      ForInit(st, emptyInitPad, init)[0].element.prefix.whitespace
        == SpaceRule(init[0].element.prefix.whitespace, st.within.forParentheses)
    ensures ForInit(st, emptyInitPad, init)[0].after.whitespace
      == SpaceAfterRule(init[0].after, st.other.beforeForSemicolon)
  {
  }

  /** Only the first init statement is touched; the others are returned as given. */
  lemma ForInitLaterKept(st: SpacesStyle, emptyInitPad: Option<bool>, init: seq<Padded>)
    requires emptyInitPad.Some? ==> |init| > 0
    ensures forall i :: 0 < i < |init| ==> ForInit(st, emptyInitPad, init)[i] == init[i]
  {
    var r := ForInit(st, emptyInitPad, init);
    forall i | 0 < i < |init| ensures r[i] == init[i] {
      assert r[i] == r[1..][i - 1];
    }
  }

  /** A single empty update follows the iterator pad style when it is set, and keeps its `after`. */
  lemma ForUpdatePad(st: SpacesStyle, emptyIterPad: Option<bool>, update: seq<Padded>)
    requires emptyIterPad.Some? && |update| == 1 && update[0].element.empty
    ensures ForUpdate(st, emptyIterPad, update)[0].element.prefix.whitespace
      == SpaceRule(update[0].element.prefix.whitespace, emptyIterPad.value)
    ensures ForUpdate(st, emptyIterPad, update)[0].after == update[0].after
  {
  }

  /**
   * Otherwise the first update follows the after-semicolon flag and later
   * ones afterComma; the last `after` follows the within-for flag and the
   * others beforeComma.
   */
  lemma ForUpdateList(st: SpacesStyle, emptyIterPad: Option<bool>, update: seq<Padded>)
    requires |update| > 0 && !(emptyIterPad.Some? && |update| == 1 && update[0].element.empty)
    ensures ForUpdate(st, emptyIterPad, update)[0].element.prefix.whitespace
      == SpaceRule(update[0].element.prefix.whitespace, st.other.afterForSemicolon)
    ensures forall i :: 0 < i < |update| ==>
      ForUpdate(st, emptyIterPad, update)[i].element.prefix.whitespace
        == SpaceRule(update[i].element.prefix.whitespace, st.other.afterComma)
    ensures ForUpdate(st, emptyIterPad, update)[|update| - 1].after.whitespace
      == SpaceAfterRule(update[|update| - 1].after, st.within.forParentheses)
    ensures forall i :: 0 <= i < |update| - 1 ==>
      ForUpdate(st, emptyIterPad, update)[i].after.whitespace == SpaceAfterRule(update[i].after, st.other.beforeComma)
  {
    MapListRule(ListRule(Some(st.other.afterForSemicolon), Some(st.other.afterComma),
                         Some(st.within.forParentheses), Some(st.other.beforeComma)), update);
  }

  // ---------------------------------------------------------------------------
  // Operators

  /** J.Binary.Type. */
  datatype BinaryOp =
    | Addition | Subtraction | Multiplication | Division | Modulo
    | LessThan | GreaterThan | LessThanOrEqual | GreaterThanOrEqual | Equal | NotEqual
    | BitAnd | BitOr | BitXor | LeftShift | RightShift | UnsignedRightShift | Or | And

  datatype OperatorCategory = Logical | Equality | Relational | Bitwise | Additive | Multiplicative | ShiftOp

  /** The switch of visitBinary: which around-operators flag governs each operator. */
  function Category(op: BinaryOp): (c: OperatorCategory)
  {
    match op
    case And | Or => Logical
    case Equal | NotEqual => Equality
    case LessThan | LessThanOrEqual | GreaterThan | GreaterThanOrEqual => Relational
    case BitAnd | BitOr | BitXor => Bitwise
    case Addition | Subtraction => Additive
    case Multiplication | Division | Modulo => Multiplicative
    case LeftShift | RightShift | UnsignedRightShift => ShiftOp
  }

  function CategoryFlag(st: SpacesStyle, c: OperatorCategory): bool
  {
    match c
    case Logical => st.aroundOperators.logical
    case Equality => st.aroundOperators.equality
    case Relational => st.aroundOperators.relational
    case Bitwise => st.aroundOperators.bitwise
    case Additive => st.aroundOperators.additive
    case Multiplicative => st.aroundOperators.multiplicative
    case ShiftOp => st.aroundOperators.shift
  }

  /** A binary: the space before its operator and its right operand (the left operand is not touched). */
  datatype Binary = Binary(operatorBefore: Space, operator: BinaryOp, right: Elem)

  /** applyBinarySpaceAround, branch by branch as written. */
  function ApplyBinarySpaceAround(b: Binary, useSpaceAround: bool): (r: Binary)
    ensures r.operator == b.operator
  {
    if useSpaceAround then
      var b1 := if b.operatorBefore.whitespace == "" then b.(operatorBefore := WithWhitespace(b.operatorBefore, " ")) else b;
      if b1.right.prefix.whitespace == "" then b1.(right := b1.right.(prefix := WithWhitespace(b1.right.prefix, " "))) else b1
    else
      var b1 := if b.operatorBefore.whitespace == " " then b.(operatorBefore := WithWhitespace(b.operatorBefore, "")) else b;
      if b1.right.prefix.whitespace == " " then b1.(right := b1.right.(prefix := WithWhitespace(b1.right.prefix, ""))) else b1
  }

  function VisitBinary(st: SpacesStyle, b: Binary): (r: Binary)
  {
    ApplyBinarySpaceAround(b, CategoryFlag(st, Category(b.operator)))
  }

  /** One decision, from the operator's category flag, is the basic rule on both the operator and the right operand. */
  lemma VisitBinarySpacing(st: SpacesStyle, b: Binary)
    ensures var r := VisitBinary(st, b);
      var want := CategoryFlag(st, Category(b.operator));
      r.operatorBefore == SpaceBeforeSpace(b.operatorBefore, want)
      && r.right == SpaceBefore(b.right, want)
  {
  }

  /** Operators of one category are spaced alike. */
  lemma SameCategorySameSpacing(st: SpacesStyle, b: Binary, op: BinaryOp)
    requires Category(op) == Category(b.operator)
    ensures VisitBinary(st, b.(operator := op)) == VisitBinary(st, b).(operator := op)
  {
    VisitBinarySpacing(st, b);
    VisitBinarySpacing(st, b.(operator := op));
  }

  /** J.Unary.Type. */
  datatype UnaryOp = PreIncrement | PreDecrement | PostIncrement | PostDecrement | Positive | Negative | Complement | Not

  /** A unary: the space before its operator and its operand. */
  datatype Unary = Unary(operatorBefore: Space, operator: UnaryOp, expression: Elem)

  /** visitUnary: the unary flag on the operator; for every prefix operator also on the operand. */
  function VisitUnary(st: SpacesStyle, u: Unary): (r: Unary)
    ensures r.operator == u.operator
  {
    var want := st.aroundOperators.unary;
    var u1 := u.(operatorBefore := SpaceBeforeSpace(u.operatorBefore, want));
    match u.operator
    case PostIncrement | PostDecrement => u1
    case _ => u1.(expression := SpaceBefore(u1.expression, want))
  }

  /** Post-increment and post-decrement leave the operand alone; every other operator spaces it like the operator. */
  lemma VisitUnaryOperand(st: SpacesStyle, u: Unary)
    ensures VisitUnary(st, u).operatorBefore.whitespace == SpaceRule(u.operatorBefore.whitespace, st.aroundOperators.unary)
    ensures u.operator.PostIncrement? || u.operator.PostDecrement? ==> VisitUnary(st, u).expression == u.expression
    ensures !(u.operator.PostIncrement? || u.operator.PostDecrement?) ==>
      VisitUnary(st, u).expression.prefix.whitespace == SpaceRule(u.expression.prefix.whitespace, st.aroundOperators.unary)
  {
  }

  lemma VisitUnaryIdempotent(st: SpacesStyle, u: Unary)
    ensures VisitUnary(st, VisitUnary(st, u)) == VisitUnary(st, u)
  {
    SpaceRuleIdempotent(u.operatorBefore.whitespace, st.aroundOperators.unary);
    SpaceRuleIdempotent(u.expression.prefix.whitespace, st.aroundOperators.unary);
  }

  lemma VisitBinaryIdempotent(st: SpacesStyle, b: Binary)
    ensures VisitBinary(st, VisitBinary(st, b)) == VisitBinary(st, b)
  {
    var want := CategoryFlag(st, Category(b.operator));
    VisitBinarySpacing(st, b);
    VisitBinarySpacing(st, VisitBinary(st, b));
    SpaceRuleIdempotent(b.operatorBefore.whitespace, want);
    SpaceRuleIdempotent(b.right.prefix.whitespace, want);
  }

  // ---------------------------------------------------------------------------
  // Member references

  /** A member reference: the padded qualifier, its type parameters, and the space before the referenced name. */
  datatype MemberReference = MemberReference(containing: Padded, typeParameters: Option<Container>, referenceBefore: Space)

  /**
   * visitMemberReference as written: the `::` flag on the space after the
   * qualifier; with type parameters the re-spaced container is built and
   * dropped, so only the qualifier changes.
   */
  function VisitMemberReference(st: SpacesStyle, m: MemberReference): (r: MemberReference)
    ensures r.typeParameters == m.typeParameters
    ensures m.typeParameters.Some? ==> r.referenceBefore == m.referenceBefore
  {
    var want := st.aroundOperators.methodReferenceDoubleColon;
    var m1 := m.(containing := SpaceAfter(m.containing, want));
    if m1.typeParameters.Some? then
      var _ := SpaceBeforeContainer(m1.typeParameters.value, want);
      m1
    else m1.(referenceBefore := SpaceBeforeSpace(m1.referenceBefore, want))
  }

  /** The evidently intended visitMemberReference: the `::` flag also applies to the type parameters' container. */
  function VisitMemberReferenceIntended(st: SpacesStyle, m: MemberReference): (r: MemberReference)
    ensures r.containing == VisitMemberReference(st, m).containing
    ensures m.typeParameters.Some? ==>
      (r.typeParameters.Some? && r.typeParameters.value.before.whitespace
         == SpaceRule(m.typeParameters.value.before.whitespace, st.aroundOperators.methodReferenceDoubleColon))
    ensures m.typeParameters.None? ==> r == VisitMemberReference(st, m)
  {
    var want := st.aroundOperators.methodReferenceDoubleColon;
    var m1 := m.(containing := SpaceAfter(m.containing, want));
    if m1.typeParameters.Some? then m1.(typeParameters := Some(SpaceBeforeContainer(m1.typeParameters.value, want)))
    else m1.(referenceBefore := SpaceBeforeSpace(m1.referenceBefore, want))
  }

  /** `Foo::<T>bar` with the `::` flag on and no space before `<T>`: as written the space is never inserted. */
  lemma MemberReferenceTypeParametersIgnored(st: SpacesStyle, m: MemberReference)
    requires st.aroundOperators.methodReferenceDoubleColon
    requires m.typeParameters.Some? && m.typeParameters.value.before.whitespace == ""
    ensures VisitMemberReference(st, m).typeParameters.value.before.whitespace == ""
    ensures VisitMemberReferenceIntended(st, m).typeParameters.value.before.whitespace == " "
  {
  }
}
